/** The record shapes of the job-search UI (src/lib/types.ts). JavaScript numbers are modelled as `int`. */
module JobTypes {

  /** A job posting as returned by the list/search endpoint. */
  datatype JobItem = JobItem(
    id: int,
    badgeLetters: string,
    title: string,
    company: string,
    daysAgo: int,
    date: string,
    relevanceScore: int
  )

  /** A job posting with its full detail fields, as returned by the single-item endpoint. */
  datatype JobItemContent = JobItemContent(
    item: JobItem,
    description: string,
    jobType: string,
    salary: string,
    location: string,
    requirements: string,
    applyLink: string,
    duration: string,
    qualifications: seq<string>,
    reviews: seq<string>,
    companyURL: string,
    coverImgURL: string
  )
}
