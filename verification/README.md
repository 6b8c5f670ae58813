# Job-search UI state: bookmarks, query aggregation, debounce, local storage

A Dafny model of the sequential logic inside a small React job-search UI.
Rendering, network fetching and browser glue are abstracted away, and four
pieces of state logic are modelled:

- **Bookmarks** (`bookmarks.dfy`, `bookmarks_provider.dfy`). The bookmarked
  job ids are an ordered list. It is hydrated from browser storage under the
  key `"bookmarkedIDs"` with `[]` as the default. `handleToggleBookmark`
  removes every occurrence of an id that is present and appends an id that is
  absent.
- **Query aggregation** (`job_queries.dfy`). `useJobItems` maps per-id query
  results to their `jobItem` payloads, drops the ones not yet arrived, and
  reports loading when any query is loading. `useSearchQuery` falls back to
  the empty list while there is no data.
- **Debounce** (`debounce.dfy`). `useDebounce` is a single-slot timer state
  machine. A render with a new value or delay cancels the pending timeout and
  schedules a fresh one. A timeout that fires sets the debounced value.
- **Local storage** (`local_storage.dfy`). `useLocalStorage` works against an
  abstract key→string store. It hydrates once, then writes the serialised
  value back under its key after every change.

Serialisation (`JSON.stringify`/`JSON.parse`) is an abstract `Codec`. Its
`decode` is `None` where `JSON.parse` would throw or where the parsed value
is not a `T`. Round-trip results assume a
`Faithful` codec, one that reads back what it writes and never writes `""`.
JavaScript numbers are modelled as `int`.

Behaviour worth knowing, all proved:

- Toggling an absent id twice restores the list exactly. Toggling a present
  id twice removes every occurrence of it and appends it once at the end, so
  `[5, 1, 5]` becomes `[1, 5]`. The list comes back unchanged only when the
  id occurred once and was already last (`Bookmarks.ToggleTwicePresent`).
- `localStorage.getItem(key) || …` treats a stored empty string like a missing
  key and falls back to the initial value.
- A stored string that does not parse makes hydration throw. The code has no
  silent fallback to the default here, and the model follows the code
  (`LocalStorage.Hydrate` returns `Err(SyntaxError(…))`).
- `setTimeout` converts its delay to a signed 32-bit integer and treats a
  negative result as zero, so a delay of 2^31 ms or more (up to 2^32) fires at
  once (`Debounce.HugeDelayFiresAtOnce`).
- The storage effect also runs after the first render. So mounting writes the
  hydrated value back even when nothing was stored.

## Model

| member | source | states |
|---|---|---|
| Bookmarks.RemoveAll | src/context/BookmarksContextProvider.tsx:29 | the filtered list has no occurrence of the id, is a subsequence of the original (relative order kept), drops exactly the id's occurrences, and keeps the count of every other id |
| Bookmarks.RemoveAllUnique | src/context/BookmarksContextProvider.tsx:29 | that characterisation is complete: any subsequence that avoids the id and drops only its occurrences is the filtered list |
| Bookmarks.Toggle | src/context/BookmarksContextProvider.tsx:27-33 | membership of the toggled id flips; an absent id is appended with all earlier elements unchanged; a present id is removed with the rest kept in order; every other id keeps its occurrence count; no duplicates before means none after |
| Bookmarks.ToggleTwiceAbsent | src/context/BookmarksContextProvider.tsx:28-31 | toggling an absent id twice returns exactly the original list |
| Bookmarks.ToggleTwicePresent | src/context/BookmarksContextProvider.tsx:28-31 | toggling a present id twice yields the list without it plus the id at the end, which equals the original iff the id occurred once and was last |
| Bookmarks.ToggleAllMembership | src/context/BookmarksContextProvider.tsx:27-33 | after any sequence of toggles an id is in the list iff it started in the list and was clicked an even number of times, or started outside it and was clicked an odd number of times |
| Bookmarks.ToggleAllNoDuplicates | src/context/BookmarksContextProvider.tsx:27-33 | a list without duplicates keeps none after any sequence of toggles |
| BookmarksProvider.Open | src/context/BookmarksContextProvider.tsx:19-22 | the list starts as the parsed value stored under "bookmarkedIDs", as [] when nothing (or "") is stored, and throwing when the stored text does not parse; storage is in sync afterwards |
| BookmarksProvider.ToggleAction | src/context/BookmarksContextProvider.tsx:28-32 | the updater is chosen from the rendered list: if the id was bookmarked, applying it to any list drops every occurrence of the id and keeps the rest in order; if not, it appends the id to any list, even one that already holds it |
| BookmarksProvider.HandleToggleBookmark | src/context/BookmarksContextProvider.tsx:27-33 | the chosen updater applied to the rendered list is the toggle: membership flips (what the bookmark icon shows), other ids keep their counts, no duplicates are introduced, storage holds the new list, no other key changes and no key is added besides "bookmarkedIDs" |
| BookmarksProvider.ToggleActionIsToggle | src/context/BookmarksContextProvider.tsx:27-33 | choosing filter or append from the snapshot and applying it to the same list is the toggle |
| BookmarksProvider.SessionTogglesInOrder | src/context/BookmarksContextProvider.tsx:19-33 | a sequence of clicks leaves the list equal to the toggles applied in order, with storage in sync |
| BookmarksProvider.FreshSession | src/context/BookmarksContextProvider.tsx:19-33 | from empty storage, any sequence of clicks leaves no duplicates and exactly the ids clicked an odd number of times, and a reload restores the same state |
| JobQueries.ResultsFor | src/lib/hooks.ts:60-70 | one query result per id, in the order of the ids |
| JobQueries.Payload | src/lib/hooks.ts:73 | `data?.jobItem` is undefined exactly when the query has no data, and otherwise is the response's jobItem |
| JobQueries.DefinedIndices | src/lib/hooks.ts:72-74 | the positions whose data has arrived, strictly increasing, covering every such position |
| JobQueries.Payloads | src/lib/hooks.ts:72-74 | the j-th returned item is the jobItem of the j-th result whose data has arrived, and there are exactly as many items as such results |
| JobQueries.UseJobItems | src/lib/hooks.ts:59-77 | returns the arrived payloads in id order, at most one per entry of ids, and isLoading iff some per-id result is loading |
| JobQueries.UseSearchQuery | src/lib/hooks.ts:95-109 | the job list is [] whenever there is no data and the fetched list otherwise; isLoading is the query's initial-loading flag |
| Debounce.ToInt32 | src/lib/hooks.ts:120 | the delay setTimeout sees is the given delay wrapped modulo 2^32 into the signed 32-bit range |
| Debounce.Wait | src/lib/hooks.ts:120 | setTimeout waits the delay itself when it lies in [0, 2^31), no time at all for delays in [2^31, 2^32), and never 2^31 ms or more |
| Debounce.Mount | src/lib/hooks.ts:116-122 | the hook remembers the given value, delay and mount time; the debounced value starts as the input, with one timeout pending for it, due after the 32-bit-converted delay |
| Debounce.Step | src/lib/hooks.ts:116-125 | a render with new arguments records them and the render time, cancels the pending timeout and schedules one for the new value; a render with the same arguments changes nothing; a render never changes the output; the clock never changes the arguments or when they last changed, and before the pending timeout is due (or with none pending) it changes nothing; the output changes only to the latest input and only once setTimeout's effective wait (the 32-bit-converted delay, at least zero) has passed since it arrived, and at that point the output becomes the latest input |
| Debounce.HugeDelayFiresAtOnce | src/lib/hooks.ts:119-122 | with a delay in [2^31, 2^32) ms, a new input is emitted at the very instant it arrived, with no waiting |
| Debounce.RunStaysWithinInputs | src/lib/hooks.ts:116-125 | over any event sequence the single-slot invariant holds and the output and input are values the hook was given |
| Debounce.OutputIsSomeInput | src/lib/hooks.ts:116-125 | from a fresh mount, the debounced value is always the initial value or a value rendered since |
| Debounce.TypingBurstEmitsOnlyLast | src/lib/hooks.ts:116-125 | typing "a", "ab", "abc" faster than the 500 ms default emits neither intermediate value, then emits "abc" 500 ms after the last keystroke |
| LocalStorage.StoredOrInitial | src/lib/hooks.ts:157 | a non-empty stored string is used as it is; a missing key and an empty stored string both fall back to the serialised initial value, so the parser never sees "" from storage |
| LocalStorage.Hydrate | src/lib/hooks.ts:156-158 | a non-empty stored string is parsed, and throws if it does not parse; a missing key or "" yields the initial value when it survives serialisation |
| LocalStorage.Persist | src/lib/hooks.ts:160-162 | the key holds the serialisation of the value; every other key is untouched and no key is removed |
| LocalStorage.PersistThenHydrate | src/lib/hooks.ts:156-162 | with a faithful codec, hydrating after a write yields the written value whatever the initial value |
| LocalStorage.Mount | src/lib/hooks.ts:152-165 | mounting succeeds iff hydration does, with the hydrated value, and leaves storage in sync without touching other keys |
| LocalStorage.SetValue | src/lib/hooks.ts:152-165 | the new value is the action resolved against the previous one, storage holds its serialisation, and no other key changes |
| LocalStorage.SetValueUnchangedIsNoOp | src/lib/hooks.ts:160-162 | with storage in sync, setting the value it already has leaves the hook and storage exactly as they were, so skipping the effect for an unchanged value makes no difference |
| LocalStorage.ReloadRestores | src/lib/hooks.ts:152-165 | with a faithful codec and storage in sync, re-mounting from the stored data re-creates exactly the same hook state |

## Left out

- Network fetching (`fetchJobItem`, `fetchJobItems`): HTTP and decoding of server responses. What the query library reports for each query is an input.
- The query library's caching, stale time, retry, request de-duplication and `enabled` flag: third-party behaviour that is not visible here. A bookmarked id `0` disables its query, and how the library reports such a query's loading flag is not modelled.
- `useJobItem` (single item for the active id): its only logic is the library's `enabled` gating and `data?.jobItem`. The latter is modelled in `JobQueries.Payload`.
- `useActiveId`: it depends on JavaScript `Number` coercion of the URL fragment (floating point, NaN) and on DOM `hashchange` listeners.
- `useOnClickOutside` and the four context guards: DOM event plumbing and null checks on React context.
- `JSON.parse`/`JSON.stringify`: foreign code, modelled as an abstract codec. No round-trip is claimed for text the codec did not write.
- React batching and stale closures: `handleToggleBookmark` picks filter or append from the rendered list but applies it to the setter's previous value. The model applies it to the same list (`ToggleAction` is kept separate so the choice is visible).
- Debounce.Step: the effect's dependencies are compared with Dafny value equality, not `Object.is`. The two agree on the strings the search box passes, but an object value rebuilt on every render would restart the timer in the program and not in the model.
- BookmarksProvider.Open: stored text that is well-formed JSON but not an array of integers is not modelled faithfully. `"null"` or `"{}"` hydrates in the program and then throws in `useJobItems` at `ids.map`. `["a"]` hydrates a list of strings and keeps running. A typed `decode` can only answer `None` (reported as a parse error) or some list of integers.
- LocalStorage.SetValue: the model writes to storage on every setter call, but the effect re-runs only when `value` or `key` changes under `Object.is`. If storage was rewritten from outside (another tab, devtools) and the setter returns the identical value, the program leaves the outside text in place while the model restores the serialised value. `LocalStorage.SetValueUnchangedIsNoOp` shows the two agree whenever storage is in sync. The hook's key is fixed in the model, so the program's write of the current value under a changed key, without re-hydrating, is not modelled either.
- Concrete timer scheduling: the clock is an explicit `at` on each event, and a timeout fires on the first `Elapse` at or after its due time.
- The presentational components and the sort and page types: rendering and event wiring only.
