/**
 * The bookmark list of the job-search UI and its toggle
 * (handleToggleBookmark in src/context/BookmarksContextProvider.tsx).
 *
 * The list is an ordered sequence of job ids. Toggling an id that is in the
 * list removes every occurrence of it; toggling one that is not appends it.
 */
module Bookmarks {

  /** Number of occurrences of `x` in `s`. */
  function Count(s: seq<int>, x: int): (n: nat)
    ensures n <= |s|
    ensures n > 0 <==> x in s
  {
    if s == [] then 0
    else (if s[0] == x then 1 else 0) + Count(s[1..], x)
  }

  /** No id occurs twice. */
  predicate NoDuplicates(s: seq<int>) {
    forall x :: x in s ==> Count(s, x) <= 1
  }

  /** `a` can be obtained from `b` by deleting elements: the elements of `a` occur in `b` in the same relative order. */
  predicate IsSubsequence(a: seq<int>, b: seq<int>)
    decreases |b|
  {
    if a == [] then true
    else if b == [] then false
    else if a[0] == b[0] then IsSubsequence(a[1..], b[1..])
    else IsSubsequence(a, b[1..])
  }

  /**
   * `prev.filter((item) => item !== id)`: every occurrence of `id` is dropped,
   * every other element is kept, in its original order.
   */
  function RemoveAll(ids: seq<int>, id: int): (r: seq<int>)
    ensures id !in r
    ensures IsSubsequence(r, ids)
    ensures |r| + Count(ids, id) == |ids|
    ensures forall x :: x != id ==> Count(r, x) == Count(ids, x)
  {
    if ids == [] then []
    else if ids[0] == id then RemoveAll(ids[1..], id)
    else
      var rest := RemoveAll(ids[1..], id);
      assert ([ids[0]] + rest)[1..] == rest;
      [ids[0]] + rest
  }

  /** The bookmark toggle, with the render-time snapshot equal to the list it is applied to. */
  function Toggle(ids: seq<int>, id: int): (r: seq<int>)
    ensures id in r <==> id !in ids
    ensures id !in ids ==> |r| == |ids| + 1 && r[..|ids|] == ids && r[|ids|] == id
    ensures id in ids ==> IsSubsequence(r, ids) && |r| == |ids| - Count(ids, id)
    ensures forall x :: x != id ==> Count(r, x) == Count(ids, x)
    ensures NoDuplicates(ids) ==> NoDuplicates(r)
  {
    if id in ids then RemoveAll(ids, id)
    else
      CountAppend(ids, [id]);
      ids + [id]
  }

  lemma {:induction false} CountAppend(a: seq<int>, b: seq<int>)
    ensures forall x :: Count(a + b, x) == Count(a, x) + Count(b, x)
  {
    if a == [] {
      assert a + b == b;
    } else {
      assert (a + b)[1..] == a[1..] + b;
      CountAppend(a[1..], b);
    }
  }

  /** Removing an id that is absent leaves the list as it is. */
  lemma {:induction false} RemoveAbsent(ids: seq<int>, id: int)
    requires id !in ids
    ensures RemoveAll(ids, id) == ids
  {
    if ids != [] {
      RemoveAbsent(ids[1..], id);
      assert [ids[0]] + ids[1..] == ids;
    }
  }

  /** Filtering distributes over concatenation. */
  lemma {:induction false} RemoveAppend(a: seq<int>, b: seq<int>, id: int)
    ensures RemoveAll(a + b, id) == RemoveAll(a, id) + RemoveAll(b, id)
  {
    if a == [] {
      assert a + b == b;
    } else {
      assert (a + b)[0] == a[0];
      assert (a + b)[1..] == a[1..] + b;
      RemoveAppend(a[1..], b, id);
    }
  }

  /** A subsequence that avoids `id` is at most as long as the elements of `b` other than `id`. */
  lemma {:induction false} SubsequenceAvoidingBound(a: seq<int>, b: seq<int>, id: int)
    requires IsSubsequence(a, b)
    requires id !in a
    ensures |a| + Count(b, id) <= |b|
    decreases |b|
  {
    if a == [] {
    } else if a[0] == b[0] {
      SubsequenceAvoidingBound(a[1..], b[1..], id);
    } else {
      SubsequenceAvoidingBound(a, b[1..], id);
    }
  }

  /**
   * The contract of RemoveAll pins it down: the only subsequence of `ids` that
   * avoids `id` and drops nothing else is the filtered list.
   */
  lemma {:induction false} RemoveAllUnique(ids: seq<int>, id: int, r: seq<int>)
    requires IsSubsequence(r, ids)
    requires id !in r
    requires |r| + Count(ids, id) == |ids|
    ensures r == RemoveAll(ids, id)
    decreases |ids|
  {
    if ids == [] {
    } else if ids[0] == id {
      assert r == [] || r[0] != ids[0];
      RemoveAllUnique(ids[1..], id, r);
    } else if r == [] {
    } else if r[0] == ids[0] {
      RemoveAllUnique(ids[1..], id, r[1..]);
      assert r == [r[0]] + r[1..];
    } else {
      SubsequenceAvoidingBound(r, ids[1..], id);
    }
  }

  /** Toggling an absent id twice restores the list exactly. */
  lemma {:induction false} ToggleTwiceAbsent(ids: seq<int>, id: int)
    requires id !in ids
    ensures Toggle(Toggle(ids, id), id) == ids
  {
    RemoveAppend(ids, [id], id);
    RemoveAbsent(ids, id);
    assert RemoveAll([id], id) == [];
  }

  /**
   * Toggling a present id twice removes every occurrence of it and appends it
   * once at the end (`[5, 1, 5]` becomes `[1, 5]`), so the list comes back
   * unchanged exactly when the id occurred once and was already last.
   */
  lemma {:induction false} ToggleTwicePresent(ids: seq<int>, id: int)
    requires id in ids
    ensures Toggle(Toggle(ids, id), id) == RemoveAll(ids, id) + [id]
    ensures Toggle(Toggle(ids, id), id) == ids <==> ids[|ids| - 1] == id && Count(ids, id) == 1
  {
    var n := |ids|;
    var front := ids[..n - 1];
    assert ids == front + [ids[n - 1]];
    CountSnoc(front, ids[n - 1], id);
    if ids[n - 1] == id && Count(ids, id) == 1 {
      // ids is front + [id] with id absent from front: the second toggle of front restores it
      ToggleTwiceAbsent(front, id);
    }
    if RemoveAll(ids, id) + [id] == ids {
      assert front == RemoveAll(ids, id);
    }
  }

  /** The list after a sequence of toggles, applied in order. */
  function ToggleAll(ids: seq<int>, clicks: seq<int>): seq<int>
  {
    if clicks == [] then ids
    else Toggle(ToggleAll(ids, clicks[..|clicks| - 1]), clicks[|clicks| - 1])
  }

  /**
   * After a sequence of toggles an id is bookmarked exactly when it started in
   * the list and was clicked an even number of times, or started outside it
   * and was clicked an odd number of times.
   */
  lemma {:induction false} ToggleAllMembership(ids: seq<int>, clicks: seq<int>, id: int)
    ensures id in ToggleAll(ids, clicks) <==> (id in ids <==> Count(clicks, id) % 2 == 0)
  {
    if clicks != [] {
      var n := |clicks|;
      var earlier, last := clicks[..n - 1], clicks[n - 1];
      ToggleAllMembership(ids, earlier, id);
      assert clicks == earlier + [last];
      CountSnoc(earlier, last, id);
      ToggleFlips(ToggleAll(ids, earlier), last, id);
      ParityStep(Count(earlier, id));
    }
  }

  lemma CountSnoc(s: seq<int>, last: int, x: int)
    ensures Count(s + [last], x) == Count(s, x) + (if last == x then 1 else 0)
  {
    CountAppend(s, [last]);
  }

  /** One toggle flips the membership of the toggled id and of no other. */
  lemma ToggleFlips(ids: seq<int>, toggled: int, id: int)
    ensures id in Toggle(ids, toggled) <==> (id in ids <==> toggled != id)
  {
    if toggled != id {
      assert Count(Toggle(ids, toggled), id) == Count(ids, id);
    }
  }

  /** One more click flips the parity of an id's click count. */
  lemma ParityStep(c: nat)
    ensures (c + 1) % 2 == 0 <==> c % 2 != 0
  {
  }

  /** A list without duplicates never gains one, however many toggles are applied. */
  lemma {:induction false} ToggleAllNoDuplicates(ids: seq<int>, clicks: seq<int>)
    requires NoDuplicates(ids)
    ensures NoDuplicates(ToggleAll(ids, clicks))
  {
    if clicks != [] {
      ToggleAllNoDuplicates(ids, clicks[..|clicks| - 1]);
    }
  }
}
