/**
 * The bookmarks provider (src/context/BookmarksContextProvider.tsx): the
 * bookmarked ids live in a useLocalStorage hook under "bookmarkedIDs",
 * starting from the empty list, and handleToggleBookmark updates them.
 */
module BookmarksProvider {
  import opened Wrappers
  import opened LocalStorage
  import opened Bookmarks

  /** The storage key of the bookmark list. */
  const BookmarksKey: string := "bookmarkedIDs"

  type BookmarksHook = Hook<seq<int>>

  /** `useLocalStorage<number[]>("bookmarkedIDs", [])`. */
  function Open(store: Store, c: Codec<seq<int>>): (r: Result<BookmarksHook, ParseError>)
    ensures r.Ok? ==> r.value.key == BookmarksKey && Synced(r.value, c)
    // a non-empty stored list is what the provider starts from; one that does not parse throws
    ensures BookmarksKey in store && store[BookmarksKey] != "" ==>
      match c.decode(store[BookmarksKey])
      case Some(ids) => r.Ok? && r.value.value == ids
      case None => r == Err(SyntaxError(store[BookmarksKey]))
    // nothing stored: the provider starts from the empty list
    ensures (BookmarksKey !in store || store[BookmarksKey] == "") && c.decode(c.encode([])) == Some([]) ==>
      r.Ok? && r.value.value == []
  {
    Mount(store, BookmarksKey, [], c)
  }

  /**
   * The updater handleToggleBookmark passes to the setter: which one is chosen
   * depends on the render-time list `snapshot`, and it is applied to the
   * setter's previous value.
   */
  function ToggleAction(snapshot: seq<int>, id: int): (action: SetStateAction<seq<int>>)
    // bookmarked when rendered: whatever list it meets, every occurrence of the id goes and the rest keeps its order
    ensures id in snapshot ==> forall prev ::
      && id !in Resolve(action, prev)
      && IsSubsequence(Resolve(action, prev), prev)
      && |Resolve(action, prev)| + Count(prev, id) == |prev|
    // not bookmarked when rendered: the id is appended to whatever list it meets, even one that already holds it
    ensures id !in snapshot ==> forall prev :: Resolve(action, prev) == prev + [id]
  {
    if id in snapshot then Update(prev => RemoveAll(prev, id))
    else Update(prev => prev + [id])
  }

  /** handleToggleBookmark, applied to the list it was rendered with. */
  function HandleToggleBookmark(h: BookmarksHook, id: int, c: Codec<seq<int>>): (r: BookmarksHook)
    ensures r.key == h.key && Synced(r, c)
    ensures r.value == Toggle(h.value, id)
    ensures id in r.value <==> id !in h.value
    ensures forall x :: x != id ==> Count(r.value, x) == Count(h.value, x)
    ensures NoDuplicates(h.value) ==> NoDuplicates(r.value)
    ensures r.store.Keys == h.store.Keys + {h.key}
    ensures forall k :: k in h.store && k != h.key ==> k in r.store && r.store[k] == h.store[k]
  {
    ToggleActionIsToggle(h.value, id);
    SetValue(h, ToggleAction(h.value, id), c)
  }

  /** The updater chosen from the snapshot and applied to the same list is exactly the toggle. */
  lemma ToggleActionIsToggle(ids: seq<int>, id: int)
    ensures Resolve(ToggleAction(ids, id), ids) == Toggle(ids, id)
  {
  }

  /** The hook after a sequence of bookmark clicks, handled in order. */
  function Session(h: BookmarksHook, clicks: seq<int>, c: Codec<seq<int>>): BookmarksHook
  {
    if clicks == [] then h
    else HandleToggleBookmark(Session(h, clicks[..|clicks| - 1], c), clicks[|clicks| - 1], c)
  }

  /** A session's list is the toggles applied to the starting list, and storage keeps up with it. */
  lemma {:induction false} SessionTogglesInOrder(h: BookmarksHook, clicks: seq<int>, c: Codec<seq<int>>)
    requires Synced(h, c)
    ensures Session(h, clicks, c).value == ToggleAll(h.value, clicks)
    ensures Session(h, clicks, c).key == h.key && Synced(Session(h, clicks, c), c)
  {
    if clicks != [] {
      var n := |clicks|;
      SessionTogglesInOrder(h, clicks[..n - 1], c);
    }
  }

  /**
   * Starting with nothing stored, after any sequence of clicks the list has no
   * duplicates, holds exactly the ids clicked an odd number of times, and a
   * reload brings the same list back.
   */
  lemma {:induction false} FreshSession(store: Store, clicks: seq<int>, c: Codec<seq<int>>, id: int)
    requires Faithful(c)
    requires BookmarksKey !in store
    ensures Open(store, c).Ok?
    ensures var h := Session(Open(store, c).value, clicks, c);
      && NoDuplicates(h.value)
      && (id in h.value <==> Count(clicks, id) % 2 == 1)
      && Open(h.store, c) == Ok(h)
  {
    assert c.encode([]) != "" && c.decode(c.encode([])) == Some([]);
    var h0 := Open(store, c).value;
    SessionTogglesInOrder(h0, clicks, c);
    ToggleAllNoDuplicates(h0.value, clicks);
    ToggleAllMembership(h0.value, clicks, id);
    ReloadRestores(Session(h0, clicks, c), [], c);
  }
}
