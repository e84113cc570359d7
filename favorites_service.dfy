/**
 * FavoritesService: the pinned list, oldest first, with a snapshot
 * (`entries0`) that staged edits made while the favourites window is open
 * can be applied to or discarded back to.
 *
 * Whether a `FavoritesWindow` is open (`EditorWindow.HasOpenInstances`) is
 * the parameter `windowOpen`. `entries0` is `None` until a snapshot is taken.
 */
module Favorites {
  import opened Wrappers
  import opened UnityHost
  import opened Entries
  import opened Sequences

  /** The service's `SizeLimit`; declared but enforced by no operation of it. */
  const SizeLimit: nat := 200

  /**
   * The list after `RecordEntry(e)`, given the position `i` of an entry
   * equal to `e` (-1 for none): with the window open that entry is replaced
   * in place (or `e` appended); with it closed a favourite moves to the end
   * (or is appended) and a non-favourite changes nothing.
   */
  function Pinned(list: seq<Entry>, i: int, e: Entry, isFavorite: bool, windowOpen: bool): (r: seq<Entry>)
    requires -1 <= i < |list|
    ensures |r| == |list| + (if i < 0 && (windowOpen || isFavorite) then 1 else 0)
    ensures windowOpen || isFavorite ==> e in r
  {
    if windowOpen then (if i >= 0 then assert list[i := e][i] == e; list[i := e] else list + [e])
    else if isFavorite then (if i >= 0 then RemoveAt(list, i) else list) + [e]
    else list
  }

  /** `RemoveAll(x => !x.IsFavorite)`: the entries whose flag is set, in order. */
  function KeepFavorites(list: seq<Entry>): (r: seq<Entry>)
    reads list`isFavorite
    ensures |r| <= |list|
    ensures forall k :: 0 <= k < |r| ==> r[k].isFavorite
    decreases |list|
  {
    if list == [] then []
    else (if list[0].isFavorite then [list[0]] else []) + KeepFavorites(list[1..])
  }

  /** The number of times `e` occurs in `list`. */
  function Occurrences(list: seq<Entry>, e: Entry): nat
  {
    multiset(list)[e]
  }

  /** `n` copies of `true`: the events `onFavoriteChanged` emits when the flag is set `n` times. */
  function Trues(n: nat): (r: seq<bool>)
    ensures |r| == n && forall k :: 0 <= k < n ==> r[k]
  {
    seq(n, _ => true)
  }

  lemma OccurrencesSnoc(list: seq<Entry>, x: Entry, y: Entry)
    ensures Occurrences(list + [x], y) == Occurrences(list, y) + (if y == x then 1 else 0)
  {
    assert multiset(list + [x]) == multiset(list) + multiset{x};
  }

  lemma TruesSnoc(n: nat)
    ensures Trues(n) + [true] == Trues(n + 1)
  {
  }

  class FavoritesService {
    var entries: seq<Entry>
    var entries0: Option<seq<Entry>>
    var updates: nat

    constructor ()
      ensures entries == [] && entries0 == None && updates == 0
    {
      entries := [];
      entries0 := None;
      updates := 0;
    }

    /** `GetEntries`: the favourites, most recently pinned first. */
    function GetEntries(): (r: seq<Entry>)
      reads this
      ensures |r| == |entries|
      ensures forall k :: 0 <= k < |r| ==> r[k] == entries[|entries| - 1 - k]
    {
      Reverse(entries)
    }

    /** The entries `DiscardChanges` would flag, for its frame. */
    function Snapshot(): seq<Entry>
      reads this
    {
      if entries0.Some? then entries0.value else []
    }

    /** `RecordEntry(entry, isFavorite)`: set the flag (emitting it), then record. */
    method RecordFavorite(entry: Entry?, isFavorite: bool, windowOpen: bool, h: Host)
      modifies this, entry
      ensures entry == null ==> entries == old(entries) && updates == old(updates)
      ensures entry != null ==>
        && entry.isFavorite == isFavorite && entry.favoriteChanges == old(entry.favoriteChanges) + [isFavorite]
        && entry.CacheOf() == old(entry.CacheOf())
        && entries == Pinned(old(entries), old(IndexOfSame(entries, entry, h)), entry, isFavorite, windowOpen)
        && updates == old(updates) + 1
      ensures entries0 == old(entries0)
    {
      if entry == null {
        return;
      }
      entry.SetFavorite(isFavorite);
      RecordEntry(entry, windowOpen, h);
    }

    /** `RecordEntry(entry)`: record under the entry's own flag; a non-null entry always notifies. */
    method RecordEntry(entry: Entry?, windowOpen: bool, h: Host)
      modifies this
      ensures entry == null ==> entries == old(entries) && updates == old(updates)
      ensures entry != null ==>
        && entries == Pinned(old(entries), old(IndexOfSame(entries, entry, h)), entry, entry.isFavorite, windowOpen)
        && updates == old(updates) + 1
      ensures entries0 == old(entries0)
    {
      if entry == null {
        return;
      }
      var existIndex := IndexOfSame(entries, entry, h);
      if windowOpen {
        if existIndex != -1 {
          entries := entries[existIndex := entry];
        } else {
          entries := entries + [entry];
        }
      } else if entry.isFavorite {
        if existIndex != -1 {
          entries := RemoveAt(entries, existIndex);
          entries := entries + [entry];
        } else {
          entries := entries + [entry];
        }
      }
      updates := updates + 1;
    }

    /** Unpin by reference and clear the flag; nothing happens for null. */
    method RemoveEntry(entry: Entry?)
      modifies this, entry
      ensures entry == null ==> entries == old(entries) && updates == old(updates)
      ensures entry != null ==>
        && entries == Filter(old(entries), x => x != entry)
        && !entry.isFavorite && entry.favoriteChanges == old(entry.favoriteChanges) + [false]
        && entry.CacheOf() == old(entry.CacheOf())
        && updates == old(updates) + 1
      ensures entries0 == old(entries0)
    {
      if entry == null {
        return;
      }
      entries := Filter(entries, x => x != entry);
      entry.SetFavorite(false);
      updates := updates + 1;
    }

    /** The interface's default `RemoveAll()`: only notifies. */
    method RemoveAll()
      modifies this
      ensures entries == old(entries) && entries0 == old(entries0) && updates == old(updates) + 1
    {
      updates := updates + 1;
    }

    /** `RemoveAll(predicate)`: does nothing in this service. */
    method RemoveAllWhere(remove: Entry -> bool)
      modifies this
      ensures unchanged(this)
    {
    }

    /** Commit staged edits: drop unflagged entries and snapshot the result. */
    method ApplyChanges()
      modifies this
      ensures entries == KeepFavorites(old(entries)) && entries0 == Some(entries)
      ensures updates == old(updates) + 1
    {
      entries := KeepFavorites(entries);
      entries0 := Some(entries);
      updates := updates + 1;
    }

    /** Take the snapshot that a later discard returns to. */
    method StoreOriginalFavorites()
      modifies this
      ensures entries0 == Some(entries) && entries == old(entries) && updates == old(updates)
    {
      entries0 := Some(entries);
    }

    /**
     * Restore the snapshot and set every restored entry's flag (emitting
     * `true` once per occurrence). Without a snapshot the list copy throws
     * and nothing changes.
     */
    method DiscardChanges() returns (thrown: bool)
      modifies this, Snapshot()
      ensures thrown <==> old(entries0).None?
      ensures thrown ==> entries == old(entries) && updates == old(updates)
      ensures !thrown ==> entries == old(entries0).value && updates == old(updates) + 1
      ensures entries0 == old(entries0)
      ensures !thrown ==> forall k :: 0 <= k < |entries| ==>
        && entries[k].isFavorite
        && entries[k].favoriteChanges == old(entries0.value[k].favoriteChanges) + Trues(Occurrences(entries, entries[k]))
        && entries[k].CacheOf() == old(entries0.value[k].CacheOf())
    {
      if entries0.None? {
        return true;
      }
      entries := entries0.value;
      FlagAll(entries);
      updates := updates + 1;
      return false;
    }
  }

  /** `ForEach(entry => entry.IsFavorite = true)`: set each listed entry's flag, once per occurrence. */
  method FlagAll(list: seq<Entry>)
    modifies list`isFavorite, list`favoriteChanges
    ensures forall k :: 0 <= k < |list| ==>
      && list[k].isFavorite
      && list[k].favoriteChanges == old(list[k].favoriteChanges) + Trues(Occurrences(list, list[k]))
      && list[k].CacheOf() == old(list[k].CacheOf())
  {
    ghost var before := seq(|list|, k requires 0 <= k < |list| reads list => list[k].favoriteChanges);
    for i := 0 to |list|
      invariant forall k :: 0 <= k < |list| ==> list[k].favoriteChanges == before[k] + Trues(Occurrences(list[..i], list[k]))
      invariant forall k :: 0 <= k < i ==> list[k].isFavorite
    {
      FlagNext(list, i, before);
    }
    assert list[..|list|] == list;
    forall k | 0 <= k < |list|
      ensures list[k].favoriteChanges == old(list[k].favoriteChanges) + Trues(Occurrences(list, list[k]))
    {
      assert before[k] == old(list[k].favoriteChanges);
    }
  }

  /**
   * One step of `FlagAll`: set the flag of `list[i]`; every occurrence of
   * that entry sees one more `true`, counted over the first `i + 1` positions.
   */
  method FlagNext(list: seq<Entry>, i: nat, ghost before: seq<seq<bool>>)
    requires i < |list| == |before|
    requires forall k :: 0 <= k < |list| ==> list[k].favoriteChanges == before[k] + Trues(Occurrences(list[..i], list[k]))
    requires forall k :: 0 <= k < i ==> list[k].isFavorite
    modifies {list[i]}`isFavorite, {list[i]}`favoriteChanges
    ensures forall k :: 0 <= k < |list| ==> list[k].favoriteChanges == before[k] + Trues(Occurrences(list[..i + 1], list[k]))
    ensures forall k :: 0 <= k <= i ==> list[k].isFavorite
  {
    list[i].SetFavorite(true);
    forall k | 0 <= k < |list|
      ensures list[k].favoriteChanges == before[k] + Trues(Occurrences(list[..i + 1], list[k]))
    {
      CountStep(list, i, k);
    }
  }

  /** Extending the counted prefix by position `i` adds one `true` exactly for the entry at `i`. */
  lemma CountStep(list: seq<Entry>, i: nat, k: nat)
    requires i < |list| && k < |list|
    ensures Trues(Occurrences(list[..i], list[k])) + (if list[k] == list[i] then [true] else [])
      == Trues(Occurrences(list[..i + 1], list[k]))
  {
    assert list[..i + 1] == list[..i] + [list[i]];
    OccurrencesSnoc(list[..i], list[i], list[k]);
    TruesSnoc(Occurrences(list[..i], list[k]));
  }

  /** With the window open, an equal entry is replaced at its position; otherwise `e` is appended. */
  lemma PinnedWindowOpen(list: seq<Entry>, i: int, e: Entry, isFavorite: bool)
    requires -1 <= i < |list|
    ensures i >= 0 ==> |Pinned(list, i, e, isFavorite, true)| == |list| && Pinned(list, i, e, isFavorite, true)[i] == e
    ensures i >= 0 ==> forall k :: 0 <= k < |list| && k != i ==> Pinned(list, i, e, isFavorite, true)[k] == list[k]
    ensures i < 0 ==> Pinned(list, i, e, isFavorite, true) == list + [e]
  {
  }

  /** With the window open, an entry equal to none pinned is appended once; at most one equal entry stays at most one. */
  lemma {:induction false} PinnedWindowOpenNoDuplicate(list: seq<Entry>, e: Entry, h: Host)
    requires AtMostOneSame(list, e, h)
    ensures forall k :: 0 <= k < |Pinned(list, IndexOfSame(list, e, h), e, false, true)| && Pinned(list, IndexOfSame(list, e, h), e, false, true)[k] != e ==>
      !Same(Pinned(list, IndexOfSame(list, e, h), e, false, true)[k], e, h)
  {
    var i := IndexOfSame(list, e, h);
    var r := Pinned(list, i, e, false, true);
    forall k | 0 <= k < |r| && r[k] != e
      ensures !Same(r[k], e, h)
    {
      if i >= 0 {
        assert k != i && r[k] == list[k];
        if k > i {
          assert Same(list[i], e, h);
        }
      }
    }
  }

  /**
   * With the window closed, a favourite ends the list, appears nowhere else
   * when at most one equal entry was pinned, and the others keep their order.
   */
  lemma {:induction false} PinnedFavoriteMovesToEnd(list: seq<Entry>, e: Entry, h: Host)
    requires AtMostOneSame(list, e, h)
    ensures FavoriteAtEnd(list, Pinned(list, IndexOfSame(list, e, h), e, true, false), e, h)
  {
    var i := IndexOfSame(list, e, h);
    var kept := if i < 0 then list else RemoveAt(list, i);
    KeptHasNoSame(list, e, h);
    if i < 0 {
      SubsequenceReflexive(list);
    } else {
      RemoveAtIsSubsequence(list, i);
    }
    AppendedAtEnd(list, kept, e, h);
    assert Pinned(list, i, e, true, false) == kept + [e];
  }

  /** Appending `e` to an ordered selection of `list` none of whose elements equals `e`. */
  lemma AppendedAtEnd(list: seq<Entry>, kept: seq<Entry>, e: Entry, h: Host)
    requires forall k :: 0 <= k < |kept| ==> !Same(kept[k], e, h)
    requires IsSubsequence(kept, list)
    ensures FavoriteAtEnd(list, kept + [e], e, h)
  {
    assert (kept + [e])[..|kept|] == kept;
  }

  /** Taking out the entry equal to `e`, when there is at most one, leaves none equal to `e`. */
  lemma KeptHasNoSame(list: seq<Entry>, e: Entry, h: Host)
    requires AtMostOneSame(list, e, h)
    ensures IndexOfSame(list, e, h) < 0 ==> forall k :: 0 <= k < |list| ==> !Same(list[k], e, h)
    ensures IndexOfSame(list, e, h) >= 0 ==>
      forall k :: 0 <= k < |list| - 1 ==> !Same(RemoveAt(list, IndexOfSame(list, e, h))[k], e, h)
  {
    var i := IndexOfSame(list, e, h);
    if i >= 0 {
      var kept := RemoveAt(list, i);
      forall k | 0 <= k < |kept|
        ensures !Same(kept[k], e, h)
      {
        if k >= i {
          assert kept[k] == list[k + 1];
        }
      }
    }
  }

  /** `r` ends with `e`, no earlier element equals `e`, and the earlier elements keep their order from `list`. */
  predicate FavoriteAtEnd(list: seq<Entry>, r: seq<Entry>, e: Entry, h: Host)
    reads list, r, e
  {
    && |r| >= 1 && r[|r| - 1] == e
    && (forall k :: 0 <= k < |r| - 1 ==> !Same(r[k], e, h))
    && IsSubsequence(r[..|r| - 1], list)
  }

  /** With the window closed, recording a non-favourite leaves the list as it was. */
  lemma PinnedNonFavoriteIgnored(list: seq<Entry>, i: int, e: Entry)
    requires -1 <= i < |list|
    ensures Pinned(list, i, e, false, false) == list
  {
  }

  /** Unpinning removes every occurrence of that entry and keeps every copy of the others, in order. */
  lemma UnpinRemovesOnlyIt(list: seq<Entry>, e: Entry)
    ensures var r := Filter(list, x => x != e);
      && e !in r
      && (forall k :: 0 <= k < |list| && list[k] != e ==> list[k] in r)
      && (forall x :: x in list && x != e ==> multiset(r)[x] == multiset(list)[x])
      && IsSubsequence(r, list)
  {
    FilterIsSubsequence(list, x => x != e);
    FilterCounts(list, x => x != e);
  }

  /** Applying keeps exactly the flagged entries, every copy of them, in order. */
  lemma {:induction false} KeepFavoritesExact(list: seq<Entry>)
    ensures forall k :: 0 <= k < |list| && list[k].isFavorite ==> list[k] in KeepFavorites(list)
    ensures multiset(KeepFavorites(list)) <= multiset(list)
    ensures forall x :: x in list && x.isFavorite ==> multiset(KeepFavorites(list))[x] == multiset(list)[x]
    ensures IsSubsequence(KeepFavorites(list), list)
    decreases |list|
  {
    if list != [] {
      KeepFavoritesExact(list[1..]);
      KeepFavoritesCounts(list);
      var r := KeepFavorites(list);
      var rest := KeepFavorites(list[1..]);
      if list[0].isFavorite {
        assert r == [list[0]] + rest;
        assert r[1..] == rest;
      } else {
        assert r == rest;
        SuffixIsSubsequence(list, 1);
        SubsequenceTransitive(rest, list[1..], list);
      }
      forall k | 0 <= k < |list| && list[k].isFavorite
        ensures list[k] in r
      {
        if k > 0 {
          assert list[k] == list[1..][k - 1];
        }
      }
    }
  }

  /** Applying keeps every copy of a flagged entry and adds nothing. */
  lemma {:induction false} KeepFavoritesCounts(list: seq<Entry>)
    ensures multiset(KeepFavorites(list)) <= multiset(list)
    ensures forall x :: x in list && x.isFavorite ==> multiset(KeepFavorites(list))[x] == multiset(list)[x]
    decreases |list|
  {
    if list != [] {
      KeepFavoritesCounts(list[1..]);
      var rest: seq<Entry> := KeepFavorites(list[1..]);
      assert list == [list[0]] + list[1..];
      if list[0].isFavorite {
        assert KeepFavorites(list) == [list[0]] + rest;
      } else {
        assert KeepFavorites(list) == rest;
      }
      forall x: Entry | x in list && x.isFavorite
        ensures multiset(KeepFavorites(list))[x] == multiset(list)[x]
      {
        if x !in list[1..] {
          assert multiset(list[1..])[x] == 0;
          assert multiset(rest)[x] == 0;
        }
      }
    }
  }

  /** Applying twice changes nothing more: the second pass keeps every entry. */
  lemma {:induction false} KeepFavoritesIdempotent(list: seq<Entry>)
    ensures KeepFavorites(KeepFavorites(list)) == KeepFavorites(list)
    decreases |list|
  {
    if list != [] {
      KeepFavoritesIdempotent(list[1..]);
      KeepAllFlagged(KeepFavorites(list));
    }
  }

  /** A list whose entries are all flagged is kept whole. */
  lemma {:induction false} KeepAllFlagged(list: seq<Entry>)
    requires forall k :: 0 <= k < |list| ==> list[k].isFavorite
    ensures KeepFavorites(list) == list
    decreases |list|
  {
    if list != [] {
      KeepAllFlagged(list[1..]);
      assert list == [list[0]] + list[1..];
    }
  }

  /**
   * A staged unpin with the window open keeps the entry listed with its flag
   * cleared, so a following apply drops it.
   */
  lemma StagedUnpinThenApply(list: seq<Entry>, i: int, e: Entry)
    requires -1 <= i < |list| && !e.isFavorite
    ensures e in Pinned(list, i, e, false, true)
    ensures e !in KeepFavorites(Pinned(list, i, e, false, true))
  {
    if i >= 0 {
      assert Pinned(list, i, e, false, true)[i] == e;
    } else {
      assert Pinned(list, i, e, false, true)[|list|] == e;
    }
  }
}
