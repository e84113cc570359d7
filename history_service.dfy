/**
 * HistoryService: the recency log of selections.
 *
 * The log is kept oldest first; recording an entry moves it to the end,
 * dropping an equal entry already present, and evicts from the front beyond
 * 100 entries. The view is the log newest first, and a cursor into the log
 * drives back/forward navigation. `updates` counts `OnUpdated` invocations.
 */
module History {
  import opened Wrappers
  import opened UnityHost
  import opened Entries
  import opened Sequences

  const SizeLimit: nat := 100

  /**
   * What `PreviousSelection`/`NextSelection` give: null on an empty log, the
   * entry under the moved cursor, or the `ArgumentOutOfRangeException` the
   * list indexer throws when the cursor is outside the log.
   */
  datatype Jump = NoSelection | Selected(entry: Entry) | CursorOutOfRange

  /** The log after recording `e`, once `RecordEntry` has decided to record it. */
  function Recorded(log: seq<Entry>, e: Entry, h: Host): (r: seq<Entry>)
    reads log`cachedRef, log`unityId, e`cachedRef, e`unityId
    ensures 1 <= |r| <= SizeLimit && r[|r| - 1] == e
  {
    var i := IndexOfSame(log, e, h);
    KeepLast((if i < 0 then log else RemoveAt(log, i)) + [e], SizeLimit)
  }

  /** The cursor is on an entry equal to `e`: recording `e` again is skipped. */
  predicate AtCursor(log: seq<Entry>, cursor: int, e: Entry, h: Host)
    reads log`cachedRef, log`unityId, e`cachedRef, e`unityId
  {
    0 <= cursor < |log| && Same(e, log[cursor], h)
  }

  /** The cursor after `PreviousSelection` on a non-empty log. */
  function StepBack(cursor: int): int
  {
    if cursor - 1 < 0 then 0 else cursor - 1
  }

  /** The cursor after `NextSelection` on a log of `n > 0` entries. */
  function StepForward(cursor: int, n: int): int
  {
    if cursor + 1 >= n then n - 1 else cursor + 1
  }

  /** Reading the log at the moved cursor. */
  function EntryAt(log: seq<Entry>, cursor: int): Jump
  {
    if 0 <= cursor < |log| then Selected(log[cursor]) else CursorOutOfRange
  }

  class HistoryService {
    var entryList: seq<Entry>
    var currentSelectionIndex: int
    var updates: nat

    constructor ()
      ensures entryList == [] && currentSelectionIndex == 0 && updates == 0
    {
      entryList := [];
      currentSelectionIndex := 0;
      updates := 0;
    }

    /** `GetEntries`: the log, newest first. */
    function GetEntries(): (r: seq<Entry>)
      reads this
      ensures |r| == |entryList|
      ensures forall k :: 0 <= k < |r| ==> r[k] == entryList[|entryList| - 1 - k]
    {
      Reverse(entryList)
    }

    /** The `CurrentSelectionIndex` setter: a view index (newest first) becomes a log position. */
    method SetCurrentSelectionIndex(value: int)
      modifies this
      ensures currentSelectionIndex == |entryList| - value - 1
      ensures entryList == old(entryList) && updates == old(updates)
    {
      currentSelectionIndex := |entryList| - value - 1;
    }

    /**
     * Record a selection. `thrown` reports the exception the list indexer
     * raises when the cursor is negative; nothing has changed then.
     */
    method RecordEntry(entry: Entry?, h: Host) returns (thrown: bool)
      modifies this
      ensures thrown <==> entry != null && old(currentSelectionIndex) < 0
      ensures currentSelectionIndex == old(currentSelectionIndex)
      ensures entry == null || thrown || old(AtCursor(entryList, currentSelectionIndex, entry, h)) ==>
        entryList == old(entryList) && updates == old(updates)
      ensures entry != null && !thrown && !old(AtCursor(entryList, currentSelectionIndex, entry, h)) ==>
        entryList == old(Recorded(entryList, entry, h)) && updates == old(updates) + 1
    {
      if entry == null {
        return false;
      }
      if currentSelectionIndex < 0 {
        return true;
      }
      if currentSelectionIndex < |entryList| && Same(entry, entryList[currentSelectionIndex], h) {
        return false;
      }
      var log := entryList;
      var existIndex := IndexOfSame(log, entry, h);
      if existIndex != -1 {
        log := RemoveAt(log, existIndex);
      }
      log := log + [entry];
      assert KeepLast(log, SizeLimit) == Recorded(entryList, entry, h);
      entryList := log;
      EvictOldest();
      updates := updates + 1;
      return false;
    }

    /** The eviction loop of `RecordEntry`: remove index 0 while over `SizeLimit`. */
    method EvictOldest()
      modifies this
      ensures entryList == KeepLast(old(entryList), SizeLimit)
      ensures currentSelectionIndex == old(currentSelectionIndex) && updates == old(updates)
    {
      while |entryList| > SizeLimit
        invariant |entryList| <= |old(entryList)| && entryList == old(entryList)[|old(entryList)| - |entryList|..]
        invariant |entryList| >= SizeLimit || entryList == old(entryList)
        invariant currentSelectionIndex == old(currentSelectionIndex) && updates == old(updates)
      {
        entryList := entryList[1..];
      }
    }

    /** `List.Remove`: drop the first entry equal to `entry`; always notify. */
    method RemoveEntry(entry: Entry?, h: Host)
      modifies this
      ensures entry == null || old(IndexOfSame(entryList, entry, h)) < 0 ==> entryList == old(entryList)
      ensures entry != null && old(IndexOfSame(entryList, entry, h)) >= 0 ==>
        entryList == RemoveAt(old(entryList), old(IndexOfSame(entryList, entry, h)))
      ensures currentSelectionIndex == old(currentSelectionIndex) && updates == old(updates) + 1
    {
      if entry != null {
        var i := IndexOfSame(entryList, entry, h);
        if i >= 0 {
          entryList := RemoveAt(entryList, i);
        }
      }
      updates := updates + 1;
    }

    /** `RemoveAll()`: empty the log; always notify. */
    method RemoveAll()
      modifies this
      ensures entryList == [] && currentSelectionIndex == old(currentSelectionIndex)
      ensures updates == old(updates) + 1
    {
      entryList := [];
      updates := updates + 1;
    }

    /** `RemoveAll(predicate)`: drop exactly the entries `remove` picks; always notify. */
    method RemoveAllWhere(remove: Entry -> bool)
      modifies this
      ensures entryList == Filter(old(entryList), x => !remove(x))
      ensures currentSelectionIndex == old(currentSelectionIndex) && updates == old(updates) + 1
    {
      entryList := Filter(entryList, x => !remove(x));
      updates := updates + 1;
    }

    /** Step the cursor towards older entries and return the entry there. */
    method PreviousSelection() returns (r: Jump)
      modifies this
      ensures entryList == old(entryList) && updates == old(updates)
      ensures old(entryList) == [] ==> r == NoSelection && currentSelectionIndex == old(currentSelectionIndex)
      ensures old(entryList) != [] ==>
        currentSelectionIndex == StepBack(old(currentSelectionIndex)) && r == EntryAt(entryList, currentSelectionIndex)
    {
      if |entryList| == 0 {
        return NoSelection;
      }
      currentSelectionIndex := currentSelectionIndex - 1;
      if currentSelectionIndex < 0 {
        currentSelectionIndex := 0;
      }
      if currentSelectionIndex >= |entryList| {
        return CursorOutOfRange;
      }
      return Selected(entryList[currentSelectionIndex]);
    }

    /** Step the cursor towards newer entries and return the entry there. */
    method NextSelection() returns (r: Jump)
      modifies this
      ensures entryList == old(entryList) && updates == old(updates)
      ensures old(entryList) == [] ==> r == NoSelection && currentSelectionIndex == old(currentSelectionIndex)
      ensures old(entryList) != [] ==>
        currentSelectionIndex == StepForward(old(currentSelectionIndex), |entryList|)
        && r == EntryAt(entryList, currentSelectionIndex)
    {
      if |entryList| == 0 {
        return NoSelection;
      }
      currentSelectionIndex := currentSelectionIndex + 1;
      if currentSelectionIndex >= |entryList| {
        currentSelectionIndex := |entryList| - 1;
      }
      if currentSelectionIndex < 0 {
        return CursorOutOfRange;
      }
      return Selected(entryList[currentSelectionIndex]);
    }
  }

  /**
   * Move-to-back without duplicating: when at most one logged entry equals
   * `e`, no entry but the last one of the new log does.
   */
  lemma RecordedLeavesNoOtherEqual(log: seq<Entry>, e: Entry, h: Host)
    requires AtMostOneSame(log, e, h)
    ensures var r := Recorded(log, e, h); forall k :: 0 <= k < |r| - 1 ==> !Same(r[k], e, h)
  {
    var i := IndexOfSame(log, e, h);
    var kept := if i < 0 then log else RemoveAt(log, i);
    assert forall k :: 0 <= k < |kept| ==> !Same(kept[k], e, h) by {
      forall k | 0 <= k < |kept|
        ensures !Same(kept[k], e, h)
      {
        if i >= 0 && k >= i {
          assert kept[k] == log[k + 1];
        }
      }
    }
    var full := kept + [e];
    var r := KeepLast(full, SizeLimit);
    assert r == Recorded(log, e, h);
    var off := |full| - |r|;
    assert r == full[off..];
    forall k | 0 <= k < |r| - 1
      ensures !Same(r[k], e, h)
    {
      assert r[k] == full[off + k];
      assert full[off + k] == kept[off + k];
    }
  }

  /** Every entry kept besides the new one was already logged, in the same relative order. */
  lemma RecordedKeepsOrder(log: seq<Entry>, e: Entry, h: Host)
    ensures var r := Recorded(log, e, h); IsSubsequence(r[..|r| - 1], log)
  {
    var i := IndexOfSame(log, e, h);
    if i < 0 {
      SubsequenceReflexive(log);
      AppendThenEvictKeepsOrder(log, e, log);
    } else {
      RemoveAtIsSubsequence(log, i);
      AppendThenEvictKeepsOrder(RemoveAt(log, i), e, log);
    }
  }

  /** Appending to an ordered selection of `log` and evicting from the front keeps the rest in order. */
  lemma AppendThenEvictKeepsOrder(kept: seq<Entry>, e: Entry, log: seq<Entry>)
    requires IsSubsequence(kept, log)
    ensures var r := KeepLast(kept + [e], SizeLimit); IsSubsequence(r[..|r| - 1], log)
  {
    var full := kept + [e];
    var r := KeepLast(full, SizeLimit);
    var d := |full| - |r|;
    assert r[..|r| - 1] == kept[d..];
    SuffixIsSubsequence(kept, d);
    SubsequenceTransitive(kept[d..], kept, log);
  }

  /** Recording a new entry into a full log evicts exactly the oldest entry. */
  lemma RecordedEvictsOldest(log: seq<Entry>, e: Entry, h: Host)
    requires |log| == SizeLimit && IndexOfSame(log, e, h) < 0
    ensures Recorded(log, e, h) == log[1..] + [e]
  {
  }

  /** Re-recording a logged entry within the limit evicts nothing: it only moves to the end. */
  lemma RecordedMovesToBack(log: seq<Entry>, e: Entry, h: Host)
    requires |log| <= SizeLimit && IndexOfSame(log, e, h) >= 0
    ensures Recorded(log, e, h) == RemoveAt(log, IndexOfSame(log, e, h)) + [e]
  {
  }

  /** The view index `v` and the log position the cursor setter stores name the same entry. */
  lemma ViewIndexIsLogPosition(log: seq<Entry>, v: int)
    requires 0 <= v < |log|
    ensures 0 <= |log| - v - 1 < |log| && Reverse(log)[v] == log[|log| - v - 1]
  {
  }

  /**
   * From a cursor inside a non-empty log, both steps stay inside, move by
   * at most one, and return the entry under the moved cursor.
   */
  lemma StepsStayInLog(log: seq<Entry>, cursor: int)
    requires 0 <= cursor < |log|
    ensures 0 <= StepBack(cursor) < |log| && EntryAt(log, StepBack(cursor)) == Selected(log[StepBack(cursor)])
    ensures 0 <= StepForward(cursor, |log|) < |log|
    ensures EntryAt(log, StepForward(cursor, |log|)) == Selected(log[StepForward(cursor, |log|)])
    ensures StepBack(cursor) == if cursor == 0 then 0 else cursor - 1
    ensures StepForward(cursor, |log|) == if cursor == |log| - 1 then cursor else cursor + 1
  {
  }

  /** A cursor left beyond a log that has since shrunk makes `PreviousSelection` throw. */
  lemma StaleCursorThrows(log: seq<Entry>, cursor: int)
    requires log != [] && cursor > |log|
    ensures EntryAt(log, StepBack(cursor)) == CursorOutOfRange
  {
  }
}
