/**
 * PreferencePersistence: the tool's toggle table and global state filter.
 *
 * The toggles are an association list of (key, value) pairs, searched from
 * the front. Reading a missing key gives `false`; writing one throws, since
 * the list indexer is handed the `-1` that `FindIndex` reports. `updates`
 * counts `onUpdated` invocations and `saves` counts `Save(true)` calls.
 */
module Preferences {
  import opened Entries

  const AutoRemoveDestroyedKey := "Auto Remove Destroyed"
  const AutoRemoveUnloadedKey := "Auto Remove Unloaded"
  const AutoRemoveDuplicatedKey := "Auto Remove Duplicated"
  const DrawFavoritesKey := "Draw Favorites"
  const OrderByNewerKey := "Order By Newer"
  const BackgroundRecordKey := "Background Record"
  const DetailOnHoverKey := "Detail On Hover"
  const ShowLoadedKey := "Show Hierarchy View Objects"
  const ShowUnloadedKey := "Show Unloaded Objects"
  const ShowDestroyedKey := "Show Destroyed Objects"

  type Toggle = (string, bool)

  /** `FindIndex(el => el.Item1 == key)`: the first position with key `key`, or -1. */
  function IndexOfKey(toggles: seq<Toggle>, key: string): (i: int)
    ensures -1 <= i < |toggles|
    ensures 0 <= i ==> toggles[i].0 == key
    ensures forall k :: 0 <= k < |toggles| && (i < 0 || k < i) ==> toggles[k].0 != key
    decreases |toggles|
  {
    if toggles == [] then -1
    else if toggles[0].0 == key then 0
    else
      var j := IndexOfKey(toggles[1..], key);
      if j < 0 then -1 else j + 1
  }

  /**
   * `Find(el => el.Item1 == key).Item2`: the value of the first pair with
   * key `key`; the default pair `(null, false)` when there is none.
   */
  function ToggleValue(toggles: seq<Toggle>, key: string): (v: bool)
    ensures (forall k :: 0 <= k < |toggles| ==> toggles[k].0 != key) ==> !v
    decreases |toggles|
  {
    if toggles == [] then false
    else if toggles[0].0 == key then toggles[0].1
    else ToggleValue(toggles[1..], key)
  }

  /** The ten toggles a fresh instance holds, in insertion order. */
  function Defaults(): seq<Toggle>
  {
    [ (AutoRemoveDestroyedKey, true), (AutoRemoveUnloadedKey, false), (AutoRemoveDuplicatedKey, true),
      (DrawFavoritesKey, true), (OrderByNewerKey, true), (BackgroundRecordKey, false),
      (DetailOnHoverKey, true), (ShowLoadedKey, true), (ShowUnloadedKey, true), (ShowDestroyedKey, false) ]
  }

  class PreferencePersistence {
    var toggles: seq<Toggle>
    var globalStateFilter: StateFlags
    var updates: nat
    var saves: nat

    /** The constructor appends the ten default toggles; the global filter starts at `All`. */
    constructor ()
      ensures toggles == Defaults() && globalStateFilter == All
      ensures updates == 0 && saves == 0
    {
      globalStateFilter := All;
      updates := 0;
      saves := 0;
      toggles := [];
      toggles := toggles + [(AutoRemoveDestroyedKey, true)];
      toggles := toggles + [(AutoRemoveUnloadedKey, false)];
      toggles := toggles + [(AutoRemoveDuplicatedKey, true)];
      toggles := toggles + [(DrawFavoritesKey, true)];
      toggles := toggles + [(OrderByNewerKey, true)];
      toggles := toggles + [(BackgroundRecordKey, false)];
      toggles := toggles + [(DetailOnHoverKey, true)];
      toggles := toggles + [(ShowLoadedKey, true)];
      toggles := toggles + [(ShowUnloadedKey, true)];
      toggles := toggles + [(ShowDestroyedKey, false)];
    }

    function GetToggleValue(key: string): (v: bool)
      reads this
      ensures IndexOfKey(toggles, key) < 0 ==> !v
      ensures IndexOfKey(toggles, key) >= 0 ==> v == toggles[IndexOfKey(toggles, key)].1
    {
      if IndexOfKey(toggles, key) >= 0 then ToggleValueIsFirstMatch(toggles, key); ToggleValue(toggles, key)
      else ToggleValue(toggles, key)
    }

    /**
     * Overwrite the first pair with key `key`, then notify and save.
     * `thrown` reports the out-of-range exception for a missing key; nothing
     * has changed then.
     */
    method SetToggleValue(key: string, value: bool) returns (thrown: bool)
      modifies this
      ensures thrown <==> IndexOfKey(old(toggles), key) < 0
      ensures thrown ==> toggles == old(toggles) && updates == old(updates) && saves == old(saves)
      ensures !thrown ==>
        && toggles == old(toggles)[IndexOfKey(old(toggles), key) := (key, value)]
        && updates == old(updates) + 1 && saves == old(saves) + 1
      ensures globalStateFilter == old(globalStateFilter)
    {
      var i := IndexOfKey(toggles, key);
      if i < 0 {
        return true;
      }
      toggles := toggles[i := (key, value)];
      UpdateSettings();
      return false;
    }

    /** `UpdateSettings`: notify listeners, then save. */
    method UpdateSettings()
      modifies this
      ensures toggles == old(toggles) && globalStateFilter == old(globalStateFilter)
      ensures updates == old(updates) + 1 && saves == old(saves) + 1
    {
      updates := updates + 1;
      saves := saves + 1;
    }

    /** The `GlobalStateFilter` setter. */
    method SetGlobalStateFilter(value: StateFlags)
      modifies this
      ensures globalStateFilter == value
      ensures toggles == old(toggles) && updates == old(updates) && saves == old(saves)
    {
      globalStateFilter := value;
    }
  }

  /** A key is readable exactly as the value of its first pair. */
  lemma {:induction false} ToggleValueIsFirstMatch(toggles: seq<Toggle>, key: string)
    requires IndexOfKey(toggles, key) >= 0
    ensures ToggleValue(toggles, key) == toggles[IndexOfKey(toggles, key)].1
    decreases |toggles|
  {
    if toggles[0].0 != key {
      ToggleValueIsFirstMatch(toggles[1..], key);
    }
  }

  /** Reading a key after writing it gives the written value. */
  lemma {:induction false} GetAfterSet(toggles: seq<Toggle>, key: string, value: bool)
    requires IndexOfKey(toggles, key) >= 0
    ensures var t := toggles[IndexOfKey(toggles, key) := (key, value)];
      ToggleValue(t, key) == value && IndexOfKey(t, key) == IndexOfKey(toggles, key)
    decreases |toggles|
  {
    var i := IndexOfKey(toggles, key);
    var t := toggles[i := (key, value)];
    if i > 0 {
      assert t[1..] == toggles[1..][i - 1 := (key, value)];
      GetAfterSet(toggles[1..], key, value);
    }
  }

  /** Writing one key leaves the value read for every other key unchanged. */
  lemma {:induction false} SetLeavesOtherKeys(toggles: seq<Toggle>, key: string, value: bool, other: string)
    requires IndexOfKey(toggles, key) >= 0 && other != key
    ensures ToggleValue(toggles[IndexOfKey(toggles, key) := (key, value)], other) == ToggleValue(toggles, other)
    decreases |toggles|
  {
    var i := IndexOfKey(toggles, key);
    var t := toggles[i := (key, value)];
    if i > 0 && toggles[0].0 != other {
      assert t[1..] == toggles[1..][i - 1 := (key, value)];
      SetLeavesOtherKeys(toggles[1..], key, value, other);
    }
  }

  /** Writing keeps the length and every pair but the first one with that key. */
  lemma SetKeepsOtherPairs(toggles: seq<Toggle>, key: string, value: bool)
    requires IndexOfKey(toggles, key) >= 0
    ensures var t := toggles[IndexOfKey(toggles, key) := (key, value)];
      |t| == |toggles| && forall k :: 0 <= k < |t| && k != IndexOfKey(toggles, key) ==> t[k] == toggles[k]
  {
  }

  /** The default table holds ten pairs under ten distinct keys. */
  lemma DefaultKeysDistinct()
    ensures |Defaults()| == 10 && DistinctKeys(Defaults())
  {
  }

  /** The keys of `toggles` are pairwise distinct. */
  predicate DistinctKeys(toggles: seq<Toggle>)
  {
    forall i, j :: 0 <= i < j < |toggles| ==> toggles[i].0 != toggles[j].0
  }

  /** With distinct keys, every pair's key reads as that pair's value. */
  lemma {:induction false} DistinctKeysReadBack(toggles: seq<Toggle>, i: nat)
    requires DistinctKeys(toggles) && i < |toggles|
    ensures ToggleValue(toggles, toggles[i].0) == toggles[i].1
    decreases |toggles|
  {
    if i > 0 {
      assert toggles[0].0 != toggles[i].0;
      assert toggles[1..][i - 1] == toggles[i];
      DistinctKeysReadBack(toggles[1..], i - 1);
    }
  }

  /** The values a fresh instance reads for each default key. */
  lemma DefaultValues()
    ensures ToggleValue(Defaults(), AutoRemoveDestroyedKey) && !ToggleValue(Defaults(), AutoRemoveUnloadedKey)
    ensures ToggleValue(Defaults(), AutoRemoveDuplicatedKey) && ToggleValue(Defaults(), DrawFavoritesKey)
    ensures ToggleValue(Defaults(), OrderByNewerKey) && !ToggleValue(Defaults(), BackgroundRecordKey)
    ensures ToggleValue(Defaults(), DetailOnHoverKey) && ToggleValue(Defaults(), ShowLoadedKey)
    ensures ToggleValue(Defaults(), ShowUnloadedKey) && !ToggleValue(Defaults(), ShowDestroyedKey)
  {
    DefaultKeysDistinct();
    DistinctKeysReadBack(Defaults(), 0);
    DistinctKeysReadBack(Defaults(), 1);
    DistinctKeysReadBack(Defaults(), 2);
    DistinctKeysReadBack(Defaults(), 3);
    DistinctKeysReadBack(Defaults(), 4);
    DistinctKeysReadBack(Defaults(), 5);
    DistinctKeysReadBack(Defaults(), 6);
    DistinctKeysReadBack(Defaults(), 7);
    DistinctKeysReadBack(Defaults(), 8);
    DistinctKeysReadBack(Defaults(), 9);
  }

  /** An unknown key reads as `false` and cannot be written. */
  lemma UnknownKey(toggles: seq<Toggle>, key: string)
    requires forall k :: 0 <= k < |toggles| ==> toggles[k].0 != key
    ensures !ToggleValue(toggles, key) && IndexOfKey(toggles, key) < 0
  {
  }
}
