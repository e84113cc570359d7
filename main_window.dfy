/**
 * The list window's logic helpers: keyword search over entry labels, the
 * instance-state filter, toggling a filter flag, and refilling the fixed
 * pool of row elements from a service's view.
 *
 * A row element is modelled by the entry it shows (`null` once reset) and
 * its label text; everything it renders is outside this model.
 */
module Window {
  import opened Wrappers
  import opened UnityHost
  import opened Entries

  /** What `IsMatch` reads of a row element: the text of its label, which may be null. */
  datatype Element = Element(labelText: Option<string>)

  /** `string.IsNullOrEmpty`. */
  predicate NullOrEmpty(s: Option<string>)
  {
    s.None? || s.value == ""
  }

  /** `char.ToLower` on the ASCII letters; every other character is kept. */
  function LowerChar(c: char): char
  {
    if 'A' <= c <= 'Z' then (c as int + 32) as char else c
  }

  /** `string.ToLower`, character by character. */
  function Lower(s: string): (r: string)
    ensures |r| == |s| && forall i :: 0 <= i < |s| ==> r[i] == LowerChar(s[i])
  {
    seq(|s|, i requires 0 <= i < |s| => LowerChar(s[i]))
  }

  /** `p` is a prefix of `s`. */
  predicate IsPrefix(p: string, s: string)
  {
    |p| <= |s| && p == s[..|p|]
  }

  /** `sub` occurs in `s` starting at position `i`. */
  predicate OccursAt(s: string, sub: string, i: int)
  {
    0 <= i && i + |sub| <= |s| && s[i..i + |sub|] == sub
  }

  /** `string.Contains`: `sub` is a prefix of some suffix of `s`. */
  predicate Contains(s: string, sub: string)
    decreases |s|
  {
    IsPrefix(sub, s) || (s != [] && Contains(s[1..], sub))
  }

  /** `string.Split(c)`: the pieces between separators, empty pieces included. */
  function Split(s: string, c: char): (pieces: seq<string>)
    ensures |pieces| >= 1
    decreases |s|
  {
    if s == [] then [[]]
    else
      var rest := Split(s[1..], c);
      if s[0] == c then [[]] + rest
      else [[s[0]] + rest[0]] + rest[1..]
  }

  /** `string.Join(c, pieces)`. */
  function Join(pieces: seq<string>, c: char): string
    requires |pieces| >= 1
    decreases |pieces|
  {
    if |pieces| == 1 then pieces[0] else pieces[0] + [c] + Join(pieces[1..], c)
  }

  /**
   * The answer `IsMatch` gives: no element never matches, an empty search
   * matches every element, an empty label matches no search, and otherwise
   * some space-separated keyword occurs in the lower-cased label.
   */
  predicate Matches(elt: Option<Element>, searchText: Option<string>)
    ensures elt.None? ==> !Matches(elt, searchText)
    ensures elt.Some? && NullOrEmpty(searchText) ==> Matches(elt, searchText)
    ensures elt.Some? && !NullOrEmpty(searchText) && NullOrEmpty(elt.value.labelText) ==> !Matches(elt, searchText)
  {
    elt.Some? &&
    (NullOrEmpty(searchText) ||
     (!NullOrEmpty(elt.value.labelText) &&
      var keywords := Split(searchText.value, ' ');
      exists k :: 0 <= k < |keywords| && Contains(Lower(elt.value.labelText.value), keywords[k])))
  }

  /**
   * The decision of `PassFilter` for an entry in state `state`: a non-zero
   * window filter admits states all of whose bits it has; a zero filter
   * admits everything exactly when the global filter is `All`.
   */
  predicate Admits(stateFilter: StateFlags, globalFilter: StateFlags, state: StateFlags)
    ensures stateFilter != NotGameObject && state == NotGameObject ==> Admits(stateFilter, globalFilter, state)
    ensures stateFilter == All ==> Admits(stateFilter, globalFilter, state)
  {
    assert 0 in All;
    (stateFilter != NotGameObject && HasFlag(stateFilter, state)) || (stateFilter == NotGameObject && globalFilter == All)
  }

  /** The filter after `ToggleStateFilterFlag(s)`. */
  function Toggled(f: StateFlags, s: StateFlags): (r: StateFlags)
    ensures forall b :: b !in s ==> (b in r <==> b in f)
    ensures HasFlag(f, s) ==> forall b :: b in s ==> b !in r
    ensures !HasFlag(f, s) ==> HasFlag(r, s)
  {
    if HasFlag(f, s) then f - s else f + s
  }

  class MainWindow {
    var searchText: Option<string>
    var stateFilter: StateFlags
    /** Number of `ReloadView` calls. */
    var viewReloads: nat
    /** The pool of row elements, each given by the entry it shows. */
    const entryElementsCache: array<Entry?>

    /**
     * A window with no search text, the filter at `All` and `poolSize` blank
     * rows; `CreateGUI` makes one row per entry the service can hold, so
     * `poolSize` is the shown service's `SizeLimit`.
     */
    constructor (poolSize: nat)
      ensures searchText == None && stateFilter == All && viewReloads == 0
      ensures fresh(entryElementsCache) && entryElementsCache.Length == poolSize
      ensures forall i :: 0 <= i < poolSize ==> entryElementsCache[i] == null
    {
      searchText := None;
      stateFilter := All;
      viewReloads := 0;
      entryElementsCache := new Entry?[poolSize](_ => null);
    }

    /** `IsMatch`: scan the keywords of the search text, stopping at the first one found in the label. */
    method IsMatch(elt: Option<Element>) returns (r: bool)
      ensures r == Matches(elt, searchText)
    {
      if elt.None? {
        return false;
      }
      if NullOrEmpty(searchText) {
        return true;
      }
      if NullOrEmpty(elt.value.labelText) {
        return false;
      }
      var keywords := Split(searchText.value, ' ');
      var lowered := Lower(elt.value.labelText.value);
      var isMatch := false;
      var k := 0;
      while k < |keywords|
        invariant 0 <= k <= |keywords|
        invariant forall j :: 0 <= j < k ==> !Contains(lowered, keywords[j])
      {
        if Contains(lowered, keywords[k]) {
          isMatch := true;
          break;
        }
        k := k + 1;
      }
      return isMatch;
    }

    /**
     * `PassFilter`: null never passes; under a non-zero filter the entry's
     * instance state (which restores a GameObject entry's reference) is
     * checked against it; a zero filter defers to the global filter without
     * asking the entry anything.
     */
    method PassFilter(entry: Entry?, globalFilter: StateFlags, h: Host) returns (r: bool)
      modifies entry
      ensures entry == null ==> !r
      ensures entry != null ==> r == Admits(stateFilter, globalFilter, old(entry.InstanceState(h)))
      ensures entry != null && (stateFilter == NotGameObject || !old(entry.IsGameObject())) ==> unchanged(entry)
      ensures entry != null && stateFilter != NotGameObject && old(entry.IsGameObject()) ==>
        entry.CacheOf() == old(entry.RestoredCache(h))
      ensures entry != null ==> entry.isFavorite == old(entry.isFavorite) && entry.favoriteChanges == old(entry.favoriteChanges)
    {
      if entry == null {
        return false;
      }
      if stateFilter != NotGameObject {
        var state := entry.GameObjectInstanceState(h);
        if HasFlag(stateFilter, state) {
          return true;
        }
      }
      if stateFilter == NotGameObject && globalFilter == All {
        return true;
      }
      return false;
    }

    /** `ToggleStateFilterFlag`: clear the bits of `state` if all are set, else set them; then redraw. */
    method ToggleStateFilterFlag(state: StateFlags)
      modifies this
      ensures stateFilter == Toggled(old(stateFilter), state)
      ensures viewReloads == old(viewReloads) + 1 && searchText == old(searchText)
    {
      if HasFlag(stateFilter, state) {
        stateFilter := stateFilter - state;
      } else {
        stateFilter := stateFilter + state;
      }
      viewReloads := viewReloads + 1;
    }

    /** `ReloadEntryList`: row `i` shows `entries[i]`, and rows past the view are reset. */
    method ReloadEntryList(entries: seq<Entry>)
      modifies entryElementsCache
      ensures forall i :: 0 <= i < entryElementsCache.Length ==>
        entryElementsCache[i] == if i < |entries| then entries[i] else null
    {
      for i := 0 to entryElementsCache.Length
        invariant forall j :: 0 <= j < i ==> entryElementsCache[j] == if j < |entries| then entries[j] else null
      {
        if i < |entries| {
          entryElementsCache[i] := entries[i];
        } else {
          entryElementsCache[i] := null;
        }
      }
    }
  }

  /** `Contains` agrees with the positional definition: some occurrence of `sub` in `s`. */
  lemma {:induction false} ContainsIffOccurs(s: string, sub: string)
    ensures Contains(s, sub) <==> exists i :: OccursAt(s, sub, i)
    decreases |s|
  {
    assert OccursAt(s, sub, 0) <==> IsPrefix(sub, s);
    if IsPrefix(sub, s) {
      assert OccursAt(s, sub, 0);
    } else if s == [] {
      forall i | OccursAt(s, sub, i)
        ensures false
      {
      }
    } else {
      ContainsIffOccurs(s[1..], sub);
      if exists i :: OccursAt(s[1..], sub, i) {
        var i :| OccursAt(s[1..], sub, i);
        assert s[1..][i..i + |sub|] == s[i + 1..i + 1 + |sub|];
        assert OccursAt(s, sub, i + 1);
      }
      if exists i :: OccursAt(s, sub, i) {
        var i :| OccursAt(s, sub, i);
        if i > 0 {
          assert s[1..][i - 1..i - 1 + |sub|] == s[i..i + |sub|];
          assert OccursAt(s[1..], sub, i - 1);
        }
      }
    }
  }

  /** The empty keyword occurs in every label. */
  lemma EmptyOccursEverywhere(s: string)
    ensures Contains(s, "")
  {
    assert IsPrefix("", s);
  }

  /** Joining the pieces with the separator gives back the text. */
  lemma {:induction false} JoinSplit(s: string, c: char)
    ensures Join(Split(s, c), c) == s
    decreases |s|
  {
    if s != [] {
      var rest := Split(s[1..], c);
      JoinSplit(s[1..], c);
      if s[0] == c {
        assert Join(Split(s, c), c) == [] + [c] + Join(rest, c);
      } else if |rest| == 1 {
        assert Join(Split(s, c), c) == [s[0]] + rest[0];
      } else {
        assert rest == [rest[0]] + rest[1..];
        assert Join(rest, c) == rest[0] + [c] + Join(rest[1..], c);
        assert Join(Split(s, c), c) == [s[0]] + rest[0] + [c] + Join(rest[1..], c);
      }
      assert [s[0]] + s[1..] == s;
    }
  }

  /** No piece contains the separator. */
  lemma {:induction false} SplitPiecesHaveNoSeparator(s: string, c: char)
    ensures forall k :: 0 <= k < |Split(s, c)| ==> c !in Split(s, c)[k]
    decreases |s|
  {
    if s != [] {
      SplitPiecesHaveNoSeparator(s[1..], c);
    }
  }

  /** Text without the separator is a single piece. */
  lemma {:induction false} SplitWithoutSeparator(s: string, c: char)
    requires c !in s
    ensures Split(s, c) == [s]
    decreases |s|
  {
    if s != [] {
      SplitWithoutSeparator(s[1..], c);
      assert [s[0]] + s[1..] == s;
    }
  }

  /** Two consecutive separators produce an empty piece after the first one. */
  lemma {:induction false} ConsecutiveSeparatorsGiveEmptyPiece(s: string, c: char, i: nat)
    requires i + 1 < |s| && s[i] == c && s[i + 1] == c
    ensures exists k :: 1 <= k < |Split(s, c)| && Split(s, c)[k] == []
    decreases |s|
  {
    var rest := Split(s[1..], c);
    if i == 0 {
      assert rest[0] == [];
      assert Split(s, c)[1] == [];
    } else {
      ConsecutiveSeparatorsGiveEmptyPiece(s[1..], c, i - 1);
      var k :| 1 <= k < |rest| && rest[k] == [];
      if s[0] == c {
        assert Split(s, c)[k + 1] == [];
      } else {
        assert Split(s, c)[k] == rest[k];
      }
    }
  }

  /** A search text with two spaces in a row matches every element with a non-empty label. */
  lemma DoubleSpaceMatchesAnyLabel(name: string, text: string, i: nat)
    requires name != [] && i + 1 < |text| && text[i] == ' ' && text[i + 1] == ' '
    ensures Matches(Some(Element(Some(name))), Some(text))
  {
    ConsecutiveSeparatorsGiveEmptyPiece(text, ' ', i);
    var k :| 1 <= k < |Split(text, ' ')| && Split(text, ' ')[k] == [];
    EmptyOccursEverywhere(Lower(name));
  }

  /** A search text without spaces is one keyword: it matches iff it occurs in the lower-cased label. */
  lemma SingleKeyword(name: string, text: string)
    requires name != [] && text != [] && ' ' !in text
    ensures Matches(Some(Element(Some(name))), Some(text)) <==> Contains(Lower(name), text)
  {
    SplitWithoutSeparator(text, ' ');
    assert Split(text, ' ')[0] == text;
  }

  /** Only the name is lower-cased: an upper-case keyword never matches its own label. */
  lemma KeywordIsNotLowered()
    ensures !Matches(Some(Element(Some("ABC"))), Some("A"))
  {
    SingleKeyword("ABC", "A");
    assert Lower("ABC") == "abc";
    ContainsIffOccurs("abc", "A");
    forall i | 0 <= i <= 2
      ensures !OccursAt("abc", "A", i)
    {
      assert "abc"[i] != 'A';
    }
  }

  /** With a non-zero filter, a state passes iff each of its bits is set in the filter. */
  lemma AdmitsBySubset(stateFilter: StateFlags, globalFilter: StateFlags, state: StateFlags)
    requires stateFilter != NotGameObject
    ensures Admits(stateFilter, globalFilter, state) <==> forall b :: b in state ==> b in stateFilter
  {
  }

  /** A zero filter defers to the global filter, whatever the state. */
  lemma ZeroFilterDefersToGlobal(globalFilter: StateFlags, state: StateFlags)
    ensures Admits(NotGameObject, globalFilter, state) <==> globalFilter == All
  {
  }

  /** Toggling twice restores the filter when `s` was wholly set or wholly clear in it. */
  lemma ToggleTwice(f: StateFlags, s: StateFlags)
    requires s <= f || s * f == {}
    ensures Toggled(Toggled(f, s), s) == f
  {
    if s == {} {
      assert f - s == f;
    } else if s <= f {
      assert !(s <= f - s);
      assert (f - s) + s == f;
    } else {
      assert s * f == {};
      assert s <= f + s;
      forall x | x in f
        ensures x !in s
      {
        assert x !in s * f;
      }
      assert (f + s) - s == f;
    }
  }

  /** A single-bit flag, as the window's menu passes, is always wholly set or clear. */
  lemma ToggleSingleFlagTwice(f: StateFlags, b: Bit)
    ensures Toggled(Toggled(f, {b}), {b}) == f
  {
    ToggleTwice(f, {b});
  }

  /** A flag with some but not all of its bits set does not come back after two toggles. */
  lemma ToggleTwicePartialFlag()
    ensures Toggled(Toggled(Loaded, SceneInstance), SceneInstance) == NotGameObject
  {
  }
}
