/**
 * EntryServicePersistence: the registry of the three services, keyed by
 * type name, and the entry points the editor calls.
 *
 * `ServiceDict` is rebuilt from the list on every use; the coordinator
 * looks services up by name and dispatches selections to History and
 * MostVisited, favourites to Favorites. `saves` counts `Save(true)` calls.
 */
module Coordinator {
  import opened Wrappers
  import opened UnityHost
  import opened Entries
  import opened Sequences
  import History
  import MostVisited
  import Favorites

  const HistoryName := "HistoryService"
  const MostVisitedName := "MostVisitedService"
  const FavoritesName := "FavoritesService"

  /** A registered service, by its concrete class. */
  datatype AnyService =
    | HistorySvc(history: History.HistoryService)
    | MostVisitedSvc(mostVisited: MostVisited.MostVisitedService)
    | FavoritesSvc(favorites: Favorites.FavoritesService)

  /** `service.GetType().Name`. */
  function TypeName(s: AnyService): string
  {
    match s
    case HistorySvc(_) => HistoryName
    case MostVisitedSvc(_) => MostVisitedName
    case FavoritesSvc(_) => FavoritesName
  }

  /** No two registered services share a type name, so `ToDictionary` does not throw. */
  predicate DistinctNames(list: seq<AnyService>)
  {
    forall i, j :: 0 <= i < j < |list| ==> TypeName(list[i]) != TypeName(list[j])
  }

  /** Some registered service has type name `name`. */
  predicate Registered(list: seq<AnyService>, name: string)
  {
    exists i :: 0 <= i < |list| && TypeName(list[i]) == name
  }

  /** The services that registering `s` appends to `list`: `s` itself unless its name is taken. */
  function Missing(list: seq<AnyService>, s: AnyService): seq<AnyService>
  {
    if Registered(list, TypeName(s)) then [] else [s]
  }

  /** Appending a service registers its name and keeps the names already registered. */
  lemma RegisteredSnoc(list: seq<AnyService>, s: AnyService, name: string)
    ensures Registered(list + [s], name) <==> Registered(list, name) || TypeName(s) == name
  {
    if Registered(list, name) {
      var i :| 0 <= i < |list| && TypeName(list[i]) == name;
      assert (list + [s])[i] == list[i];
    }
    if TypeName(s) == name {
      assert (list + [s])[|list|] == s;
    }
  }

  /** `ToDictionary(service => service.GetType().Name)` on a list with distinct names. */
  function ServiceDict(list: seq<AnyService>): (d: map<string, AnyService>)
    ensures forall name :: name in d <==> Registered(list, name)
    ensures forall name :: name in d ==> TypeName(d[name]) == name && d[name] in list
    decreases |list|
  {
    if list == [] then map[]
    else
      var last := list[|list| - 1];
      var d0 := ServiceDict(list[..|list| - 1]);
      assert forall name :: Registered(list, name) <==> Registered(list[..|list| - 1], name) || name == TypeName(last) by {
        forall name | Registered(list, name)
          ensures Registered(list[..|list| - 1], name) || name == TypeName(last)
        {
          var i :| 0 <= i < |list| && TypeName(list[i]) == name;
          if i < |list| - 1 {
            assert list[..|list| - 1][i] == list[i];
          }
        }
        forall name | Registered(list[..|list| - 1], name)
          ensures Registered(list, name)
        {
          var i :| 0 <= i < |list| - 1 && TypeName(list[..|list| - 1][i]) == name;
          assert list[i] == list[..|list| - 1][i];
        }
      }
      d0[TypeName(last) := last]
  }

  /** With distinct names, the dictionary maps each registered service's name to that service. */
  lemma {:induction false} ServiceDictFindsEach(list: seq<AnyService>, i: nat)
    requires DistinctNames(list) && i < |list|
    ensures ServiceDict(list)[TypeName(list[i])] == list[i]
    decreases |list|
  {
    var n := |list| - 1;
    if i < n {
      var pre := list[..n];
      assert DistinctNames(pre) by {
        forall a, b | 0 <= a < b < |pre|
          ensures TypeName(pre[a]) != TypeName(pre[b])
        {
          assert pre[a] == list[a] && pre[b] == list[b];
        }
      }
      assert pre[i] == list[i];
      ServiceDictFindsEach(pre, i);
      assert TypeName(list[i]) != TypeName(list[n]);
    }
  }

  class EntryServicePersistence {
    var entryServices: seq<AnyService>
    var saves: nat

    /** The names are distinct: every `ServiceDict` use succeeds. */
    predicate Valid()
      reads this`entryServices
    {
      DistinctNames(entryServices)
    }

    /** All three services are registered, as `OnEnable` leaves it. */
    predicate Ready()
      reads this`entryServices
    {
      Registered(entryServices, HistoryName)
      && Registered(entryServices, MostVisitedName)
      && Registered(entryServices, FavoritesName)
    }

    constructor ()
      ensures entryServices == [] && saves == 0 && Valid()
    {
      entryServices := [];
      saves := 0;
    }

    function HistoryOf(): History.HistoryService
      requires Ready()
      reads this`entryServices
    {
      var s := ServiceDict(entryServices)[HistoryName];
      s.history
    }

    function MostVisitedOf(): MostVisited.MostVisitedService
      requires Ready()
      reads this`entryServices
    {
      var s := ServiceDict(entryServices)[MostVisitedName];
      s.mostVisited
    }

    function FavoritesOf(): Favorites.FavoritesService
      requires Ready()
      reads this`entryServices
    {
      var s := ServiceDict(entryServices)[FavoritesName];
      s.favorites
    }

    /**
     * `TryGetService<T>`, for the type whose name is `name`: the registered
     * service of that name, if any.
     */
    method TryGetService(name: string) returns (found: bool, service: Option<AnyService>)
      requires Valid()
      ensures found <==> Registered(entryServices, name)
      ensures found ==> service.Some? && TypeName(service.value) == name && service.value in entryServices
      ensures !found ==> service == None
    {
      var d := ServiceDict(entryServices);
      if name in d {
        return true, Some(d[name]);
      }
      return false, None;
    }

    /** Register the singleton of each service type not yet registered, in History, MostVisited, Favorites order. */
    method OnEnable(historyInstance: History.HistoryService, mostVisitedInstance: MostVisited.MostVisitedService,
                    favoritesInstance: Favorites.FavoritesService)
      modifies this
      requires Valid()
      ensures Valid() && Ready()
      ensures entryServices == old(entryServices)
        + Missing(old(entryServices), HistorySvc(historyInstance))
        + Missing(old(entryServices), MostVisitedSvc(mostVisitedInstance))
        + Missing(old(entryServices), FavoritesSvc(favoritesInstance))
      ensures saves == old(saves)
    {
      ghost var before := entryServices;
      RegisterIfMissing(HistorySvc(historyInstance));
      ghost var afterHistory := entryServices;
      RegisterIfMissing(MostVisitedSvc(mostVisitedInstance));
      ghost var afterMostVisited := entryServices;
      RegisterIfMissing(FavoritesSvc(favoritesInstance));
      if afterHistory != before {
        RegisteredSnoc(before, HistorySvc(historyInstance), MostVisitedName);
        RegisteredSnoc(before, HistorySvc(historyInstance), FavoritesName);
      }
      if afterMostVisited != afterHistory {
        RegisteredSnoc(afterHistory, MostVisitedSvc(mostVisitedInstance), FavoritesName);
      }
    }

    /** One step of `OnEnable`: `TryGetService` for the type of `s`, and `Add(s)` when it is missing. */
    method RegisterIfMissing(s: AnyService)
      modifies this
      requires Valid()
      ensures Valid() && Registered(entryServices, TypeName(s)) && saves == old(saves)
      ensures entryServices == old(entryServices) + Missing(old(entryServices), s)
      ensures forall name :: Registered(old(entryServices), name) ==> Registered(entryServices, name)
    {
      var found, service := TryGetService(TypeName(s));
      if !found {
        Register(s);
      } else {
        assert entryServices == entryServices + [];
      }
    }

    /** `_entryServices.Add(service)` for a service whose name is not registered yet. */
    method Register(s: AnyService)
      modifies this
      requires Valid() && !Registered(entryServices, TypeName(s))
      ensures entryServices == old(entryServices) + [s] && saves == old(saves)
      ensures Valid() && Registered(entryServices, TypeName(s))
      ensures forall name :: Registered(old(entryServices), name) ==> Registered(entryServices, name)
    {
      entryServices := entryServices + [s];
      assert entryServices[|entryServices| - 1] == s;
      forall name | Registered(old(entryServices), name)
        ensures Registered(entryServices, name)
      {
        var i :| 0 <= i < |old(entryServices)| && TypeName(old(entryServices)[i]) == name;
        assert entryServices[i] == old(entryServices)[i];
      }
    }

    /**
     * A selection goes to History, then to MostVisited, then is saved; when
     * History throws (negative cursor) MostVisited is not reached and nothing
     * is saved. Favorites never sees raw selections.
     */
    method RecordSelection(selection: Entry?, h: Host) returns (thrown: bool)
      requires Valid() && Ready()
      modifies this, HistoryOf(), MostVisitedOf()
      ensures entryServices == old(entryServices)
      ensures thrown <==> selection != null && old(HistoryOf().currentSelectionIndex) < 0
      ensures HistoryOf().currentSelectionIndex == old(HistoryOf().currentSelectionIndex)
      ensures selection == null || thrown || old(History.AtCursor(HistoryOf().entryList, HistoryOf().currentSelectionIndex, selection, h)) ==>
        HistoryOf().entryList == old(HistoryOf().entryList) && HistoryOf().updates == old(HistoryOf().updates)
      ensures selection != null && !thrown && !old(History.AtCursor(HistoryOf().entryList, HistoryOf().currentSelectionIndex, selection, h)) ==>
        HistoryOf().entryList == old(History.Recorded(HistoryOf().entryList, selection, h))
        && HistoryOf().updates == old(HistoryOf().updates) + 1
      ensures thrown ==> unchanged(MostVisitedOf()) && saves == old(saves)
      ensures !thrown ==> saves == old(saves) + 1
      ensures !thrown && selection != null ==>
        MostVisitedOf().slidingWindow == MostVisited.Slide(old(MostVisitedOf().slidingWindow), selection)
        && MostVisitedOf().updates == old(MostVisitedOf().updates) + 1
      ensures selection == null ==>
        MostVisitedOf().slidingWindow == old(MostVisitedOf().slidingWindow) && MostVisitedOf().updates == old(MostVisitedOf().updates)
      ensures unchanged(FavoritesOf())
    {
      var history := HistoryOf();
      var mostVisited := MostVisitedOf();
      ghost var favorites := FavoritesOf();
      ServicesAreDistinctObjects();
      thrown := Dispatch(history, mostVisited, selection, h);
      assert unchanged(favorites);
      if !thrown {
        saves := saves + 1;
      }
      assert HistoryOf() == history && MostVisitedOf() == mostVisited && FavoritesOf() == favorites;
    }

    /** The three looked-up services are three different objects. */
    lemma ServicesAreDistinctObjects()
      requires Ready()
      ensures HistoryOf() as object != MostVisitedOf() as object
      ensures HistoryOf() as object != FavoritesOf() as object
      ensures MostVisitedOf() as object != FavoritesOf() as object
    {
    }

    /**
     * `RecordFavorites(entry, isFavorite)`: Favorites sets the entry's flag
     * and records it; History and MostVisited are untouched; then save.
     */
    method RecordFavorites(entry: Entry?, isFavorite: bool, windowOpen: bool, h: Host)
      requires Valid() && Ready()
      modifies this, FavoritesOf(), entry
      ensures entryServices == old(entryServices) && saves == old(saves) + 1
      ensures entry != null ==>
        && FavoritesOf().entries == Favorites.Pinned(old(FavoritesOf().entries), old(IndexOfSame(FavoritesOf().entries, entry, h)), entry, isFavorite, windowOpen)
        && FavoritesOf().updates == old(FavoritesOf().updates) + 1
        && entry.isFavorite == isFavorite && entry.favoriteChanges == old(entry.favoriteChanges) + [isFavorite]
        && entry.CacheOf() == old(entry.CacheOf())
      ensures entry == null ==> FavoritesOf().entries == old(FavoritesOf().entries) && FavoritesOf().updates == old(FavoritesOf().updates)
      ensures FavoritesOf().entries0 == old(FavoritesOf().entries0)
      ensures unchanged(HistoryOf()) && unchanged(MostVisitedOf())
    {
      var favorites := FavoritesOf();
      ghost var history, mostVisited := HistoryOf(), MostVisitedOf();
      ServicesAreDistinctObjects();
      favorites.RecordFavorite(entry, isFavorite, windowOpen, h);
      assert unchanged(history) && unchanged(mostVisited);
      saves := saves + 1;
      assert HistoryOf() == history && MostVisitedOf() == mostVisited && FavoritesOf() == favorites;
    }

    /**
     * `RemoveFromFavorites(entry)`: Favorites unpins the entry and clears its
     * flag; History and MostVisited are untouched; then save.
     */
    method RemoveFromFavorites(entry: Entry?)
      requires Valid() && Ready()
      modifies this, FavoritesOf(), entry
      ensures entryServices == old(entryServices) && saves == old(saves) + 1
      ensures entry != null ==>
        && FavoritesOf().entries == Filter(old(FavoritesOf().entries), x => x != entry)
        && FavoritesOf().updates == old(FavoritesOf().updates) + 1
        && !entry.isFavorite && entry.favoriteChanges == old(entry.favoriteChanges) + [false]
        && entry.CacheOf() == old(entry.CacheOf())
      ensures entry == null ==> FavoritesOf().entries == old(FavoritesOf().entries) && FavoritesOf().updates == old(FavoritesOf().updates)
      ensures FavoritesOf().entries0 == old(FavoritesOf().entries0)
      ensures unchanged(HistoryOf()) && unchanged(MostVisitedOf())
    {
      var favorites := FavoritesOf();
      ghost var history, mostVisited := HistoryOf(), MostVisitedOf();
      ServicesAreDistinctObjects();
      favorites.RemoveEntry(entry);
      assert unchanged(history) && unchanged(mostVisited);
      saves := saves + 1;
      assert HistoryOf() == history && MostVisitedOf() == mostVisited && FavoritesOf() == favorites;
    }

    /** `JumpToPreviousSelection`: exactly History's `PreviousSelection`; nothing is saved. */
    method JumpToPreviousSelection() returns (r: History.Jump)
      requires Valid() && Ready()
      modifies HistoryOf()
      ensures HistoryOf().entryList == old(HistoryOf().entryList) && HistoryOf().updates == old(HistoryOf().updates)
      ensures old(HistoryOf().entryList) == [] ==>
        r == History.NoSelection && HistoryOf().currentSelectionIndex == old(HistoryOf().currentSelectionIndex)
      ensures old(HistoryOf().entryList) != [] ==>
        && HistoryOf().currentSelectionIndex == History.StepBack(old(HistoryOf().currentSelectionIndex))
        && r == History.EntryAt(HistoryOf().entryList, HistoryOf().currentSelectionIndex)
      ensures unchanged(MostVisitedOf()) && unchanged(FavoritesOf())
    {
      var history := HistoryOf();
      ghost var mostVisited, favorites := MostVisitedOf(), FavoritesOf();
      ServicesAreDistinctObjects();
      r := history.PreviousSelection();
      assert unchanged(mostVisited) && unchanged(favorites);
      assert HistoryOf() == history && MostVisitedOf() == mostVisited && FavoritesOf() == favorites;
    }

    /** `JumpToNextSelection`: exactly History's `NextSelection`; nothing is saved. */
    method JumpToNextSelection() returns (r: History.Jump)
      requires Valid() && Ready()
      modifies HistoryOf()
      ensures HistoryOf().entryList == old(HistoryOf().entryList) && HistoryOf().updates == old(HistoryOf().updates)
      ensures old(HistoryOf().entryList) == [] ==>
        r == History.NoSelection && HistoryOf().currentSelectionIndex == old(HistoryOf().currentSelectionIndex)
      ensures old(HistoryOf().entryList) != [] ==>
        && HistoryOf().currentSelectionIndex == History.StepForward(old(HistoryOf().currentSelectionIndex), |HistoryOf().entryList|)
        && r == History.EntryAt(HistoryOf().entryList, HistoryOf().currentSelectionIndex)
      ensures unchanged(MostVisitedOf()) && unchanged(FavoritesOf())
    {
      var history := HistoryOf();
      ghost var mostVisited, favorites := MostVisitedOf(), FavoritesOf();
      ServicesAreDistinctObjects();
      r := history.NextSelection();
      assert unchanged(mostVisited) && unchanged(favorites);
      assert HistoryOf() == history && MostVisitedOf() == mostVisited && FavoritesOf() == favorites;
    }
  }

  /**
   * The two recorders `RecordSelection` calls, in order: History, then
   * MostVisited unless History threw.
   */
  method Dispatch(history: History.HistoryService, mostVisited: MostVisited.MostVisitedService, selection: Entry?, h: Host)
    returns (thrown: bool)
    modifies history, mostVisited
    ensures thrown <==> selection != null && old(history.currentSelectionIndex) < 0
    ensures history.currentSelectionIndex == old(history.currentSelectionIndex)
    ensures selection == null || thrown || old(History.AtCursor(history.entryList, history.currentSelectionIndex, selection, h)) ==>
      history.entryList == old(history.entryList) && history.updates == old(history.updates)
    ensures selection != null && !thrown && !old(History.AtCursor(history.entryList, history.currentSelectionIndex, selection, h)) ==>
      history.entryList == old(History.Recorded(history.entryList, selection, h)) && history.updates == old(history.updates) + 1
    ensures thrown ==> unchanged(mostVisited)
    ensures !thrown && selection != null ==>
      mostVisited.slidingWindow == MostVisited.Slide(old(mostVisited.slidingWindow), selection)
      && mostVisited.updates == old(mostVisited.updates) + 1
    ensures selection == null ==> mostVisited.slidingWindow == old(mostVisited.slidingWindow) && mostVisited.updates == old(mostVisited.updates)
  {
    thrown := history.RecordEntry(selection, h);
    if thrown {
      return;
    }
    mostVisited.RecordEntry(selection);
  }

  /** After `OnEnable` registers all three, each of the three names looks up a service of the matching class. */
  lemma ReadyServicesHaveTheirKind(list: seq<AnyService>)
    requires DistinctNames(list)
    requires Registered(list, HistoryName) && Registered(list, MostVisitedName) && Registered(list, FavoritesName)
    ensures ServiceDict(list)[HistoryName].HistorySvc?
    ensures ServiceDict(list)[MostVisitedName].MostVisitedSvc?
    ensures ServiceDict(list)[FavoritesName].FavoritesSvc?
  {
  }
}
