/**
 * Entry: the tracker's durable reference to an editor object.
 *
 * An entry keeps the object's GlobalObjectId, a cached live reference that is
 * restored from the identifier on demand, metadata cached at capture time,
 * a kind tag, a favourite flag and a play-mode flag. Restoring the reference
 * and comparing entries change the cache, so they are methods; each is proved
 * to return what a pure function of the entry's state before the call
 * computes (`RestoredRef`, `Same`, `InstanceState`).
 */
module Entries {
  import opened Wrappers
  import opened UnityHost

  /** The source's `RefType` (`GameObject`, `Asset`, `None`). */
  datatype RefType = GameObjectRef | AssetRef | NoneRef

  /** A bit position of the 32-bit enum `GameObjectState`. */
  newtype Bit = b: int | 0 <= b < 32

  /**
   * A value of the `[Flags]` enum `GameObjectState`, as the set of its set
   * bits: `&` is intersection, `|` union and `& ~s` difference.
   */
  type StateFlags = set<Bit>

  const NotGameObject: StateFlags := {}
  const Loaded: StateFlags := {0}
  const Unloaded: StateFlags := {1}
  const Destroyed: StateFlags := {2}
  const Playing: StateFlags := {3}
  const SceneInstance: StateFlags := Loaded + Unloaded
  /** `~0`: every one of the 32 bits. */
  const All: StateFlags := set b: int | 0 <= b < 32 :: b as Bit

  /** `Enum.HasFlag`: every bit of `s` is set in `flags`. */
  predicate HasFlag(flags: StateFlags, s: StateFlags)
  {
    s <= flags
  }

  /** The kind `CacheRefInfo` assigns: scene GameObjects and assets are recognised, anything else keeps `kind`. */
  function KindAfterCache(o: UObject, kind: RefType): RefType
  {
    if o.gid.identifierType == 2 && o.isGameObject then GameObjectRef
    else if o.gid.identifierType == 1 || o.gid.identifierType == 3 then AssetRef
    else kind
  }

  function SceneName(s: SceneRef): string
  {
    if s.SceneRef? then s.name else ""
  }

  function ScenePath(s: SceneRef): string
  {
    if s.SceneRef? then s.path else ""
  }

  /**
   * What an entry caches about its object: every field except the favourite
   * flag and its events. Restoring the reference may refresh it; changing
   * the favourite flag never does.
   */
  datatype Cache = Cache(unityId: GlobalId, ref: Option<UObject>, name: string, kind: RefType,
                         scene: SceneRef, sceneName: string, scenePath: string, isPlayModeObject: bool)

  /** The cache after `CacheRefInfo` on the live object `o`, from the cache `c` before. */
  function CachedFrom(c: Cache, o: UObject, h: Host): Cache
  {
    var c1 := c.(unityId := o.gid, ref := Some(o), name := o.name, kind := KindAfterCache(o, c.kind));
    if o.gid.identifierType == 2 && o.isGameObject then
      c1.(isPlayModeObject := h.isPlaying, scene := o.scene, sceneName := SceneName(o.scene), scenePath := ScenePath(o.scene))
    else c1
  }

  /**
   * The cache after `TryRestoreAndCacheObject`: a live reference keeps
   * everything; otherwise the lookup (made only for an identified entry
   * outside play mode) is stored even when it fails, and a live result is
   * cached with `CacheRefInfo`.
   */
  function RestoreCache(c: Cache, h: Host): (r: Cache)
    ensures !IsNull(h, c.ref) ==> r == c
    ensures IsNull(h, r.ref) ==> r == c.(ref := r.ref)
    ensures IsNull(h, c.ref) && !IsNull(h, r.ref) ==> r.ref.value.gid == r.unityId && r.ref == Resolve(h, c.unityId)
  {
    if !IsNull(h, c.ref) then c
    else
      var found := if c.unityId.printed != "" && !h.isPlaying then Resolve(h, c.unityId) else None;
      if IsNull(h, found) then c.(ref := found) else CachedFrom(c, found.value, h)
  }

  /** Restoring twice is restoring once: the second restore finds the reference the first one stored. */
  lemma RestoreIdempotent(c: Cache, h: Host)
    ensures RestoreCache(RestoreCache(c, h), h) == RestoreCache(c, h)
  {
  }

  class Entry {
    var unityId: GlobalId
    var cachedRef: Option<UObject>
    var cachedName: string
    var cachedRefType: RefType
    var cachedScene: SceneRef
    var sceneName: string
    var scenePath: string
    var isFavorite: bool
    var isPlayModeObject: bool
    /** The values passed to `onFavoriteChanged`, oldest first. */
    var favoriteChanges: seq<bool>

    /** The cached part of the entry's state. */
    function CacheOf(): Cache
      reads this`unityId, this`cachedRef, this`cachedName, this`cachedRefType
      reads this`cachedScene, this`sceneName, this`scenePath, this`isPlayModeObject
    {
      Cache(unityId, cachedRef, cachedName, cachedRefType, cachedScene, sceneName, scenePath, isPlayModeObject)
    }

    /** No live reference is cached but there is an identifier to restore one from. */
    predicate NotReferencing(h: Host)
      reads this`cachedRef, this`unityId
      ensures NotReferencing(h) ==> IsNull(h, cachedRef) && unityId != NullId
    {
      IsNull(h, cachedRef) && unityId.printed != ""
    }

    predicate IsGameObject()
      reads this
      ensures IsGameObject() ==> !IsAsset()
    {
      cachedRefType == GameObjectRef
    }

    predicate IsAsset()
      reads this
      ensures IsAsset() ==> cachedRefType != GameObjectRef
    {
      cachedRefType == AssetRef
    }

    /** An asset entry whose asset can no longer be referenced. */
    predicate IsDeleted(h: Host)
      reads this
      ensures IsDeleted(h) ==> !IsGameObject() && unityId != NullId
    {
      IsAsset() && NotReferencing(h)
    }

    /** The reference `Ref` yields once `TryRestoreAndCacheObject` has run. */
    function RestoredRef(h: Host): Option<UObject>
      reads this`cachedRef, this`unityId
    {
      if !IsNull(h, cachedRef) then cachedRef
      else if NotReferencing(h) && !h.isPlaying then Resolve(h, unityId)
      else None
    }

    /** The identifier once `TryRestoreAndCacheObject` has run: a successful restore re-reads it from the object. */
    function RestoredId(h: Host): GlobalId
      reads this`cachedRef, this`unityId
    {
      if IsNull(h, cachedRef) && !IsNull(h, RestoredRef(h)) then RestoredRef(h).value.gid else unityId
    }

    /** The whole cache once `TryRestoreAndCacheObject` has run; its reference and identifier are `RestoredRef` and `RestoredId`. */
    function RestoredCache(h: Host): (c: Cache)
      reads this
      ensures c.ref == RestoredRef(h) && c.unityId == RestoredId(h)
    {
      RestoreCache(CacheOf(), h)
    }

    /** The state `GameObjectInstanceState` reports, computed from the state before its restore. */
    function InstanceState(h: Host): StateFlags
      reads this
    {
      if !IsGameObject() then NotGameObject
      else
        var r := RestoredRef(h);
        if IsNull(h, r) && unityId.printed != "" then
          if !SceneLoaded(h, cachedScene) then (if isPlayModeObject then Destroyed else Unloaded)
          else NotGameObject
        else if r.Some? && r.value.isGameObject && SceneLoaded(h, r.value.scene) then Loaded
        else NotGameObject
    }

    /** `new Entry(obj)`: a null (or destroyed) object gives an entry bound to nothing. */
    constructor (obj: Option<UObject>, h: Host)
      ensures IsNull(h, obj) ==>
        && unityId == NullId && cachedRef == None && cachedName == ""
        && cachedRefType == GameObjectRef && cachedScene == NoScene
        && sceneName == "" && scenePath == "" && !isPlayModeObject
        && !NotReferencing(h) && !IsDeleted(h) && InstanceState(h) == NotGameObject
      ensures !IsNull(h, obj) ==>
        CacheOf() == CachedFrom(Cache(NullId, None, "", GameObjectRef, NoScene, "", "", false), obj.value, h)
      ensures !IsNull(h, obj) ==>
        && unityId == obj.value.gid && cachedRef == obj && cachedName == obj.value.name
        && cachedRefType == KindAfterCache(obj.value, GameObjectRef)
        && isPlayModeObject == (cachedRefType == GameObjectRef && obj.value.gid.identifierType == 2 && obj.value.isGameObject && h.isPlaying)
      ensures !IsNull(h, obj) && obj.value.gid.identifierType == 2 && obj.value.isGameObject ==>
        cachedScene == obj.value.scene && sceneName == SceneName(obj.value.scene) && scenePath == ScenePath(obj.value.scene)
      ensures !(!IsNull(h, obj) && obj.value.gid.identifierType == 2 && obj.value.isGameObject) ==>
        cachedScene == NoScene && sceneName == "" && scenePath == ""
      ensures !isFavorite && favoriteChanges == []
    {
      unityId := NullId;
      cachedRef := None;
      cachedName := "";
      cachedRefType := GameObjectRef;
      cachedScene := NoScene;
      sceneName := "";
      scenePath := "";
      isFavorite := false;
      isPlayModeObject := false;
      favoriteChanges := [];
      new;
      CacheRefInfo(obj, h);
    }

    /** The `IsFavorite` setter: store the flag and emit it on `onFavoriteChanged`. */
    method SetFavorite(value: bool)
      modifies this`isFavorite, this`favoriteChanges
      ensures isFavorite == value && favoriteChanges == old(favoriteChanges) + [value]
      ensures CacheOf() == old(CacheOf())
    {
      isFavorite := value;
      favoriteChanges := favoriteChanges + [value];
    }

    /** Snapshot identity and metadata of a live object; a null object changes nothing. */
    method CacheRefInfo(obj: Option<UObject>, h: Host)
      modifies this
      ensures IsNull(h, obj) ==> unchanged(this)
      ensures !IsNull(h, obj) ==>
        && unityId == obj.value.gid && cachedRef == obj && cachedName == obj.value.name
        && cachedRefType == KindAfterCache(obj.value, old(cachedRefType))
      ensures !IsNull(h, obj) && obj.value.gid.identifierType == 2 && obj.value.isGameObject ==>
        && isPlayModeObject == h.isPlaying && cachedScene == obj.value.scene
        && sceneName == SceneName(obj.value.scene) && scenePath == ScenePath(obj.value.scene)
      ensures !(!IsNull(h, obj) && obj.value.gid.identifierType == 2 && obj.value.isGameObject) ==>
        && isPlayModeObject == old(isPlayModeObject) && cachedScene == old(cachedScene)
        && sceneName == old(sceneName) && scenePath == old(scenePath)
      ensures isFavorite == old(isFavorite) && favoriteChanges == old(favoriteChanges)
    {
      if IsNull(h, obj) {
        return;
      }
      var o := obj.value;
      unityId := o.gid;
      cachedRef := obj;
      cachedName := o.name;
      if o.gid.identifierType == 2 && o.isGameObject {
        cachedRefType := GameObjectRef;
        isPlayModeObject := h.isPlaying;
        cachedScene := o.scene;
        sceneName := SceneName(o.scene);
        scenePath := ScenePath(o.scene);
      } else if o.gid.identifierType == 1 || o.gid.identifierType == 3 {
        cachedRefType := AssetRef;
      }
    }

    /**
     * Look the identifier up, unless a reference is cached or play mode is
     * on; `ok` is Unity's `obj != null`.
     */
    method TryRestoreFromId(h: Host) returns (ok: bool, obj: Option<UObject>)
      ensures obj == (if NotReferencing(h) && !h.isPlaying then Resolve(h, unityId) else None)
      ensures ok <==> !IsNull(h, obj)
      ensures ok ==> NotReferencing(h) && !h.isPlaying && unityId in h.registry
      ensures h.isPlaying ==> !ok && obj == None
    {
      if NotReferencing(h) {
        if h.isPlaying {
          return false, None;
        }
        obj := Resolve(h, unityId);
        return !IsNull(h, obj), obj;
      }
      return false, None;
    }

    /**
     * Restore a missing live reference from the identifier and refresh the
     * cache; the out-parameter of the lookup is written to the cache even
     * when the lookup fails.
     */
    method TryRestoreAndCacheObject(h: Host)
      modifies this
      ensures CacheOf() == old(RestoredCache(h))
      ensures cachedRef == old(RestoredRef(h)) && unityId == old(RestoredId(h))
      ensures old(!IsNull(h, cachedRef)) ==> unchanged(this)
      ensures old(IsNull(h, cachedRef)) && h.isPlaying ==> cachedRef == None
      ensures isFavorite == old(isFavorite) && favoriteChanges == old(favoriteChanges)
    {
      if !IsNull(h, cachedRef) {
        return;
      }
      var ok, obj := TryRestoreFromId(h);
      cachedRef := obj;
      if ok {
        CacheRefInfo(cachedRef, h);
      }
    }

    /** The `Ref` getter. */
    method GetRef(h: Host) returns (r: Option<UObject>)
      modifies this
      ensures r == cachedRef && r == old(RestoredRef(h))
      ensures CacheOf() == old(RestoredCache(h))
      ensures isFavorite == old(isFavorite) && favoriteChanges == old(favoriteChanges)
    {
      TryRestoreAndCacheObject(h);
      r := cachedRef;
    }

    /**
     * `IEquatable<Entry>.Equals`: false for null, true for the same entry,
     * otherwise compare live references when both resolve and identifiers
     * when either does not. The other entry is restored only when this one
     * resolves.
     */
    method Equals(other: Entry?, h: Host) returns (r: bool)
      modifies this, other
      ensures r == (other != null && old(Same(this, other, h)))
      ensures Consistent(h) && other != null ==> r == Same(this, other, h)
      ensures other == null || other == this ==> unchanged(this)
      ensures other != null && other != this ==> CacheOf() == old(RestoredCache(h))
      ensures other != null && other != this && old(IsNull(h, RestoredRef(h))) ==> unchanged(other)
      ensures other != null && other != this && old(!IsNull(h, RestoredRef(h))) ==>
        other.CacheOf() == old(other.RestoredCache(h))
      ensures isFavorite == old(isFavorite) && favoriteChanges == old(favoriteChanges)
      ensures other != null ==> other.isFavorite == old(other.isFavorite) && other.favoriteChanges == old(other.favoriteChanges)
    {
      if other == null {
        return false;
      }
      if this == other {
        return true;
      }
      if Consistent(h) {
        RestoredIdIsId(this, h);
        RestoredIdIsId(other, h);
      }
      var a := GetRef(h);
      if IsNull(h, a) {
        return unityId == other.unityId;
      }
      var b := other.GetRef(h);
      if IsNull(h, b) {
        r := unityId == other.unityId;
      } else {
        r := a.value.handle == b.value.handle;
      }
    }

    /**
     * `GameObjectInstanceState`: `NotGameObject` for anything but a
     * GameObject entry; otherwise restore, then classify.
     */
    method GameObjectInstanceState(h: Host) returns (s: StateFlags)
      modifies this
      ensures s == old(InstanceState(h))
      ensures !old(IsGameObject()) ==> unchanged(this)
      ensures old(IsGameObject()) ==> CacheOf() == old(RestoredCache(h))
      ensures isFavorite == old(isFavorite) && favoriteChanges == old(favoriteChanges)
    {
      if !IsGameObject() {
        return NotGameObject;
      }
      TryRestoreAndCacheObject(h);
      if NotReferencing(h) {
        if !SceneLoaded(h, cachedScene) {
          return if isPlayModeObject then Destroyed else Unloaded;
        }
      } else if cachedRef.Some? && cachedRef.value.isGameObject {
        if SceneLoaded(h, cachedRef.value.scene) {
          return Loaded;
        }
      }
      return NotGameObject;
    }
  }

  /**
   * The answer `a.Equals(b)` gives, from the state of both entries before the
   * call. Every entry equals itself, and two entries holding live references
   * are equal exactly when they reference the same object.
   */
  predicate Same(a: Entry, b: Entry, h: Host)
    reads a`cachedRef, a`unityId, b`cachedRef, b`unityId
    ensures a == b ==> Same(a, b, h)
    ensures !IsNull(h, a.cachedRef) && !IsNull(h, b.cachedRef) ==>
      (Same(a, b, h) <==> a == b || a.cachedRef.value.handle == b.cachedRef.value.handle)
  {
    a == b ||
    var ra := a.RestoredRef(h);
    if IsNull(h, ra) then a.unityId == b.unityId
    else
      var rb := b.RestoredRef(h);
      if IsNull(h, rb) then a.RestoredId(h) == b.unityId
      else ra.value.handle == rb.value.handle
  }

  /** With a consistent host, restoring never changes an identifier. */
  lemma RestoredIdIsId(e: Entry, h: Host)
    requires Consistent(h)
    ensures e.RestoredId(h) == e.unityId
  {
  }

  /** `List.FindIndex(x => x.Equals(e))`: the first position holding an entry equal to `e`, or -1. */
  function IndexOfSame(s: seq<Entry>, e: Entry, h: Host): (i: int)
    reads s`cachedRef, s`unityId, e`cachedRef, e`unityId
    ensures -1 <= i < |s|
    ensures 0 <= i ==> Same(s[i], e, h)
    ensures forall k :: 0 <= k < |s| && (i < 0 || k < i) ==> !Same(s[k], e, h)
    decreases |s|
  {
    if s == [] then -1
    else if Same(s[0], e, h) then 0
    else
      var j := IndexOfSame(s[1..], e, h);
      if j < 0 then -1 else j + 1
  }

  /**
   * The classification: a non-GameObject entry is `NotGameObject`; the
   * answer is always one of the four single states; `Destroyed` and
   * `Unloaded` are given only to an identified entry that cannot be restored
   * and whose scene is not loaded, told apart by the play-mode flag; `Loaded`
   * exactly to a live GameObject in a loaded scene.
   */
  lemma InstanceStateCases(e: Entry, h: Host)
    ensures !e.IsGameObject() ==> e.InstanceState(h) == NotGameObject
    ensures e.InstanceState(h) in {NotGameObject, Loaded, Unloaded, Destroyed}
    ensures e.InstanceState(h) in {Unloaded, Destroyed} <==>
      e.IsGameObject() && IsNull(h, e.RestoredRef(h)) && e.unityId.printed != "" && !SceneLoaded(h, e.cachedScene)
    ensures e.InstanceState(h) == Destroyed <==> e.InstanceState(h) in {Unloaded, Destroyed} && e.isPlayModeObject
    ensures e.InstanceState(h) == Loaded <==>
      e.IsGameObject() && !IsNull(h, e.RestoredRef(h)) && e.RestoredRef(h).value.isGameObject
      && SceneLoaded(h, e.RestoredRef(h).value.scene)
  {
  }

  /** A deleted asset is never a GameObject state, so a non-zero window filter always shows it. */
  lemma DeletedIsNotGameObject(e: Entry, h: Host)
    requires e.IsDeleted(h)
    ensures e.InstanceState(h) == NotGameObject
  {
  }

  /**
   * With a consistent host, equality does not depend on which side is the
   * receiver: comparing by identifier and by live reference are both symmetric.
   */
  lemma SameSymmetric(a: Entry, b: Entry, h: Host)
    requires Consistent(h)
    ensures Same(a, b, h) <==> Same(b, a, h)
  {
    RestoredIdIsId(a, h);
    RestoredIdIsId(b, h);
  }

  /** At most one element of `s` compares equal to `e`. */
  predicate AtMostOneSame(s: seq<Entry>, e: Entry, h: Host)
    reads s`cachedRef, s`unityId, e`cachedRef, e`unityId
  {
    forall i, j :: 0 <= i < j < |s| && Same(s[i], e, h) ==> !Same(s[j], e, h)
  }
}
