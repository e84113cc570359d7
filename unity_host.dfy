/**
 * The slice of the Unity editor that the selection tracker consults.
 *
 * Unity objects are opaque: the tracker only sees an instance handle (what
 * `UnityEngine.Object.Equals` compares), the object's GlobalObjectId, its
 * name, whether it is a GameObject and the scene it lives in. Everything the
 * editor decides at run time (is play mode on, is an object still alive, is a
 * scene loaded, what an identifier resolves to) is a `Host` value passed to
 * the operations that ask.
 */
module UnityHost {
  import opened Wrappers

  /**
   * A GlobalObjectId. `identifierType` is Unity's kind code (1 imported
   * asset, 2 scene object, 3 source asset, 0 null); `printed` is what
   * `ToString()` gives, which the tracker tests for emptiness.
   */
  datatype GlobalId = GlobalId(identifierType: int, printed: string)

  /** The identifier of an entry that was never bound to an object. */
  const NullId: GlobalId := GlobalId(0, "")

  /** A scene handle as cached by an entry; `NoScene` is the default `Scene` struct. */
  datatype SceneRef = NoScene | SceneRef(handle: nat, name: string, path: string)

  /** An object of the editor, as far as the tracker looks into it. */
  datatype UObject = UObject(handle: nat, gid: GlobalId, name: string, isGameObject: bool, scene: SceneRef)

  /**
   * The editor's answers at one moment: `Application.isPlaying`, the handles
   * of objects not yet destroyed, the handles of loaded scenes, and what
   * `GlobalObjectIdentifierToObjectSlow` returns for each identifier it knows.
   */
  datatype Host = Host(isPlaying: bool, alive: set<nat>, loadedScenes: set<nat>, registry: map<GlobalId, UObject>)

  /** Unity's overloaded `== null`: true for a missing reference and for a destroyed object. */
  predicate IsNull(h: Host, r: Option<UObject>)
  {
    r.None? || r.value.handle !in h.alive
  }

  /** `GlobalObjectId.GlobalObjectIdentifierToObjectSlow`: never fails, may give nothing. */
  function Resolve(h: Host, id: GlobalId): (r: Option<UObject>)
    ensures r.Some? <==> id in h.registry
  {
    if id in h.registry then Some(h.registry[id]) else None
  }

  /** `Scene.isLoaded`; the default scene is never loaded. */
  predicate SceneLoaded(h: Host, s: SceneRef)
  {
    s.SceneRef? && s.handle in h.loadedScenes
  }

  /** Resolving an identifier gives back an object carrying that identifier. */
  ghost predicate Consistent(h: Host)
  {
    forall id :: id in h.registry ==> h.registry[id].gid == id
  }
}
