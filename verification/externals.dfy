/** The collaborators the engine calls but does not implement: artifacts, the path
    mapper and the input-metadata provider. Each is reduced to the few observations
    the engine makes of it, as data or as uninterpreted functions. */
module Externals {
  import opened Wrappers

  /** An artifact as the engine sees it: its exec path and whether it is a tree
      artifact (a directory whose children are only known through metadata). */
  datatype Artifact = Artifact(execPath: string, isTree: bool)

  /** `PathMapper.NOOP`, or any other mapper, given by how it rewrites a path
      (`map`, `getMappedExecPathString`) and a free-form string (`mapHeuristically`). */
  datatype PathMapper =
    | Noop
    | Mapper(mapPath: string -> string, mapHeuristically: string -> string)
  {
    predicate IsNoop() {
      Noop?
    }

    /** `map(PathFragment)` rendered back to a string. */
    function Map(path: string): (r: string)
      ensures IsNoop() ==> r == path
    {
      match this
      case Noop => path
      case Mapper(f, _) => f(path)
    }

    function MapHeuristically(s: string): (r: string)
      ensures IsNoop() ==> r == s
    {
      match this
      case Noop => s
      case Mapper(_, h) => h(s)
    }

    /** `getMappedExecPathString(artifact)`. */
    function MappedExecPath(a: Artifact): (r: string)
      ensures IsNoop() ==> r == a.execPath
    {
      Map(a.execPath)
    }
  }

  /** `PathFragment.getSafePathString()`: the empty fragment prints as ".". */
  function SafePathString(path: string): (r: string)
    ensures |r| > 0
    ensures path != "" ==> r == path
  {
    if path == "" then "." else path
  }

  /** `InputMetadataProvider.getTreeMetadata(artifact)`, reduced to the children it
      reports; `None` is a null `TreeArtifactValue`. */
  datatype MetadataProvider = MetadataProvider(treeChildren: Artifact -> Option<seq<Artifact>>)
}
