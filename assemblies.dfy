/** The per-assembly descriptor of the crossgen manager. Its identity, paths
    and dependency names never change once it is built; its closure and its
    generation flag are assigned in place by the manager. */
module Assemblies {
  import opened Universe

  class AssemblyInformation {
    const Name: string
    const AssemblyPath: string
    const NativeImagePath: string
    const IsRuntimeAssembly: bool
    /** What `GetDependencies()` reads from the image's metadata. */
    const Dependencies: seq<string>
    /** Every assembly this one needs, itself excluded, in dependency order. */
    var Closure: seq<AssemblyInformation>
    /** Set once the native image of this assembly has been built. */
    var Generated: bool

    /** This descriptor is the one `new AssemblyInformation(path)` builds for
        record `r`: its identity, paths, dependency names and runtime flag,
        no closure yet and not generated. */
    ghost predicate Fresh(r: AssemblyRecord)
      reads this
    {
      && Name == r.name && AssemblyPath == r.assemblyPath
      && NativeImagePath == r.nativeImagePath && Dependencies == r.dependencies
      && IsRuntimeAssembly == r.isRuntimeAssembly
      && Closure == [] && !Generated
    }

    constructor (r: AssemblyRecord)
      ensures Name == r.name && AssemblyPath == r.assemblyPath
      ensures NativeImagePath == r.nativeImagePath && Dependencies == r.dependencies
      ensures IsRuntimeAssembly == r.isRuntimeAssembly
      ensures Closure == [] && !Generated
      ensures Fresh(r)
    {
      Name := r.name;
      AssemblyPath := r.assemblyPath;
      NativeImagePath := r.nativeImagePath;
      IsRuntimeAssembly := r.isRuntimeAssembly;
      Dependencies := r.dependencies;
      Closure := [];
      Generated := false;
    }
  }
}
