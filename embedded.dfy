/** The embedded resource provider: every resource file of a project
    becomes a public resource description named by its path relative to the
    project directory, always with `/` between the path's parts. */
module EmbeddedResources {
  import opened Strings

  /** The project directory with a `/` appended when it is non-empty and
      does not already end with one. */
  function NormalizeRoot(root: string): string {
    if |root| > 0 && root[|root| - 1] != '/' then root + "/" else root
  }

  /** A normalised root keeps the directory as a prefix and gains at most one
      character; it is empty only for an empty directory and otherwise ends
      with `/`; it is the directory itself exactly when that is empty or
      already ends with `/`; normalising again changes nothing. */
  lemma NormalizeRootProperties(root: string)
    ensures var r := NormalizeRoot(root);
            && root <= r
            && |r| <= |root| + 1
            && (|r| == 0 <==> |root| == 0)
            && (|r| > 0 ==> r[|r| - 1] == '/')
            && (r == root <==> |root| == 0 || root[|root| - 1] == '/')
            && NormalizeRoot(r) == r
  {
  }

  /** The relative path without its leading `/`, if it has one. */
  function StripLeadingSlash(path: string): (r: string)
    ensures |path| > 0 && path[0] == '/' ==> "/" + r == path
    ensures !(|path| > 0 && path[0] == '/') ==> r == path
  {
    if |path| > 0 && path[0] == '/' then path[1..] else path
  }

  /** `GetRelativePath(root, resourceFile)`: `makeRelative` stands for
      `new Uri(root).MakeRelativeUri(new Uri(resourceFile)).OriginalString`,
      `unescape` for `Uri.UnescapeDataString`. */
  function GetRelativePath(root: string, resourceFile: string,
                           makeRelative: (string, string) -> string, unescape: string -> string): string
  {
    unescape(StripLeadingSlash(makeRelative(root, resourceFile)))
  }

  /** A `ResourceDescription`: its name, the file its stream opens, and
      whether it is public. */
  datatype ResourceDescription = ResourceDescription(name: string, sourceFile: string, isPublic: bool)

  /** The resource name of one file: its relative path with every
      `separator` (the platform's `Path.DirectorySeparatorChar`) turned into `/`. */
  function ResourceName(root: string, resourceFile: string, separator: char,
                        makeRelative: (string, string) -> string, unescape: string -> string): string
  {
    ReplaceChar(GetRelativePath(root, resourceFile, makeRelative, unescape), separator, '/')
  }

  /** `GetResources(project)`. */
  function GetResources(projectDirectory: string, resourceFiles: seq<string>, separator: char,
                        makeRelative: (string, string) -> string, unescape: string -> string)
    : (r: seq<ResourceDescription>)
    ensures |r| == |resourceFiles|
    ensures forall i :: 0 <= i < |resourceFiles| ==>
              r[i] == ResourceDescription(
                        ResourceName(NormalizeRoot(projectDirectory), resourceFiles[i], separator, makeRelative, unescape),
                        resourceFiles[i], true)
    decreases |resourceFiles|
  {
    if resourceFiles == [] then []
    else
      var root := NormalizeRoot(projectDirectory);
      [ResourceDescription(ResourceName(root, resourceFiles[0], separator, makeRelative, unescape), resourceFiles[0], true)]
      + GetResources(projectDirectory, resourceFiles[1..], separator, makeRelative, unescape)
  }

  /** Every description is public and reads its own file, in the order of
      the resource files; no name holds the platform separator when that is
      not `/`, and only the separator is changed: the name is the relative
      path character by character otherwise. */
  lemma GetResourcesNames(projectDirectory: string, resourceFiles: seq<string>, separator: char,
                          makeRelative: (string, string) -> string, unescape: string -> string, i: nat)
    requires i < |resourceFiles|
    ensures var d := GetResources(projectDirectory, resourceFiles, separator, makeRelative, unescape)[i];
            var rel := GetRelativePath(NormalizeRoot(projectDirectory), resourceFiles[i], makeRelative, unescape);
            && d.sourceFile == resourceFiles[i] && d.isPublic
            && |d.name| == |rel|
            && (forall k :: 0 <= k < |rel| && rel[k] != separator ==> d.name[k] == rel[k])
            && (forall k :: 0 <= k < |rel| && rel[k] == separator ==> d.name[k] == '/')
            && (separator != '/' ==> separator !in d.name)
  {
    var rel := GetRelativePath(NormalizeRoot(projectDirectory), resourceFiles[i], makeRelative, unescape);
    if separator != '/' {
      ReplaceCharRemovesAll(rel, separator, '/');
    }
  }
}
