/** The `.resx` resource provider: which project files are resource files,
    and the descriptor produced for each of them. */
module ResxResources {
  import opened Seqs
  import opened Strings

  /** `Path.DirectorySeparatorChar`, `Path.AltDirectorySeparatorChar` and
      `Path.VolumeSeparatorChar` on Windows. */
  predicate IsSeparator(c: char) {
    c == '\\' || c == '/' || c == ':'
  }

  /** The scan of `Path.GetExtension` from position `i - 1` down to 0. */
  function ExtensionBefore(path: string, i: nat): string
    requires i <= |path|
  {
    if i == 0 then ""
    else if path[i - 1] == '.' then (if i - 1 != |path| - 1 then path[i - 1..] else "")
    else if IsSeparator(path[i - 1]) then ""
    else ExtensionBefore(path, i - 1)
  }

  /** `Path.GetExtension(path)`: from the last `.` of the file name to the
      end, or empty when the name has no `.` or ends with one. */
  function GetExtension(path: string): string {
    ExtensionBefore(path, |path|)
  }

  /** `path[k]` is the `.` that starts the extension: it is not the last
      character and no `.` or separator follows it. */
  ghost predicate ExtensionStartsAt(path: string, k: int) {
    && 0 <= k < |path| - 1
    && path[k] == '.'
    && forall j :: k < j < |path| ==> path[j] != '.' && !IsSeparator(path[j])
  }

  lemma {:induction false} ExtensionBeforeSpec(path: string, i: nat)
    requires i <= |path|
    requires forall j :: i <= j < |path| ==> path[j] != '.' && !IsSeparator(path[j])
    ensures forall k :: k < i && ExtensionStartsAt(path, k) ==> ExtensionBefore(path, i) == path[k..]
    ensures (forall k :: k < i ==> !ExtensionStartsAt(path, k)) ==> ExtensionBefore(path, i) == ""
  {
    if i > 0 {
      var c := path[i - 1];
      if c == '.' || IsSeparator(c) {
        // no earlier position can start the extension: `c` follows it
        forall k | k < i - 1 ensures !ExtensionStartsAt(path, k) {
          assert k < i - 1 < |path|;
        }
        if c == '.' && i - 1 != |path| - 1 {
          assert ExtensionStartsAt(path, i - 1);
        }
      } else {
        ExtensionBeforeSpec(path, i - 1);
      }
    }
  }

  /** The extension is the suffix from the `.` that starts it, and empty when
      there is none. */
  lemma GetExtensionSpec(path: string)
    ensures forall k :: ExtensionStartsAt(path, k) ==> GetExtension(path) == path[k..]
    ensures (forall k :: !ExtensionStartsAt(path, k)) ==> GetExtension(path) == ""
  {
    ExtensionBeforeSpec(path, |path|);
  }

  /** `IsResxResourceFile(fileName)`. */
  predicate IsResxResourceFile(fileName: string) {
    var ext := GetExtension(fileName);
    EqualsIgnoreCase(ext, ".resx") || EqualsIgnoreCase(ext, ".restext") || EqualsIgnoreCase(ext, ".resources")
  }

  /** `s` ends with `suffix`, ignoring case. */
  predicate EndsWithIgnoreCase(s: string, suffix: string) {
    |suffix| <= |s| && EqualsIgnoreCase(s[|s| - |suffix|..], suffix)
  }

  /** For an extension made of a `.` and letters, comparing the file's
      extension with it is the same as asking whether the file name ends with it. */
  lemma ExtensionIgnoringCase(fileName: string, e: string)
    requires |e| >= 2 && e[0] == '.'
    requires forall j :: 1 <= j < |e| ==> 'a' <= e[j] <= 'z'
    ensures EqualsIgnoreCase(GetExtension(fileName), e) <==> EndsWithIgnoreCase(fileName, e)
  {
    GetExtensionSpec(fileName);
    var ext := GetExtension(fileName);
    EqualsIgnoreCaseCharwise(ext, e);
    if EndsWithIgnoreCase(fileName, e) {
      var k := |fileName| - |e|;
      var tail := fileName[k..];
      EqualsIgnoreCaseCharwise(tail, e);
      assert ToUpperAscii(tail[0]) == ToUpperAscii(e[0]);
      assert ExtensionStartsAt(fileName, k) by {
        forall j | k < j < |fileName| ensures fileName[j] != '.' && !IsSeparator(fileName[j]) {
          assert fileName[j] == tail[j - k];
          assert ToUpperAscii(tail[j - k]) == ToUpperAscii(e[j - k]);
        }
      }
    }
    if EqualsIgnoreCase(ext, e) {
      assert |ext| == |e| && ext != "";
      var k :| ExtensionStartsAt(fileName, k);
      assert ext == fileName[k..];
    }
  }

  /** A file is a resource file exactly when its name ends with `.resx`,
      `.restext` or `.resources`, in any case; in particular a file whose
      extension is missing or empty never is. */
  lemma IsResxResourceFileIffSuffix(fileName: string)
    ensures IsResxResourceFile(fileName) <==>
              EndsWithIgnoreCase(fileName, ".resx")
              || EndsWithIgnoreCase(fileName, ".restext")
              || EndsWithIgnoreCase(fileName, ".resources")
    ensures GetExtension(fileName) == "" ==> !IsResxResourceFile(fileName)
  {
    ExtensionIgnoringCase(fileName, ".resx");
    ExtensionIgnoringCase(fileName, ".restext");
    ExtensionIgnoringCase(fileName, ".resources");
  }

  /** A `ResourceDescriptor`: its manifest name and the file its stream reads. */
  datatype ResourceDescriptor = ResourceDescriptor(name: string, sourceFile: string)

  /** The `Select` of `GetResources`; `manifestName` stands for
      `CreateManifestName(GetResourceName(root, path), project.Name)`. */
  function Describe(files: seq<string>, manifestName: string -> string): (r: seq<ResourceDescriptor>)
    ensures |r| == |files|
    ensures forall i :: 0 <= i < |files| ==> r[i] == ResourceDescriptor(manifestName(files[i]), files[i])
  {
    if files == [] then [] else [ResourceDescriptor(manifestName(files[0]), files[0])] + Describe(files[1..], manifestName)
  }

  /** `GetResources(project)` over the project's resource files. */
  function GetResources(resourceFiles: seq<string>, manifestName: string -> string): seq<ResourceDescriptor> {
    Describe(Filter(resourceFiles, IsResxResourceFile), manifestName)
  }

  function SourceFiles(r: seq<ResourceDescriptor>): (files: seq<string>)
    ensures |files| == |r|
    ensures forall i :: 0 <= i < |r| ==> files[i] == r[i].sourceFile
  {
    if r == [] then [] else [r[0].sourceFile] + SourceFiles(r[1..])
  }

  /** `GetResources` yields one descriptor per resource file, in the order of
      the project's files: every `.resx`-like file as often as it is listed,
      every other file never, each named by its manifest name. */
  lemma GetResourcesOnePerResourceFile(resourceFiles: seq<string>, manifestName: string -> string, f: string)
    ensures SourceFiles(GetResources(resourceFiles, manifestName)) == Filter(resourceFiles, IsResxResourceFile)
    ensures Count(SourceFiles(GetResources(resourceFiles, manifestName)), f)
         == if IsResxResourceFile(f) then Count(resourceFiles, f) else 0
    ensures forall i :: 0 <= i < |GetResources(resourceFiles, manifestName)| ==>
              GetResources(resourceFiles, manifestName)[i].name
              == manifestName(GetResources(resourceFiles, manifestName)[i].sourceFile)
  {
    SourceFilesOfDescribe(Filter(resourceFiles, IsResxResourceFile), manifestName);
    FilterCount(resourceFiles, IsResxResourceFile, f);
  }

  /** Describing files and reading back their source files gives the files. */
  lemma SourceFilesOfDescribe(files: seq<string>, manifestName: string -> string)
    ensures SourceFiles(Describe(files, manifestName)) == files
  {
    var r := SourceFiles(Describe(files, manifestName));
    assert |r| == |files|;
    forall i | 0 <= i < |files| ensures r[i] == files[i] {
    }
  }
}
