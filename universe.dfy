/** The universe builder of the crossgen manager (`CrossgenManager.BuildUniverse`):
    the valid images of the runtime directory, then those of every input
    directory, deduplicated by name keeping the first occurrence. Directory
    scans and the image-validity probe are inputs of the model. */
module Universe {
  import opened Seqs
  import opened Strings

  /** What `new AssemblyInformation(path)` reads from one image file: its
      path, the assembly name, the derived native-image path and the names of
      the assemblies it references. */
  datatype ImageFile = ImageFile(path: string, name: string, nativeImagePath: string, dependencies: seq<string>)

  /** One entry of the universe before it becomes an object. */
  datatype AssemblyRecord = AssemblyRecord(
    name: string,
    assemblyPath: string,
    nativeImagePath: string,
    dependencies: seq<string>,
    isRuntimeAssembly: bool)

  function Describe(f: ImageFile, isRuntimeAssembly: bool): AssemblyRecord {
    AssemblyRecord(f.name, f.path, f.nativeImagePath, f.dependencies, isRuntimeAssembly)
  }

  /** The `Select` that turns the scanned paths into descriptors. */
  function DescribeAll(files: seq<ImageFile>, isRuntimeAssembly: bool): (r: seq<AssemblyRecord>)
    ensures |r| == |files|
    ensures forall i :: 0 <= i < |files| ==> r[i] == Describe(files[i], isRuntimeAssembly)
  {
    if files == [] then [] else [Describe(files[0], isRuntimeAssembly)] + DescribeAll(files[1..], isRuntimeAssembly)
  }

  /** `paths.SelectMany(path => Directory.EnumerateFiles(path, "*.dll"))`: the
      files of each input directory, directories in the caller's order. */
  function Flatten(directories: seq<seq<ImageFile>>): seq<ImageFile> {
    if directories == [] then [] else directories[0] + Flatten(directories[1..])
  }

  /** The key under which `AssemblyInformation.NameComparer` identifies names:
      ordinal, ignoring case. */
  function NameKey(name: string): string {
    FoldCase(name)
  }

  /** The first element of `s` with `x`'s name is `x` itself. */
  ghost predicate FirstOfItsName(s: seq<AssemblyRecord>, x: AssemblyRecord) {
    exists i :: 0 <= i < |s| && s[i] == x && forall k :: 0 <= k < i ==> NameKey(s[k].name) != NameKey(x.name)
  }

  /** `Distinct(AssemblyInformation.NameComparer)` with the names already taken
      collected in `taken`: keeps the first record of every name not taken. */
  function DistinctByName(s: seq<AssemblyRecord>, taken: set<string>): (r: seq<AssemblyRecord>)
    ensures forall j :: 0 <= j < |r| ==> r[j] in s && NameKey(r[j].name) !in taken
    ensures forall i, j :: 0 <= i < j < |r| ==> NameKey(r[i].name) != NameKey(r[j].name)
  {
    if s == [] then []
    else
      var key := NameKey(s[0].name);
      if key in taken then DistinctByName(s[1..], taken)
      else [s[0]] + DistinctByName(s[1..], taken + {key})
  }

  /** Every name that is not taken keeps an entry. */
  lemma {:induction false} DistinctByNameCovers(s: seq<AssemblyRecord>, taken: set<string>, i: nat)
    requires i < |s| && NameKey(s[i].name) !in taken
    ensures exists j :: 0 <= j < |DistinctByName(s, taken)| && NameKey(DistinctByName(s, taken)[j].name) == NameKey(s[i].name)
  {
    var key := NameKey(s[0].name);
    var r := DistinctByName(s, taken);
    if i == 0 {
      assert r[0] == s[0];
    } else if key in taken {
      assert s[1..][i - 1] == s[i];
      DistinctByNameCovers(s[1..], taken, i - 1);
    } else if key == NameKey(s[i].name) {
      assert r[0] == s[0];
    } else {
      assert s[1..][i - 1] == s[i];
      DistinctByNameCovers(s[1..], taken + {key}, i - 1);
      var rest := DistinctByName(s[1..], taken + {key});
      var j :| 0 <= j < |rest| && NameKey(rest[j].name) == NameKey(s[i].name);
      assert r[j + 1] == rest[j];
    }
  }

  /** Every entry kept is the first record of its name. */
  lemma {:induction false} DistinctByNameKeepsFirst(s: seq<AssemblyRecord>, taken: set<string>, j: nat)
    requires j < |DistinctByName(s, taken)|
    ensures FirstOfItsName(s, DistinctByName(s, taken)[j])
  {
    var key := NameKey(s[0].name);
    var r := DistinctByName(s, taken);
    if key in taken {
      DistinctByNameKeepsFirst(s[1..], taken, j);
      FirstOfItsNameTail(s, r[j]);
    } else if j == 0 {
      assert s[0] == r[0];
    } else {
      var rest := DistinctByName(s[1..], taken + {key});
      assert r[j] == rest[j - 1];
      DistinctByNameKeepsFirst(s[1..], taken + {key}, j - 1);
      FirstOfItsNameTail(s, r[j]);
    }
  }

  /** A record that comes first among its name in the tail, and whose name
      differs from the head's, comes first among its name in the whole sequence. */
  lemma FirstOfItsNameTail(s: seq<AssemblyRecord>, x: AssemblyRecord)
    requires s != []
    requires FirstOfItsName(s[1..], x)
    requires NameKey(s[0].name) != NameKey(x.name)
    ensures FirstOfItsName(s, x)
  {
    var i :| 0 <= i < |s[1..]| && s[1..][i] == x && forall k :: 0 <= k < i ==> NameKey(s[1..][k].name) != NameKey(x.name);
    assert s[i + 1] == x;
    forall k | 0 <= k < i + 1 ensures NameKey(s[k].name) != NameKey(x.name) {
      if k > 0 { assert s[k] == s[1..][k - 1]; }
    }
  }

  /** `Where(AssemblyInformation.IsValidImage)` over scanned files. */
  function ValidImages(files: seq<ImageFile>, isValidImage: string -> bool): seq<ImageFile> {
    Filter(files, (f: ImageFile) => isValidImage(f.path))
  }

  /** Runtime assemblies concatenated before the input assemblies, both
      filtered by the image-validity probe. */
  function Candidates(runtimeFiles: seq<ImageFile>, inputDirectories: seq<seq<ImageFile>>,
                      isValidImage: string -> bool): seq<AssemblyRecord>
  {
    DescribeAll(ValidImages(runtimeFiles, isValidImage), true)
    + DescribeAll(ValidImages(Flatten(inputDirectories), isValidImage), false)
  }

  /** `BuildUniverse(runtimePath, paths)`: the records in dictionary insertion order. */
  function BuildUniverse(runtimeFiles: seq<ImageFile>, inputDirectories: seq<seq<ImageFile>>,
                         isValidImage: string -> bool): seq<AssemblyRecord>
  {
    DistinctByName(Candidates(runtimeFiles, inputDirectories, isValidImage), {})
  }

  /** No two entries share a name, ignoring case, so in particular the
      `ToDictionary(a => a.Name)` that follows never meets a duplicate key. */
  lemma UniverseNamesDistinct(runtimeFiles: seq<ImageFile>, inputDirectories: seq<seq<ImageFile>>,
                              isValidImage: string -> bool)
    ensures var u := BuildUniverse(runtimeFiles, inputDirectories, isValidImage);
            forall i, j :: 0 <= i < j < |u| ==> !EqualsIgnoreCase(u[i].name, u[j].name) && u[i].name != u[j].name
  {
  }

  /** A valid image has a candidate record bearing its name. */
  lemma CandidateOf(runtimeFiles: seq<ImageFile>, inputDirectories: seq<seq<ImageFile>>,
                    isValidImage: string -> bool, f: ImageFile) returns (i: nat)
    requires f in runtimeFiles + Flatten(inputDirectories) && isValidImage(f.path)
    ensures i < |Candidates(runtimeFiles, inputDirectories, isValidImage)|
    ensures Candidates(runtimeFiles, inputDirectories, isValidImage)[i].name == f.name
  {
    var valid := ValidImages(runtimeFiles, isValidImage);
    var validInputs := ValidImages(Flatten(inputDirectories), isValidImage);
    var s := Candidates(runtimeFiles, inputDirectories, isValidImage);
    if f in runtimeFiles {
      i := ValidIndexOf(runtimeFiles, isValidImage, f);
      EntryOfValid(runtimeFiles, isValidImage, true, DescribeAll(validInputs, false), i);
    } else {
      var i' := ValidIndexOf(Flatten(inputDirectories), isValidImage, f);
      EntryOfValid(Flatten(inputDirectories), isValidImage, false, [], i');
      i := |valid| + i';
      assert s[i] == DescribeAll(validInputs, false)[i'];
    }
  }

  /** A valid image of a listing keeps a position among the valid images. */
  lemma ValidIndexOf(files: seq<ImageFile>, isValidImage: string -> bool, f: ImageFile) returns (i: nat)
    requires f in files && isValidImage(f.path)
    ensures i < |ValidImages(files, isValidImage)| && ValidImages(files, isValidImage)[i] == f
  {
    var k :| 0 <= k < |files| && files[k] == f;
    assert ((g: ImageFile) => isValidImage(g.path))(files[k]);
    var valid := ValidImages(files, isValidImage);
    assert f in valid;
    i :| 0 <= i < |valid| && valid[i] == f;
  }

  /** Every valid image, from the runtime directory or an input directory,
      has an entry of its name in the universe. */
  lemma UniverseCoversValidImages(runtimeFiles: seq<ImageFile>, inputDirectories: seq<seq<ImageFile>>,
                                  isValidImage: string -> bool, f: ImageFile)
    requires f in runtimeFiles + Flatten(inputDirectories) && isValidImage(f.path)
    ensures var u := BuildUniverse(runtimeFiles, inputDirectories, isValidImage);
            exists j :: 0 <= j < |u| && EqualsIgnoreCase(u[j].name, f.name)
  {
    var i := CandidateOf(runtimeFiles, inputDirectories, isValidImage, f);
    var s := Candidates(runtimeFiles, inputDirectories, isValidImage);
    DistinctByNameCovers(s, {}, i);
    var u := DistinctByName(s, {});
    assert u == BuildUniverse(runtimeFiles, inputDirectories, isValidImage);
    var j :| 0 <= j < |u| && NameKey(u[j].name) == NameKey(s[i].name);
    assert NameKey(u[j].name) == NameKey(f.name);
    assert EqualsIgnoreCase(u[j].name, f.name);
  }

  /** Every universe entry is one of the valid images, described with the
      directory it came from. */
  lemma UniverseEntriesAreValidImages(runtimeFiles: seq<ImageFile>, inputDirectories: seq<seq<ImageFile>>,
                                      isValidImage: string -> bool, j: nat)
    requires j < |BuildUniverse(runtimeFiles, inputDirectories, isValidImage)|
    ensures var e := BuildUniverse(runtimeFiles, inputDirectories, isValidImage)[j];
            || (exists f :: f in runtimeFiles && isValidImage(f.path) && e == Describe(f, true))
            || (exists f :: f in Flatten(inputDirectories) && isValidImage(f.path) && e == Describe(f, false))
  {
    var valid := ValidImages(runtimeFiles, isValidImage);
    var validInputs := ValidImages(Flatten(inputDirectories), isValidImage);
    var s := Candidates(runtimeFiles, inputDirectories, isValidImage);
    var u := DistinctByName(s, {});
    var i :| 0 <= i < |s| && s[i] == u[j];
    if i < |valid| {
      var f := valid[i];
      EntryOfValid(runtimeFiles, isValidImage, true, DescribeAll(validInputs, false), i);
      assert f in runtimeFiles && isValidImage(f.path) && u[j] == Describe(f, true);
    } else {
      var f := validInputs[i - |valid|];
      assert s[i] == DescribeAll(validInputs, false)[i - |valid|];
      EntryOfValid(Flatten(inputDirectories), isValidImage, false, [], i - |valid|);
      assert f in Flatten(inputDirectories) && isValidImage(f.path) && u[j] == Describe(f, false);
    }
  }

  /** The `i`-th described valid image, followed by `rest`, is a valid image of `files`. */
  lemma EntryOfValid(files: seq<ImageFile>, isValidImage: string -> bool, isRuntimeAssembly: bool,
                     rest: seq<AssemblyRecord>, i: nat)
    requires i < |ValidImages(files, isValidImage)|
    ensures var f := ValidImages(files, isValidImage)[i];
            && f in files && isValidImage(f.path)
            && (DescribeAll(ValidImages(files, isValidImage), isRuntimeAssembly) + rest)[i] == Describe(f, isRuntimeAssembly)
  {
    var valid := ValidImages(files, isValidImage);
    assert valid[i] in files && ((f: ImageFile) => isValidImage(f.path))(valid[i]);
  }

  /** Runtime assemblies win: when a valid runtime image has a name, the
      universe entry of that name is a runtime-directory entry, namely the
      first valid runtime image of that name. */
  lemma {:induction false} RuntimeAssembliesWin(runtimeFiles: seq<ImageFile>, inputDirectories: seq<seq<ImageFile>>,
                                                isValidImage: string -> bool, f: ImageFile)
    requires f in runtimeFiles && isValidImage(f.path)
    ensures var u := BuildUniverse(runtimeFiles, inputDirectories, isValidImage);
            forall j :: 0 <= j < |u| && EqualsIgnoreCase(u[j].name, f.name) ==>
              u[j].isRuntimeAssembly && u[j].assemblyPath in set g | g in runtimeFiles :: g.path
  {
    var rt := DescribeAll(ValidImages(runtimeFiles, isValidImage), true);
    var other := DescribeAll(ValidImages(Flatten(inputDirectories), isValidImage), false);
    var s := rt + other;
    var u := DistinctByName(s, {});
    assert f in ValidImages(runtimeFiles, isValidImage);
    var fi :| 0 <= fi < |ValidImages(runtimeFiles, isValidImage)| && ValidImages(runtimeFiles, isValidImage)[fi] == f;
    assert s[fi] == Describe(f, true);
    forall j | 0 <= j < |u| && EqualsIgnoreCase(u[j].name, f.name)
      ensures u[j].isRuntimeAssembly && u[j].assemblyPath in set g | g in runtimeFiles :: g.path
    {
      DistinctByNameKeepsFirst(s, {}, j);
      var i :| 0 <= i < |s| && s[i] == u[j] && forall k :: 0 <= k < i ==> NameKey(s[k].name) != NameKey(u[j].name);
      assert NameKey(s[fi].name) == NameKey(u[j].name);
      assert i <= fi;
      var g := ValidImages(runtimeFiles, isValidImage)[i];
      assert s[i] == Describe(g, true);
    }
  }
}
