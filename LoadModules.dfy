/**
  The plugin collector of utils/load_modules.py.

  Executing a source file is outside the model: `exec` says, for each file
  path, what running that file as a module gives (an exception, a module
  without a `load` attribute, or a module whose `load()` returns an
  instance or raises). The directory walk is the sequence of
  `(folder, filenames)` pairs `os.walk` yields, and `os.path.relpath` is a
  given function that may raise (it consults the working directory).
*/
module LoadModules {
  import opened Wrappers
  import opened PyStrings
  import opened PyDicts
  import opened PyExceptions

  /** What calling a module's `load()` does. */
  datatype FactoryCall<I> = Returns(instance: I) | Raises(exc: Exc)

  /** What executing one source file as a module does. */
  datatype Execution<I> = ExecRaised(exc: Exc) | NoFactory | Factory(call: FactoryCall<I>)

  /** A loaded module: its derived name and, if it has one, its `load`. */
  datatype LoadedModule<I> = LoadedModule(name: string, factory: Option<FactoryCall<I>>)

  /** One step of `os.walk`: a folder and the names of the files in it. */
  datatype WalkEntry = WalkEntry(folder: string, filenames: seq<string>)

  type Grouping<I> = Dict<string, seq<I>>

  /* ---------------------------------------------------------------------- */
  /* Paths                                                                  */
  /* ---------------------------------------------------------------------- */

  /** `os.path.join(a, b)` on POSIX. */
  function PathJoin(a: string, b: string): string {
    if StartsWith(b, "/") then b
    else if a == [] || EndsWith(a, "/") then a + b
    else a + "/" + b
  }

  /** `os.path.basename(p)`: the text after the last `/`. */
  function Basename(p: string): string {
    LastPart(p, '/')
  }

  /** The index of the last `c` in `s`. */
  function LastIndex(s: string, c: char): (r: Option<nat>)
    ensures r.Some? ==> r.value < |s| && s[r.value] == c && c !in s[r.value + 1..]
    ensures r.None? ==> c !in s
    decreases |s|
  {
    if s == [] then None
    else if s[|s| - 1] == c then Some(|s| - 1)
    else
      var r := LastIndex(s[..|s| - 1], c);
      LastIndexStep(s[..|s| - 1], s[|s| - 1], c, r);
      assert s[..|s| - 1] + [s[|s| - 1]] == s;
      r
  }

  lemma LastIndexStep(t: string, x: char, c: char, r: Option<nat>)
    requires x != c
    requires r.Some? ==> r.value < |t| && t[r.value] == c && c !in t[r.value + 1..]
    requires r.None? ==> c !in t
    ensures r.Some? ==> r.value < |t + [x]| && (t + [x])[r.value] == c && c !in (t + [x])[r.value + 1..]
    ensures r.None? ==> c !in t + [x]
  {
    if r.Some? {
      assert (t + [x])[r.value + 1..] == t[r.value + 1..] + [x];
    }
  }

  predicate AllDots(s: string) {
    forall i :: 0 <= i < |s| ==> s[i] == '.'
  }

  /** `os.path.splitext(b)[0]` for a name without `/`: the last extension
      is cut off, unless only dots precede it (`.bashrc` has none). */
  function StripExtension(b: string): string {
    match LastIndex(b, '.')
    case Some(i) => if !AllDots(b[..i]) then b[..i] else b
    case None => b
  }

  /** The module name `load_module` derives from a path. */
  function ModuleName(path: string): string {
    StripExtension(Basename(path))
  }

  /** The basename of a path ending in `/` + `b` (or of `b` itself) is `b`. */
  lemma BasenameAfterSlash(x: string, b: string)
    requires '/' !in b
    requires x == [] || x[|x| - 1] == '/'
    ensures Basename(x + b) == b
  {
    if x == [] {
      assert x + b == b;
      SplitSingle(b, '/');
    } else {
      var y := x[..|x| - 1];
      assert x + b == y + ['/'] + b;
      SplitAppend(y, b, '/');
    }
  }

  /** The name of a `.py` file is the file name without `.py`, unless only
      dots precede the extension (`.py` is named `.py`). */
  lemma ModuleNameOfPyFile(folder: string, filename: string)
    requires '/' !in filename && EndsWith(filename, ".py")
    ensures var stem := filename[..|filename| - 3];
      ModuleName(PathJoin(folder, filename)) == if AllDots(stem) then filename else stem
  {
    var p := PathJoin(folder, filename);
    assert !StartsWith(filename, "/") by {
      assert filename[0] in filename;
    }
    if folder == [] || EndsWith(folder, "/") {
      assert p == folder + filename;
      assert folder == [] || folder[|folder| - 1] == '/' by {
        if folder != [] {
          assert folder[|folder| - 1..] == "/";
        }
      }
      BasenameAfterSlash(folder, filename);
    } else {
      assert p == (folder + "/") + filename;
      BasenameAfterSlash(folder + "/", filename);
    }
    var n := |filename|;
    assert filename[n - 3..] == ".py";
    assert filename[n - 3] == '.';
    assert '.' !in filename[n - 2..] by {
      assert filename[n - 2..] == "py";
    }
  }

  /* ---------------------------------------------------------------------- */
  /* load_module                                                            */
  /* ---------------------------------------------------------------------- */

  /** How `load_module` reports an exception raised while executing the file:
      the first matching `except` clause wraps it in `ModuleLoadingError`;
      a `BaseException` that is not an `Exception` passes through. */
  function LoadFailure(path: string, e: Exc): Exc {
    if !IsException(e.kind) then e
    else if e.kind.FileNotFoundError? then Exc(ModuleLoadingError, "File " + path + " not found.")
    else if IsImportError(e.kind) then Exc(ModuleLoadingError, "Import error in module " + path + ": " + e.text)
    else if e.kind.SyntaxError? then Exc(ModuleLoadingError, "Syntax error in file " + path + ": " + e.text)
    else Exc(ModuleLoadingError, "Unknown error while loading module " + path + ": " + e.text)
  }

  /** `load_module(path)`. */
  function LoadModule<I>(path: string, exec: string -> Execution<I>): Result<LoadedModule<I>, Exc> {
    match exec(path)
    case ExecRaised(e) => Failure(LoadFailure(path, e))
    case NoFactory => Success(LoadedModule(ModuleName(path), None))
    case Factory(call) => Success(LoadedModule(ModuleName(path), Some(call)))
  }

  /** Every `Exception` raised while loading becomes a `ModuleLoadingError`
      that names the path and, except for a missing file, ends with the
      original message; anything else propagates unchanged. A file that
      executes is loaded under its derived name. */
  lemma LoadModuleOutcome<I>(path: string, exec: string -> Execution<I>)
    ensures LoadModule(path, exec).Failure? <==> exec(path).ExecRaised?
    ensures LoadModule(path, exec).Success? ==> LoadModule(path, exec).value.name == ModuleName(path)
    ensures exec(path).ExecRaised? ==>
      var e := exec(path).exc; var w := LoadModule(path, exec).error;
      if IsException(e.kind) then
        w.kind == ModuleLoadingError && Contains(w.text, path)
        && (e.kind.FileNotFoundError? || EndsWith(w.text, ": " + e.text))
      else w == e
  {
    if exec(path).ExecRaised? && IsException(exec(path).exc.kind) {
      LoadFailureShape(path, exec(path).exc);
    }
  }

  /** The message of a wrapped loading error names the path and, except
      for a missing file, ends with the original message. */
  lemma LoadFailureShape(path: string, e: Exc)
    requires IsException(e.kind)
    ensures var w := LoadFailure(path, e);
      w.kind == ModuleLoadingError && Contains(w.text, path)
      && (e.kind.FileNotFoundError? || EndsWith(w.text, ": " + e.text))
    ensures e.kind.FileNotFoundError? ==> LoadFailure(path, e).text == "File " + path + " not found."
    ensures IsImportError(e.kind) ==>
      LoadFailure(path, e).text == "Import error in module " + path + ": " + e.text
    ensures e.kind.SyntaxError? ==>
      LoadFailure(path, e).text == "Syntax error in file " + path + ": " + e.text
    ensures !e.kind.FileNotFoundError? && !IsImportError(e.kind) && !e.kind.SyntaxError? ==>
      LoadFailure(path, e).text == "Unknown error while loading module " + path + ": " + e.text
  {
    var post := ": " + e.text;
    if e.kind.FileNotFoundError? {
      Framed("File ", path, " not found.");
    } else if IsImportError(e.kind) {
      assert "Import error in module " + path + ": " + e.text == "Import error in module " + path + post;
      Framed("Import error in module ", path, post);
    } else if e.kind.SyntaxError? {
      assert "Syntax error in file " + path + ": " + e.text == "Syntax error in file " + path + post;
      Framed("Syntax error in file ", path, post);
    } else {
      assert "Unknown error while loading module " + path + ": " + e.text == "Unknown error while loading module " + path + post;
      Framed("Unknown error while loading module ", path, post);
    }
  }

  /** A message built as `pre + mid + post` contains `mid` and ends with `post`. */
  lemma Framed(pre: string, mid: string, post: string)
    ensures Contains(pre + mid + post, mid) && EndsWith(pre + mid + post, post)
  {
    var t := pre + mid + post;
    assert t[|pre|..|pre| + |mid|] == mid;
    ContainsAt(t, mid, |pre|);
    assert t[|t| - |post|..] == post;
  }

  /* ---------------------------------------------------------------------- */
  /* collect_modules                                                        */
  /* ---------------------------------------------------------------------- */

  /** An exception raised by `load()` is wrapped with the file name. */
  function FactoryFailure(filename: string, e: Exc): Exc {
    if IsException(e.kind) then Exc(ModuleLoadingError, "Error calling load() in module " + filename + ": " + e.text)
    else e
  }

  /** How the outer handlers of `collect_modules` report an exception that
      left the walk, tried in the order the `except` clauses are written. */
  function DirectoryFailure(directory: string, e: Exc): Exc {
    if e.kind.FileNotFoundError? then Exc(DirectoryError, "Directory " + directory + " not found.")
    else if e.kind.PermissionError? then Exc(DirectoryError, "No permission to access directory " + directory + ".")
    else if IsOSError(e.kind) then Exc(DirectoryError, "OS error accessing directory " + directory + ": " + e.text)
    else if IsException(e.kind) then Exc(DirectoryError, "Unknown error while collecting modules from " + directory + ": " + e.text)
    else e
  }

  /** The instances one file contributes: none unless it is a `.py` file
      whose module has `load`, then the one `load()` returns. */
  function FileModules<I>(folder: string, filename: string, exec: string -> Execution<I>): Result<seq<I>, Exc> {
    if !EndsWith(filename, ".py") then Success([])
    else
      match LoadModule(PathJoin(folder, filename), exec)
      case Failure(e) => Failure(e)
      case Success(m) =>
        match m.factory
        case None => Success([])
        case Some(Returns(x)) => Success([x])
        case Some(Raises(e)) => Failure(FactoryFailure(filename, e))
  }

  /** The `module_list` of one folder, files taken in the order listed;
      the first failure ends the scan. */
  function FolderModules<I>(folder: string, filenames: seq<string>, exec: string -> Execution<I>): Result<seq<I>, Exc>
    decreases |filenames|
  {
    if filenames == [] then Success([])
    else
      match FolderModules(folder, filenames[..|filenames| - 1], exec)
      case Failure(e) => Failure(e)
      case Success(list) =>
        match FileModules(folder, filenames[|filenames| - 1], exec)
        case Failure(e) => Failure(e)
        case Success(found) => Success(list + found)
  }

  /** `modules_dict` after walking the given folders, or the exception
      that left the walk (before the outer handlers see it). */
  function WalkModules<I>(directory: string, walk: seq<WalkEntry>, exec: string -> Execution<I>,
                          relpath: (string, string) -> Result<string, Exc>): Result<Grouping<I>, Exc>
    decreases |walk|
  {
    if walk == [] then Success([])
    else
      match WalkModules(directory, walk[..|walk| - 1], exec, relpath)
      case Failure(e) => Failure(e)
      case Success(d) =>
        var entry := walk[|walk| - 1];
        match FolderModules(entry.folder, entry.filenames, exec)
        case Failure(e) => Failure(e)
        case Success(list) =>
          if list == [] then Success(d)
          else
            match relpath(entry.folder, directory)
            case Failure(e) => Failure(e)
            case Success(key) => Success(Put(d, key, list))
  }

  /** What `collect_modules(directory)` returns or raises. */
  function Collection<I>(directory: string, walk: seq<WalkEntry>, exec: string -> Execution<I>,
                         relpath: (string, string) -> Result<string, Exc>): Result<Grouping<I>, Exc> {
    match WalkModules(directory, walk, exec, relpath)
    case Success(d) => Success(d)
    case Failure(e) => Failure(DirectoryFailure(directory, e))
  }

  /** The inner loop of `collect_modules`: fills `module_list` for one folder. */
  method ScanFolder<I>(folder: string, filenames: seq<string>, exec: string -> Execution<I>)
    returns (r: Result<seq<I>, Exc>)
    ensures r == FolderModules(folder, filenames, exec)
  {
    var moduleList: seq<I> := [];
    var j := 0;
    while j < |filenames|
      invariant 0 <= j <= |filenames|
      invariant FolderModules(folder, filenames[..j], exec) == Success(moduleList)
    {
      var filename := filenames[j];
      ghost var before := moduleList;
      ghost var found: seq<I> := [];
      if EndsWith(filename, ".py") {
        var filePath := PathJoin(folder, filename);
        var loaded := LoadModule(filePath, exec);
        if loaded.Failure? {
          FileFailureEndsFolder(folder, filenames, exec, j);
          return Failure(loaded.error);
        }
        match loaded.value.factory {
          case None =>
          case Some(call) =>
            match call {
              case Returns(x) =>
                moduleList := moduleList + [x];
                found := [x];
              case Raises(e) =>
                FileFailureEndsFolder(folder, filenames, exec, j);
                return Failure(FactoryFailure(filename, e));
            }
        }
      }
      assert FileModules(folder, filename, exec) == Success(found);
      assert moduleList == before + found;
      FolderStep(folder, filenames, exec, j);
      j := j + 1;
    }
    assert filenames[..j] == filenames;
    return Success(moduleList);
  }

  /** All instances of a grouping, group after group, each in list order. */
  function Flatten<I>(d: Grouping<I>): seq<I>
    decreases |d|
  {
    if d == [] then [] else Flatten(d[..|d| - 1]) + d[|d| - 1].1
  }

  /** `collect_modules`: walks the folders, keeps each non-empty
      `module_list` under the folder's relative path, and lets the outer
      handlers rewrap whatever escapes. */
  method CollectModules<I>(directory: string, walk: seq<WalkEntry>, exec: string -> Execution<I>,
                           relpath: (string, string) -> Result<string, Exc>)
    returns (r: Result<Grouping<I>, Exc>)
    ensures r == Collection(directory, walk, exec, relpath)
  {
    var modulesDict: Grouping<I> := [];
    var i := 0;
    while i < |walk|
      invariant 0 <= i <= |walk|
      invariant WalkModules(directory, walk[..i], exec, relpath) == Success(modulesDict)
    {
      var folder := walk[i].folder;
      assert walk[..i + 1][..i] == walk[..i];
      var moduleList := ScanFolder(folder, walk[i].filenames, exec);
      if moduleList.Failure? {
        WalkFailureAt(directory, walk, exec, relpath, i);
        return Failure(DirectoryFailure(directory, moduleList.error));
      }
      if moduleList.value != [] {
        var relativeFolder := relpath(folder, directory);
        if relativeFolder.Failure? {
          WalkFailurePersists(directory, walk, exec, relpath, i + 1);
          return Failure(DirectoryFailure(directory, relativeFolder.error));
        }
        modulesDict := Put(modulesDict, relativeFolder.value, moduleList.value);
      }
      i := i + 1;
    }
    assert walk[..i] == walk;
    return Success(modulesDict);
  }

  /* ---------------------------------------------------------------------- */
  /* The first failure aborts the pass                                      */
  /* ---------------------------------------------------------------------- */

  lemma FolderStep<I>(folder: string, filenames: seq<string>, exec: string -> Execution<I>, j: nat)
    requires j < |filenames|
    ensures FolderModules(folder, filenames[..j + 1], exec) ==
      match FolderModules(folder, filenames[..j], exec)
      case Failure(e) => Failure(e)
      case Success(list) =>
        match FileModules(folder, filenames[j], exec)
        case Failure(e) => Failure(e)
        case Success(found) => Success(list + found)
  {
    assert filenames[..j + 1][..j] == filenames[..j];
  }

  /** A file that fails, after the files before it succeeded, decides the
      outcome of the whole folder. */
  lemma FileFailureEndsFolder<I>(folder: string, filenames: seq<string>, exec: string -> Execution<I>, j: nat)
    requires j < |filenames| && FolderModules(folder, filenames[..j], exec).Success?
    requires FileModules(folder, filenames[j], exec).Failure?
    ensures FolderModules(folder, filenames, exec) == Failure(FileModules(folder, filenames[j], exec).error)
  {
    FolderStep(folder, filenames, exec, j);
    FolderFailurePersists(folder, filenames, exec, j + 1);
  }

  lemma {:induction false} FolderFailurePersists<I>(folder: string, filenames: seq<string>, exec: string -> Execution<I>, n: nat)
    requires n <= |filenames| && FolderModules(folder, filenames[..n], exec).Failure?
    ensures FolderModules(folder, filenames, exec) == FolderModules(folder, filenames[..n], exec)
    decreases |filenames| - n
  {
    if n < |filenames| {
      assert filenames[..n + 1][..n] == filenames[..n];
      FolderFailurePersists(folder, filenames, exec, n + 1);
    } else {
      assert filenames[..n] == filenames;
    }
  }

  lemma {:induction false} WalkFailurePersists<I>(directory: string, walk: seq<WalkEntry>, exec: string -> Execution<I>,
                                                  relpath: (string, string) -> Result<string, Exc>, n: nat)
    requires n <= |walk| && WalkModules(directory, walk[..n], exec, relpath).Failure?
    ensures WalkModules(directory, walk, exec, relpath) == WalkModules(directory, walk[..n], exec, relpath)
    decreases |walk| - n
  {
    if n < |walk| {
      assert walk[..n + 1][..n] == walk[..n];
      WalkFailurePersists(directory, walk, exec, relpath, n + 1);
    } else {
      assert walk[..n] == walk;
    }
  }

  /** A folder that fails, after the folders before it succeeded, decides the
      outcome of the whole walk. */
  lemma WalkFailureAt<I>(directory: string, walk: seq<WalkEntry>, exec: string -> Execution<I>,
                         relpath: (string, string) -> Result<string, Exc>, i: nat)
    requires i < |walk| && WalkModules(directory, walk[..i], exec, relpath).Success?
    requires FolderModules(walk[i].folder, walk[i].filenames, exec).Failure?
    ensures WalkModules(directory, walk, exec, relpath) == Failure(FolderModules(walk[i].folder, walk[i].filenames, exec).error)
  {
    assert walk[..i + 1][..i] == walk[..i];
    WalkFailurePersists(directory, walk, exec, relpath, i + 1);
  }
}

/**
  What a successful pass of `collect_modules` produced, and why a failing
  one produces nothing.
*/
module LoadModulesProperties {
  import opened Wrappers
  import opened PyStrings
  import opened PyDicts
  import opened PyExceptions
  import opened LoadModules

  /** A file that contributes an instance: a `.py` file whose module has `load`. */
  predicate Provides<I>(folder: string, filename: string, exec: string -> Execution<I>) {
    EndsWith(filename, ".py") && exec(PathJoin(folder, filename)).Factory?
  }

  function ProviderCount<I>(folder: string, filenames: seq<string>, exec: string -> Execution<I>): nat
    decreases |filenames|
  {
    if filenames == [] then 0
    else ProviderCount(folder, filenames[..|filenames| - 1], exec)
         + (if Provides(folder, filenames[|filenames| - 1], exec) then 1 else 0)
  }

  /** Files that do not end in `.py` are never loaded: two executions that
      agree on the `.py` files of a folder give the same outcome. */
  lemma {:induction false} OnlyPyFilesLoaded<I>(folder: string, filenames: seq<string>,
                                                exec1: string -> Execution<I>, exec2: string -> Execution<I>)
    requires forall j :: 0 <= j < |filenames| && EndsWith(filenames[j], ".py") ==>
      exec1(PathJoin(folder, filenames[j])) == exec2(PathJoin(folder, filenames[j]))
    ensures FolderModules(folder, filenames, exec1) == FolderModules(folder, filenames, exec2)
    decreases |filenames|
  {
    if filenames != [] {
      var n := |filenames| - 1;
      OnlyPyFilesLoaded(folder, filenames[..n], exec1, exec2);
    }
  }

  /** A file that succeeded contributes one instance if it provides `load`
      and none otherwise; the instance is the one its `load()` returned. */
  lemma FileSuccess<I>(folder: string, filename: string, exec: string -> Execution<I>)
    requires FileModules(folder, filename, exec).Success?
    ensures |FileModules(folder, filename, exec).value| == if Provides(folder, filename, exec) then 1 else 0
    ensures forall x :: x in FileModules(folder, filename, exec).value ==>
      Provides(folder, filename, exec) && exec(PathJoin(folder, filename)) == Factory(Returns(x))
  {
  }

  /** The instance a file's `load()` returned, if it is a `.py` file whose
      module has a `load` that returned. */
  function Returned<I>(folder: string, filename: string, exec: string -> Execution<I>): seq<I> {
    if !EndsWith(filename, ".py") then []
    else
      var e := exec(PathJoin(folder, filename));
      if e.Factory? && e.call.Returns? then [e.call.instance] else []
  }

  /** The returned instances of a folder's files, in the order the files
      are listed. */
  function Instances<I>(folder: string, filenames: seq<string>, exec: string -> Execution<I>): seq<I>
    decreases |filenames|
  {
    if filenames == [] then []
    else Returned(folder, filenames[0], exec) + Instances(folder, filenames[1..], exec)
  }

  /** Taking one more file appends its returned instance. */
  lemma {:induction false} InstancesSnoc<I>(folder: string, filenames: seq<string>, f: string, exec: string -> Execution<I>)
    ensures Instances(folder, filenames + [f], exec) == Instances(folder, filenames, exec) + Returned(folder, f, exec)
    decreases |filenames|
  {
    if filenames == [] {
      assert [] + [f] == [f];
      assert [f][1..] == [];
    } else {
      assert (filenames + [f])[0] == filenames[0];
      assert (filenames + [f])[1..] == filenames[1..] + [f];
      InstancesSnoc(folder, filenames[1..], f, exec);
    }
  }

  /** A folder that succeeded: every file in it succeeded, and its list holds
      one instance per `.py` file with `load`, each the instance that file's
      `load()` returned, in the order the files are listed. */
  lemma FolderSuccess<I>(folder: string, filenames: seq<string>, exec: string -> Execution<I>)
    requires FolderModules(folder, filenames, exec).Success?
    ensures forall j :: 0 <= j < |filenames| ==> FileModules(folder, filenames[j], exec).Success?
    ensures FolderModules(folder, filenames, exec).value == Instances(folder, filenames, exec)
    ensures |FolderModules(folder, filenames, exec).value| == ProviderCount(folder, filenames, exec)
    ensures forall x :: x in FolderModules(folder, filenames, exec).value ==>
      exists j :: 0 <= j < |filenames| && Provides(folder, filenames[j], exec)
                  && exec(PathJoin(folder, filenames[j])) == Factory(Returns(x))
  {
    FolderSuccessFiles(folder, filenames, exec);
    FolderSuccessInstances(folder, filenames, exec);
    FolderSuccessCount(folder, filenames, exec);
    FolderSuccessMembers(folder, filenames, exec);
  }

  lemma {:induction false} FolderSuccessInstances<I>(folder: string, filenames: seq<string>, exec: string -> Execution<I>)
    requires FolderModules(folder, filenames, exec).Success?
    ensures FolderModules(folder, filenames, exec).value == Instances(folder, filenames, exec)
    decreases |filenames|
  {
    if filenames != [] {
      var n := |filenames| - 1;
      FolderSuccessStep(folder, filenames, exec);
      FolderSuccessInstances(folder, filenames[..n], exec);
      InstancesSnoc(folder, filenames[..n], filenames[n], exec);
      assert filenames[..n] + [filenames[n]] == filenames;
    }
  }

  /** The last step of a folder that succeeded: the files before the last
      succeeded, the last file succeeded, and the list is the two joined. */
  lemma FolderSuccessStep<I>(folder: string, filenames: seq<string>, exec: string -> Execution<I>)
    requires filenames != [] && FolderModules(folder, filenames, exec).Success?
    ensures FolderModules(folder, filenames[..|filenames| - 1], exec).Success?
    ensures FileModules(folder, filenames[|filenames| - 1], exec).Success?
    ensures FolderModules(folder, filenames, exec).value
      == FolderModules(folder, filenames[..|filenames| - 1], exec).value
         + FileModules(folder, filenames[|filenames| - 1], exec).value
  {
  }

  lemma FolderSuccessFiles<I>(folder: string, filenames: seq<string>, exec: string -> Execution<I>)
    requires FolderModules(folder, filenames, exec).Success?
    ensures forall j :: 0 <= j < |filenames| ==> FileModules(folder, filenames[j], exec).Success?
  {
    forall j | 0 <= j < |filenames| ensures FileModules(folder, filenames[j], exec).Success? {
      FolderSuccessAt(folder, filenames, exec, j);
    }
  }

  lemma FolderSuccessAt<I>(folder: string, filenames: seq<string>, exec: string -> Execution<I>, j: nat)
    requires j < |filenames| && FolderModules(folder, filenames, exec).Success?
    ensures FileModules(folder, filenames[j], exec).Success?
  {
    var upto := filenames[..j + 1];
    FolderPrefixSuccess(folder, filenames, exec, j + 1);
    FolderSuccessStep(folder, upto, exec);
    assert upto[j] == filenames[j];
  }

  /** Every prefix of a folder that succeeded succeeded. */
  lemma {:induction false} FolderPrefixSuccess<I>(folder: string, filenames: seq<string>, exec: string -> Execution<I>, k: nat)
    requires k <= |filenames| && FolderModules(folder, filenames, exec).Success?
    ensures FolderModules(folder, filenames[..k], exec).Success?
    decreases |filenames|
  {
    if k < |filenames| {
      var n := |filenames| - 1;
      FolderSuccessStep(folder, filenames, exec);
      FolderPrefixSuccess(folder, filenames[..n], exec, k);
      assert filenames[..n][..k] == filenames[..k];
    } else {
      assert filenames[..k] == filenames;
    }
  }

  lemma {:induction false} FolderSuccessCount<I>(folder: string, filenames: seq<string>, exec: string -> Execution<I>)
    requires FolderModules(folder, filenames, exec).Success?
    ensures |FolderModules(folder, filenames, exec).value| == ProviderCount(folder, filenames, exec)
    decreases |filenames|
  {
    if filenames != [] {
      var n := |filenames| - 1;
      FolderSuccessStep(folder, filenames, exec);
      FolderSuccessCount(folder, filenames[..n], exec);
      FileSuccess(folder, filenames[n], exec);
    }
  }

  lemma {:induction false} FolderSuccessMembers<I>(folder: string, filenames: seq<string>, exec: string -> Execution<I>)
    requires FolderModules(folder, filenames, exec).Success?
    ensures forall x :: x in FolderModules(folder, filenames, exec).value ==>
      exists j :: 0 <= j < |filenames| && Provides(folder, filenames[j], exec)
                  && exec(PathJoin(folder, filenames[j])) == Factory(Returns(x))
    decreases |filenames|
  {
    if filenames != [] {
      var n := |filenames| - 1;
      var prefix := filenames[..n];
      var f := filenames[n];
      FolderSuccessStep(folder, filenames, exec);
      var list := FolderModules(folder, prefix, exec).value;
      var found := FileModules(folder, f, exec).value;
      FolderSuccessMembers(folder, prefix, exec);
      FileSuccess(folder, f, exec);
      forall x | x in list + found
        ensures exists j :: 0 <= j < |filenames| && Provides(folder, filenames[j], exec)
                            && exec(PathJoin(folder, filenames[j])) == Factory(Returns(x))
      {
        if x in list {
          var j :| 0 <= j < |prefix| && Provides(folder, prefix[j], exec)
                   && exec(PathJoin(folder, prefix[j])) == Factory(Returns(x));
          assert filenames[j] == prefix[j];
        } else {
          assert filenames[n] == f;
        }
      }
    }
  }

  /** A walk that succeeded: every folder in it succeeded. */
  lemma {:induction false} WalkSuccess<I>(directory: string, walk: seq<WalkEntry>, exec: string -> Execution<I>,
                                          relpath: (string, string) -> Result<string, Exc>)
    requires WalkModules(directory, walk, exec, relpath).Success?
    ensures forall i :: 0 <= i < |walk| ==> FolderModules(walk[i].folder, walk[i].filenames, exec).Success?
    decreases |walk|
  {
    if walk != [] {
      var n := |walk| - 1;
      WalkSuccess(directory, walk[..n], exec, relpath);
      forall i | 0 <= i < |walk| ensures FolderModules(walk[i].folder, walk[i].filenames, exec).Success? {
        if i < n {
          assert walk[i] == walk[..n][i];
        }
      }
    }
  }

  /** One `.py` file that fails to load, or whose `load()` raises, makes the
      whole pass fail: no grouping is returned. */
  lemma AbortOnFileFailure<I>(directory: string, walk: seq<WalkEntry>, exec: string -> Execution<I>,
                              relpath: (string, string) -> Result<string, Exc>, i: nat, j: nat)
    requires i < |walk| && j < |walk[i].filenames|
    requires EndsWith(walk[i].filenames[j], ".py")
    requires var x := exec(PathJoin(walk[i].folder, walk[i].filenames[j]));
      x.ExecRaised? || (x.Factory? && x.call.Raises?)
    ensures Collection(directory, walk, exec, relpath).Failure?
  {
    if WalkModules(directory, walk, exec, relpath).Success? {
      WalkSuccess(directory, walk, exec, relpath);
      FolderSuccess(walk[i].folder, walk[i].filenames, exec);
      assert FileModules(walk[i].folder, walk[i].filenames[j], exec).Success?;
    }
  }

  /** Failures inside a folder are `ModuleLoadingError`s, or a
      `BaseException` passing through. */
  lemma {:induction false} FolderFailureKind<I>(folder: string, filenames: seq<string>, exec: string -> Execution<I>)
    requires FolderModules(folder, filenames, exec).Failure?
    ensures var e := FolderModules(folder, filenames, exec).error;
      e.kind == ModuleLoadingError || !IsException(e.kind)
    decreases |filenames|
  {
    var n := |filenames| - 1;
    if FolderModules(folder, filenames[..n], exec).Failure? {
      FolderFailureKind(folder, filenames[..n], exec);
    }
  }

  /** The error inside the walk comes from a file, or from `relpath`. */
  lemma {:induction false} WalkFailureKind<I>(directory: string, walk: seq<WalkEntry>, exec: string -> Execution<I>,
                                              relpath: (string, string) -> Result<string, Exc>)
    requires WalkModules(directory, walk, exec, relpath).Failure?
    ensures var e := WalkModules(directory, walk, exec, relpath).error;
      e.kind == ModuleLoadingError || !IsException(e.kind)
      || exists i :: 0 <= i < |walk| && relpath(walk[i].folder, directory) == Failure(e)
    decreases |walk|
  {
    var n := |walk| - 1;
    var e := WalkModules(directory, walk, exec, relpath).error;
    if WalkModules(directory, walk[..n], exec, relpath).Failure? {
      WalkFailureKind(directory, walk[..n], exec, relpath);
      if e.kind != ModuleLoadingError && IsException(e.kind) {
        var i :| 0 <= i < n && relpath(walk[..n][i].folder, directory) == Failure(e);
        assert walk[..n][i] == walk[i];
      }
    } else if FolderModules(walk[n].folder, walk[n].filenames, exec).Failure? {
      FolderFailureKind(walk[n].folder, walk[n].filenames, exec);
    }
  }

  /** What the caller of `collect_modules` sees on failure: a
      `DirectoryError`, or a `BaseException` passing through. When
      `relpath` does not raise, the `DirectoryError` always comes from the
      generic handler, which rewraps the inner `ModuleLoadingError` and keeps
      its message. */
  lemma CollectionFailure<I>(directory: string, walk: seq<WalkEntry>, exec: string -> Execution<I>,
                             relpath: (string, string) -> Result<string, Exc>)
    requires Collection(directory, walk, exec, relpath).Failure?
    ensures var e := Collection(directory, walk, exec, relpath).error;
      e.kind == DirectoryError || !IsException(e.kind)
    ensures (forall i :: 0 <= i < |walk| ==> relpath(walk[i].folder, directory).Success?) ==>
      var e := Collection(directory, walk, exec, relpath).error;
      var inner := WalkModules(directory, walk, exec, relpath).error;
      IsException(e.kind) ==>
        inner.kind == ModuleLoadingError
        && e.text == "Unknown error while collecting modules from " + directory + ": " + inner.text
  {
    WalkFailureKind(directory, walk, exec, relpath);
  }

  /** Folder `i` of the walk produced instances and was recorded under `k`. */
  predicate RecordedAt<I>(directory: string, walk: seq<WalkEntry>, exec: string -> Execution<I>,
                          relpath: (string, string) -> Result<string, Exc>, i: nat, k: string)
    requires i < |walk|
  {
    var r := FolderModules(walk[i].folder, walk[i].filenames, exec);
    r.Success? && r.value != [] && relpath(walk[i].folder, directory) == Success(k)
  }

  lemma RecordedPrefix<I>(directory: string, walk: seq<WalkEntry>, exec: string -> Execution<I>,
                          relpath: (string, string) -> Result<string, Exc>, n: nat, i: nat, k: string)
    requires i < n <= |walk|
    ensures RecordedAt(directory, walk[..n], exec, relpath, i, k) <==> RecordedAt(directory, walk, exec, relpath, i, k)
  {
    assert walk[..n][i] == walk[i];
  }

  /** The keys of a successful grouping are distinct and each holds a
      non-empty list: a folder that produced nothing is left out. */
  lemma {:induction false} GroupingShape<I>(directory: string, walk: seq<WalkEntry>, exec: string -> Execution<I>,
                                            relpath: (string, string) -> Result<string, Exc>)
    requires WalkModules(directory, walk, exec, relpath).Success?
    ensures DistinctKeys(WalkModules(directory, walk, exec, relpath).value)
    ensures forall e :: e in WalkModules(directory, walk, exec, relpath).value ==> e.1 != []
    decreases |walk|
  {
    if walk != [] {
      var n := |walk| - 1;
      GroupingShape(directory, walk[..n], exec, relpath);
      var d := WalkModules(directory, walk[..n], exec, relpath).value;
      var list := FolderModules(walk[n].folder, walk[n].filenames, exec).value;
      if list != [] {
        var key := relpath(walk[n].folder, directory).value;
        PutDistinct(d, key, list);
        PutItems(d, key, list);
      }
    }
  }

  /** Every key of a successful grouping is the relative path of a folder
      that produced instances. */
  lemma {:induction false} KeysAreRecorded<I>(directory: string, walk: seq<WalkEntry>, exec: string -> Execution<I>,
                                              relpath: (string, string) -> Result<string, Exc>, k: string)
    requires WalkModules(directory, walk, exec, relpath).Success?
    requires k in Keys(WalkModules(directory, walk, exec, relpath).value)
    ensures exists i :: 0 <= i < |walk| && RecordedAt(directory, walk, exec, relpath, i, k)
    decreases |walk|
  {
    var n := |walk| - 1;
    var d := WalkModules(directory, walk[..n], exec, relpath).value;
    var list := FolderModules(walk[n].folder, walk[n].filenames, exec).value;
    var key := relpath(walk[n].folder, directory);
    if list != [] && key.value == k {
      assert RecordedAt(directory, walk, exec, relpath, n, k);
    } else {
      if list != [] {
        PutKeys(d, key.value, list);
      }
      assert k in Keys(d);
      KeysAreRecorded(directory, walk[..n], exec, relpath, k);
      var i :| 0 <= i < n && RecordedAt(directory, walk[..n], exec, relpath, i, k);
      RecordedPrefix(directory, walk, exec, relpath, n, i, k);
    }
  }

  /** Every folder that produced instances has its relative path as a key. */
  lemma {:induction false} RecordedAreKeys<I>(directory: string, walk: seq<WalkEntry>, exec: string -> Execution<I>,
                                              relpath: (string, string) -> Result<string, Exc>, i: nat, k: string)
    requires WalkModules(directory, walk, exec, relpath).Success?
    requires i < |walk| && RecordedAt(directory, walk, exec, relpath, i, k)
    ensures k in Keys(WalkModules(directory, walk, exec, relpath).value)
    decreases |walk|
  {
    var n := |walk| - 1;
    var d := WalkModules(directory, walk[..n], exec, relpath).value;
    var list := FolderModules(walk[n].folder, walk[n].filenames, exec).value;
    if i < n {
      RecordedPrefix(directory, walk, exec, relpath, n, i, k);
      RecordedAreKeys(directory, walk[..n], exec, relpath, i, k);
    }
    if list != [] {
      PutKeys(d, relpath(walk[n].folder, directory).value, list);
    }
  }

  /** A key is present exactly when some folder produced instances and its
      relative path is that key. */
  lemma GroupingKeys<I>(directory: string, walk: seq<WalkEntry>, exec: string -> Execution<I>,
                        relpath: (string, string) -> Result<string, Exc>, k: string)
    requires WalkModules(directory, walk, exec, relpath).Success?
    ensures k in Keys(WalkModules(directory, walk, exec, relpath).value) <==>
      exists i :: 0 <= i < |walk| && RecordedAt(directory, walk, exec, relpath, i, k)
  {
    if k in Keys(WalkModules(directory, walk, exec, relpath).value) {
      KeysAreRecorded(directory, walk, exec, relpath, k);
    }
    if exists i :: 0 <= i < |walk| && RecordedAt(directory, walk, exec, relpath, i, k) {
      var i :| 0 <= i < |walk| && RecordedAt(directory, walk, exec, relpath, i, k);
      RecordedAreKeys(directory, walk, exec, relpath, i, k);
    }
  }

  /** The number of `.py` files exposing `load` across the walk. */
  function WalkProviderCount<I>(walk: seq<WalkEntry>, exec: string -> Execution<I>): nat
    decreases |walk|
  {
    if walk == [] then 0
    else WalkProviderCount(walk[..|walk| - 1], exec)
         + ProviderCount(walk[|walk| - 1].folder, walk[|walk| - 1].filenames, exec)
  }

  /** Distinct folders of the walk have distinct relative paths. */
  predicate DistinctRelpaths(directory: string, walk: seq<WalkEntry>, relpath: (string, string) -> Result<string, Exc>) {
    forall i, j :: 0 <= i < j < |walk| && relpath(walk[i].folder, directory).Success? ==>
      relpath(walk[i].folder, directory) != relpath(walk[j].folder, directory)
  }

  /** When every factory succeeds, the instances summed over all groups are
      as many as the `.py` files exposing `load`. */
  lemma {:induction false} GroupingCount<I>(directory: string, walk: seq<WalkEntry>, exec: string -> Execution<I>,
                                            relpath: (string, string) -> Result<string, Exc>)
    requires WalkModules(directory, walk, exec, relpath).Success?
    requires DistinctRelpaths(directory, walk, relpath)
    ensures |Flatten(WalkModules(directory, walk, exec, relpath).value)| == WalkProviderCount(walk, exec)
    decreases |walk|
  {
    if walk != [] {
      var n := |walk| - 1;
      var pre := walk[..n];
      DistinctRelpathsPrefix(directory, walk, relpath, n);
      GroupingCount(directory, pre, exec, relpath);
      WalkSuccess(directory, walk, exec, relpath);
      FolderSuccess(walk[n].folder, walk[n].filenames, exec);
      var d := WalkModules(directory, pre, exec, relpath).value;
      var list := FolderModules(walk[n].folder, walk[n].filenames, exec).value;
      if list != [] {
        var key := relpath(walk[n].folder, directory).value;
        LastKeyNew(directory, walk, exec, relpath);
        PutNew(d, key, list);
        var d' := d + [(key, list)];
        assert d'[..|d'| - 1] == d;
      }
    }
  }

  lemma DistinctRelpathsPrefix(directory: string, walk: seq<WalkEntry>, relpath: (string, string) -> Result<string, Exc>, n: nat)
    requires n <= |walk| && DistinctRelpaths(directory, walk, relpath)
    ensures DistinctRelpaths(directory, walk[..n], relpath)
  {
    var pre := walk[..n];
    forall i, j | 0 <= i < j < |pre| && relpath(pre[i].folder, directory).Success?
      ensures relpath(pre[i].folder, directory) != relpath(pre[j].folder, directory)
    {
      assert pre[i] == walk[i] && pre[j] == walk[j];
    }
  }

  /** With distinct relative paths, the last folder's key is not yet in the
      grouping of the folders before it. */
  lemma LastKeyNew<I>(directory: string, walk: seq<WalkEntry>, exec: string -> Execution<I>,
                      relpath: (string, string) -> Result<string, Exc>)
    requires walk != [] && DistinctRelpaths(directory, walk, relpath)
    requires WalkModules(directory, walk[..|walk| - 1], exec, relpath).Success?
    requires relpath(walk[|walk| - 1].folder, directory).Success?
    ensures relpath(walk[|walk| - 1].folder, directory).value
      !in Keys(WalkModules(directory, walk[..|walk| - 1], exec, relpath).value)
  {
    var n := |walk| - 1;
    var pre := walk[..n];
    var key := relpath(walk[n].folder, directory).value;
    if key in Keys(WalkModules(directory, pre, exec, relpath).value) {
      KeysAreRecorded(directory, pre, exec, relpath, key);
      var i :| 0 <= i < n && RecordedAt(directory, pre, exec, relpath, i, key);
      RecordedPrefix(directory, walk, exec, relpath, n, i, key);
      assert false;
    }
  }

  /** The group one walk step contributes: its relative path and its list,
      when the folder produced instances and its relative path is known. */
  function RecordedEntry<I>(directory: string, entry: WalkEntry, exec: string -> Execution<I>,
                            relpath: (string, string) -> Result<string, Exc>): Grouping<I> {
    var r := FolderModules(entry.folder, entry.filenames, exec);
    var key := relpath(entry.folder, directory);
    if r.Success? && r.value != [] && key.Success? then [(key.value, r.value)] else []
  }

  /** The groups of the folders that produced instances, in walk order. */
  function Recorded<I>(directory: string, walk: seq<WalkEntry>, exec: string -> Execution<I>,
                       relpath: (string, string) -> Result<string, Exc>): Grouping<I>
    decreases |walk|
  {
    if walk == [] then []
    else RecordedEntry(directory, walk[0], exec, relpath) + Recorded(directory, walk[1..], exec, relpath)
  }

  lemma {:induction false} RecordedSnoc<I>(directory: string, walk: seq<WalkEntry>, e: WalkEntry, exec: string -> Execution<I>,
                                           relpath: (string, string) -> Result<string, Exc>)
    ensures Recorded(directory, walk + [e], exec, relpath)
      == Recorded(directory, walk, exec, relpath) + RecordedEntry(directory, e, exec, relpath)
    decreases |walk|
  {
    if walk == [] {
      assert [] + [e] == [e];
      assert [e][1..] == [];
    } else {
      assert (walk + [e])[0] == walk[0];
      assert (walk + [e])[1..] == walk[1..] + [e];
      RecordedSnoc(directory, walk[1..], e, exec, relpath);
    }
  }

  /** With distinct relative paths, the grouping is exactly the folders
      that produced instances, in walk order, each under its relative path
      with its own list. */
  lemma {:induction false} GroupingInWalkOrder<I>(directory: string, walk: seq<WalkEntry>, exec: string -> Execution<I>,
                                                  relpath: (string, string) -> Result<string, Exc>)
    requires WalkModules(directory, walk, exec, relpath).Success?
    requires DistinctRelpaths(directory, walk, relpath)
    ensures WalkModules(directory, walk, exec, relpath).value == Recorded(directory, walk, exec, relpath)
    decreases |walk|
  {
    if walk != [] {
      var n := |walk| - 1;
      var pre := walk[..n];
      DistinctRelpathsPrefix(directory, walk, relpath, n);
      GroupingInWalkOrder(directory, pre, exec, relpath);
      WalkSuccess(directory, walk, exec, relpath);
      RecordedSnoc(directory, pre, walk[n], exec, relpath);
      assert pre + [walk[n]] == walk;
      var d := WalkModules(directory, pre, exec, relpath).value;
      var list := FolderModules(walk[n].folder, walk[n].filenames, exec).value;
      if list != [] {
        LastKeyNew(directory, walk, exec, relpath);
        PutNew(d, relpath(walk[n].folder, directory).value, list);
      }
    }
  }

  /** With distinct relative paths, the list stored under a folder's
      relative path is that folder's own `module_list`. */
  lemma {:induction false} GroupingValues<I>(directory: string, walk: seq<WalkEntry>, exec: string -> Execution<I>,
                                             relpath: (string, string) -> Result<string, Exc>, i: nat, k: string)
    requires WalkModules(directory, walk, exec, relpath).Success?
    requires DistinctRelpaths(directory, walk, relpath)
    requires i < |walk| && RecordedAt(directory, walk, exec, relpath, i, k)
    ensures Get(WalkModules(directory, walk, exec, relpath).value, k)
      == Some(FolderModules(walk[i].folder, walk[i].filenames, exec).value)
    decreases |walk|
  {
    var n := |walk| - 1;
    var pre := walk[..n];
    var d := WalkModules(directory, pre, exec, relpath).value;
    var list := FolderModules(walk[n].folder, walk[n].filenames, exec).value;
    if list != [] {
      PutGet(d, relpath(walk[n].folder, directory).value, list);
    }
    if i < n {
      DistinctRelpathsPrefix(directory, walk, relpath, n);
      RecordedPrefix(directory, walk, exec, relpath, n, i, k);
      GroupingValues(directory, pre, exec, relpath, i, k);
      assert pre[i] == walk[i];
    }
  }
}

/**
  The outer handlers of `collect_modules`, and two concrete passes.
*/
module LoadModulesScenarios {
  import opened Wrappers
  import opened PyStrings
  import opened PyExceptions
  import opened LoadModules

  /** The handlers are tried in the order written: a missing file, then a
      permission error, then any other `OSError`, then any other
      `Exception`; each becomes a `DirectoryError` naming the directory, the
      last two keeping the cause's message, and a `BaseException` that is
      not an `Exception` passes through. */
  lemma DirectoryFailureOrder(directory: string, e: Exc)
    ensures DirectoryFailure(directory, e).kind == DirectoryError <==> IsException(e.kind)
    ensures !IsException(e.kind) ==> DirectoryFailure(directory, e) == e
    ensures IsException(e.kind) ==> Contains(DirectoryFailure(directory, e).text, directory)
    ensures e.kind.FileNotFoundError? ==> DirectoryFailure(directory, e).text == "Directory " + directory + " not found."
    ensures e.kind.PermissionError? ==> DirectoryFailure(directory, e).text == "No permission to access directory " + directory + "."
    ensures IsOSError(e.kind) && !e.kind.FileNotFoundError? && !e.kind.PermissionError? ==>
      DirectoryFailure(directory, e).text == "OS error accessing directory " + directory + ": " + e.text
    ensures IsException(e.kind) && !IsOSError(e.kind) ==>
      DirectoryFailure(directory, e).text == "Unknown error while collecting modules from " + directory + ": " + e.text
  {
    var post := ": " + e.text;
    if e.kind.FileNotFoundError? {
      Framed("Directory ", directory, " not found.");
    } else if e.kind.PermissionError? {
      Framed("No permission to access directory ", directory, ".");
    } else if IsOSError(e.kind) {
      assert "OS error accessing directory " + directory + ": " + e.text == "OS error accessing directory " + directory + post;
      Framed("OS error accessing directory ", directory, post);
    } else if IsException(e.kind) {
      assert "Unknown error while collecting modules from " + directory + ": " + e.text
        == "Unknown error while collecting modules from " + directory + post;
      Framed("Unknown error while collecting modules from ", directory, post);
    }
  }

  /** One `.py` file whose `load()` raises an ordinary exception, in a
      walk of one folder: the inner `ModuleLoadingError` names the file and
      keeps the message, and the generic outer handler rewraps it. */
  lemma FactoryRaisesInFolder<I>(directory: string, folder: string, filename: string, e: Exc,
                                 exec: string -> Execution<I>, relpath: (string, string) -> Result<string, Exc>)
    requires EndsWith(filename, ".py") && exec(PathJoin(folder, filename)) == Factory(Raises(e))
    requires IsException(e.kind)
    ensures Collection(directory, [WalkEntry(folder, [filename])], exec, relpath)
      == Failure(Exc(DirectoryError, "Unknown error while collecting modules from " + directory + ": "
                                     + "Error calling load() in module " + filename + ": " + e.text))
  {
    var inner := FactoryFailure(filename, e);
    assert FileModules(folder, filename, exec) == Failure(inner);
    assert [filename][..0] == [];
    assert FolderModules(folder, [filename], exec) == Failure(inner);
    var walk := [WalkEntry(folder, [filename])];
    assert walk[..0] == [];
    assert WalkModules(directory, walk, exec, relpath) == Failure(inner);
    var pre := "Unknown error while collecting modules from " + directory + ": ";
    assert pre + inner.text == pre + "Error calling load() in module " + filename + ": " + e.text;
  }

  /** A plugin whose `load()` raises `RuntimeError("boom")`: the pass
      returns no grouping, and the caller sees a `DirectoryError` whose
      message names the file and carries "boom". */
  lemma FactoryRaises(relpath: (string, string) -> Result<string, Exc>)
    ensures var exec: string -> Execution<int> := (p: string) => Factory(Raises(Exc(RuntimeError, "boom")));
      Collection("mods", [WalkEntry("mods/net", ["a.py"])], exec, relpath)
      == Failure(Exc(DirectoryError, "Unknown error while collecting modules from " + "mods" + ": "
                                     + "Error calling load() in module " + "a.py" + ": " + "boom"))
  {
    var exec: string -> Execution<int> := (p: string) => Factory(Raises(Exc(RuntimeError, "boom")));
    assert EndsWith("a.py", ".py");
    FactoryRaisesInFolder("mods", "mods/net", "a.py", Exc(RuntimeError, "boom"), exec, relpath);
  }

  /** A folder holding a plugin, a `.py` helper without `load` and a file
      that is not `.py`, walked before an empty folder: the grouping has the
      plugin folder's key alone, with the one instance the plugin made. */
  lemma PluginHelperAndEmptyFolder<I>(directory: string, folder: string, plugin: string, helper: string, other: string,
                                      empty: string, key: string, x: I,
                                      exec: string -> Execution<I>, relpath: (string, string) -> Result<string, Exc>)
    requires EndsWith(plugin, ".py") && EndsWith(helper, ".py") && !EndsWith(other, ".py")
    requires exec(PathJoin(folder, plugin)) == Factory(Returns(x))
    requires exec(PathJoin(folder, helper)) == NoFactory
    requires relpath(folder, directory) == Success(key)
    ensures Collection(directory, [WalkEntry(folder, [plugin, helper, other]), WalkEntry(empty, [])], exec, relpath)
      == Success([(key, [x])])
  {
    var names := [plugin, helper, other];
    assert FileModules(folder, plugin, exec) == Success([x]);
    assert FileModules(folder, helper, exec) == Success([]);
    assert FileModules(folder, other, exec) == Success([]);
    assert names[..2][..1] == [plugin] && names[..1] == [plugin] && [plugin][..0] == [];
    assert FolderModules(folder, [], exec) == Success([]);
    assert [] + [x] == [x];
    assert FolderModules(folder, [plugin], exec) == Success([x]);
    assert names[..2] == [plugin, helper] && [plugin, helper][..1] == [plugin];
    assert [x] + [] == [x];
    assert FolderModules(folder, [plugin, helper], exec) == Success([x]);
    assert FolderModules(folder, names, exec) == Success([x]);
    var walk := [WalkEntry(folder, names), WalkEntry(empty, [])];
    assert walk[..1] == [walk[0]] && walk[..1][..0] == [];
    assert WalkModules(directory, walk[..1], exec, relpath) == Success([(key, [x])]);
  }

  /** A missing root: `os.walk` reports nothing, so the pass succeeds with
      an empty grouping rather than raising. */
  lemma MissingRoot<I>(exec: string -> Execution<I>, relpath: (string, string) -> Result<string, Exc>)
    ensures Collection("missing", [], exec, relpath) == Success([])
  {
  }
}
