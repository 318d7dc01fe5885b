// Import paths (src/core/vm/module.c): resolving the path an import
// statement names against the directory of the importing file, and telling
// a native library from a source file by the path's extension.
//
// Paths are modelled as the characters of the C strings. Opening a library
// (dlopen, dlsym, the loader it exports) and reading a source file are not
// modelled; their outcomes are parameters.
module Modules {
  import opened Wrappers

  type Path = string

  /** relpath_canon: what follows the parent directory and its slash, for
      the two relative forms au_module_resolve accepts. "./x" contributes
      x, "../x" contributes itself; anything else is None. */
  function Canonical(relpath: Path): (r: Option<Path>)
  {
    if |relpath| >= 2 && relpath[0] == '.' && relpath[1] == '/' then Some(relpath[2..])
    else if |relpath| >= 3 && relpath[0] == '.' && relpath[1] == '.' && relpath[2] == '/' then Some(relpath)
    else None
  }

  /** au_module_resolve: the parent directory, a slash and the canonical
      relative path; None (a null pointer) for any other form. */
  function Resolve(relpath: Path, parentDir: Path): (r: Option<Path>)
  {
    match Canonical(relpath)
    case None => None
    case Some(c) => Some(parentDir + "/" + c)
  }

  /** "./x" resolves to parent/x. */
  lemma ResolveDotSlash(x: Path, parentDir: Path)
    ensures Resolve("./" + x, parentDir) == Some(parentDir + "/" + x)
  {
    assert ("./" + x)[2..] == x;
  }

  /** "../x" resolves to parent/../x. */
  lemma ResolveDotDot(x: Path, parentDir: Path)
    ensures Resolve("../" + x, parentDir) == Some(parentDir + "/../" + x)
  {
    assert parentDir + "/" + ("../" + x) == parentDir + "/../" + x;
  }

  /** Any path that does not start with "./" or "../" resolves to null;
      an absolute path, a bare name and the empty path among them. */
  lemma ResolveOther(relpath: Path, parentDir: Path)
    ensures Resolve(relpath, parentDir).None? <==>
      !(exists x :: relpath == "./" + x) && !(exists x :: relpath == "../" + x)
  {
    if |relpath| >= 2 && relpath[0] == '.' && relpath[1] == '/' {
      assert relpath == "./" + relpath[2..];
    } else if |relpath| >= 3 && relpath[0] == '.' && relpath[1] == '.' && relpath[2] == '/' {
      assert relpath == "../" + relpath[3..];
    } else {
      forall x ensures relpath != "./" + x && relpath != "../" + x {
        assert ("./" + x)[..2] == "./" && ("../" + x)[..3] == "../";
      }
    }
  }

  /** A resolved path splits back into the parent directory, the slash and
      the canonical relative path. */
  lemma ResolveSplits(relpath: Path, parentDir: Path)
    requires Resolve(relpath, parentDir).Some?
    ensures var r := Resolve(relpath, parentDir).value;
      var c := Canonical(relpath).value;
      |r| == |parentDir| + 1 + |c| && r[..|parentDir|] == parentDir &&
      r[|parentDir|] == '/' && r[|parentDir| + 1..] == c
  {
  }

  // ---- native libraries ---------------------------------------------------------

  /** AU_MODULE_LIB_EXT */
  const LibExt: Path := ".so"

  /** The check au_module_import makes: the path is longer than the
      extension and ends with it. */
  predicate IsLib(abspath: Path)
  {
    |abspath| > |LibExt| && abspath[|abspath| - |LibExt|..] == LibExt
  }

  /** A path is a library exactly when it is some non-empty name followed
      by ".so"; ".so" alone is a source file. */
  lemma IsLibIffSuffix(abspath: Path)
    ensures IsLib(abspath) <==> exists name :: |name| > 0 && abspath == name + LibExt
  {
    if IsLib(abspath) {
      var name := abspath[..|abspath| - |LibExt|];
      assert abspath == name + LibExt;
    }
    forall name | |name| > 0 && abspath == name + LibExt
      ensures IsLib(abspath)
    {
      assert abspath[|abspath| - |LibExt|..] == LibExt;
    }
  }

  /** enum au_module_type */
  datatype ModuleType = Source | Lib

  /** enum au_module_import_result, with the name module.c uses for the
      dynamic-loading failure. */
  datatype ImportResult = Success | SuccessNoModule | Fail | FailDlError

  /** The outcomes of the system calls au_module_import makes: whether
      dlopen gives a handle, whether the handle exports the loader, whether
      the loader returns a program, and whether mmap reads the file. */
  datatype Environment = Environment(libdl: bool, dlopenOk: bool, loaderFound: bool, loaderGivesProgram: bool, mmapOk: bool)

  /** au_module_import: the module type it records (None when it records
      none) and its result. A library path is opened with dlopen when the
      build has it and fails otherwise; any other path is read as source. */
  function Import(abspath: Path, env: Environment): (r: (Option<ModuleType>, ImportResult))
  {
    if IsLib(abspath) then
      if !env.libdl then (None, Fail)
      else if !env.dlopenOk || !env.loaderFound then (Some(Lib), FailDlError)
      else if !env.loaderGivesProgram then (Some(Lib), SuccessNoModule)
      else (Some(Lib), Success)
    else (Some(Source), if env.mmapOk then Success else Fail)
  }

  /** A library path never reads the file and a source path never opens a
      library: each outcome depends only on its own branch's calls. A
      source import succeeds exactly when the file is read. */
  lemma ImportBranches(abspath: Path, env: Environment, env': Environment)
    ensures IsLib(abspath) && env.libdl == env'.libdl && env.dlopenOk == env'.dlopenOk &&
            env.loaderFound == env'.loaderFound && env.loaderGivesProgram == env'.loaderGivesProgram
            ==> Import(abspath, env) == Import(abspath, env')
    ensures !IsLib(abspath) && env.mmapOk == env'.mmapOk ==> Import(abspath, env) == Import(abspath, env')
    ensures !IsLib(abspath) ==> Import(abspath, env).0 == Some(Source) &&
                                 (Import(abspath, env).1 == Success <==> env.mmapOk)
    ensures IsLib(abspath) && Import(abspath, env).1 == Success ==> Import(abspath, env).0 == Some(Lib)
  {
  }
}
