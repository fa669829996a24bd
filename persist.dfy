/** File lookup and format dispatch of the persistence layer
    (util/src/Persist.cxx): file extensions, resolving a name against a
    search path, and choosing how `load`, `Parser::load`, `dump` and
    `slurp` read or write a file.  The filesystem is a parameter. */
module Persist {
  import opened Wrappers

  /** What the code asks of the filesystem: the working directory, which
      paths exist, and the canonical form of an existing path. */
  datatype FileSystem = FileSystem(cwd: string, present: string -> bool, canonical: string -> string)

  /** The index of the last `'.'` of `s`, as `std::string::rfind(".")`. */
  function LastDot(s: string): (r: Option<nat>)
    ensures r.None? ==> forall i | 0 <= i < |s| :: s[i] != '.'
    ensures r.Some? ==> r.value < |s| && s[r.value] == '.' && forall i | r.value < i < |s| :: s[i] != '.'
  {
    if s == [] then None
    else if s[|s| - 1] == '.' then Some(|s| - 1)
    else LastDot(s[..|s| - 1])
  }

  /** `file_extension`: the suffix from the last `'.'` on, dot included,
      or `""` when there is no `'.'` (even when that dot is in a directory
      name). */
  function FileExtension(name: string): (r: string)
    ensures r == [] <==> forall i | 0 <= i < |name| :: name[i] != '.'
    ensures r != [] ==> && r[0] == '.' && |r| <= |name| && name[|name| - |r|..] == r
                        && forall i | 1 <= i < |r| :: r[i] != '.'
  {
    match LastDot(name)
    case None => ""
    case Some(i) => name[i..]
  }

  /** `boost::filesystem::path` `dir / name`: a separator is inserted
      unless `dir` is empty or already ends with one. */
  function Join(dir: string, name: string): string
  {
    if dir == [] || dir[|dir| - 1] == '/' then dir + name else dir + "/" + name
  }

  /** The canonical form of the first `dir / name` in `dirs` that exists,
      or `""` when none does. */
  function FirstHit(fs: FileSystem, dirs: seq<string>, name: string): string
  {
    if dirs == [] then ""
    else if Hit(fs, dirs[0], name) then fs.canonical(Join(dirs[0], name))
    else FirstHit(fs, dirs[1..], name)
  }

  /** `dir / name` exists. */
  predicate Hit(fs: FileSystem, dir: string, name: string)
  {
    fs.present(Join(dir, name))
  }

  /** `FirstHit` is `""` when no directory holds `name`. */
  lemma {:induction false} FirstHitNone(fs: FileSystem, dirs: seq<string>, name: string)
    requires forall k | 0 <= k < |dirs| :: !Hit(fs, dirs[k], name)
    ensures FirstHit(fs, dirs, name) == ""
  {
    if dirs != [] {
      assert forall k | 0 <= k < |dirs[1..]| :: dirs[1..][k] == dirs[k + 1];
      FirstHitNone(fs, dirs[1..], name);
    }
  }

  /** `FirstHit` is the canonical path through the earliest directory
      that holds `name`. */
  lemma {:induction false} FirstHitAt(fs: FileSystem, dirs: seq<string>, name: string, k: nat)
    requires k < |dirs| && Hit(fs, dirs[k], name)
    requires forall k' | 0 <= k' < k :: !Hit(fs, dirs[k'], name)
    ensures FirstHit(fs, dirs, name) == fs.canonical(Join(dirs[k], name))
  {
    if k > 0 {
      assert !Hit(fs, dirs[0], name);
      assert forall k' | 0 <= k' < k - 1 :: dirs[1..][k'] == dirs[k' + 1];
      FirstHitAt(fs, dirs[1..], name, k - 1);
    }
  }

  /** `resolve` over search directories `dirs`: `""` stays `""`, an
      absolute name is returned as it is without looking at the
      filesystem, and any other name is looked up in `dirs` in order. */
  function Resolved(fs: FileSystem, dirs: seq<string>, name: string): (r: string)
    ensures name == [] ==> r == []
    ensures name != [] && name[0] == '/' ==> r == name
  {
    if name == [] then ""
    else if name[0] == '/' then name
    else FirstHit(fs, dirs, name)
  }

  /** The first-hit loop shared by both `resolve` functions. */
  method Search(fs: FileSystem, dirs: seq<string>, name: string) returns (r: string)
    ensures r == FirstHit(fs, dirs, name)
  {
    var k := 0;
    while k < |dirs|
      invariant 0 <= k <= |dirs|
      invariant FirstHit(fs, dirs, name) == FirstHit(fs, dirs[k..], name)
    {
      var full := Join(dirs[k], name);
      if fs.present(full) {
        return fs.canonical(full);
      }
      assert dirs[k..][1..] == dirs[k + 1..];
      k := k + 1;
    }
    return "";
  }

  /** `Persist::resolve`: look in the working directory, then in each
      `WIRECELL_PATH` entry, in order. */
  method Resolve(fs: FileSystem, wcPath: seq<string>, name: string) returns (r: string)
    ensures r == Resolved(fs, [fs.cwd] + wcPath, name)
  {
    if name == [] {
      return "";
    }
    if name[0] == '/' {
      return name;
    }
    var tocheck := [fs.cwd];
    var k := 0;
    while k < |wcPath|
      invariant 0 <= k <= |wcPath|
      invariant tocheck == [fs.cwd] + wcPath[..k]
    {
      tocheck := tocheck + [wcPath[k]];
      k := k + 1;
    }
    assert wcPath[..k] == wcPath;
    r := Search(fs, tocheck, name);
  }

  /** Every directory of `dirs` exists. */
  predicate AllPresent(fs: FileSystem, dirs: seq<string>)
  {
    forall i | 0 <= i < |dirs| :: fs.present(dirs[i])
  }

  /** How a file's text is read. */
  datatype Reader = Jsonnet | PlainJson | Bzip2Json

  /** `Persist::load`: a `.jsonnet` file is evaluated, any other is parsed
      as JSON, decompressed first when it ends in `.bz2`; either way the
      name must resolve, or it is an `IOError`. The result is the reader
      and the resolved path it reads. */
  function LoadPlan(fs: FileSystem, wcPath: seq<string>, name: string): (r: Result<(Reader, string)>)
    ensures r.Err? <==> Resolved(fs, [fs.cwd] + wcPath, name) == []
    ensures r.Err? ==> r.error == IOError
    ensures r.Ok? ==> r.value.1 == Resolved(fs, [fs.cwd] + wcPath, name)
    ensures r.Ok? ==> (r.value.0 == Jsonnet <==> FileExtension(name) == ".jsonnet")
    ensures r.Ok? ==> (r.value.0 == Bzip2Json <==> FileExtension(name) == ".bz2")
  {
    var ext := FileExtension(name);
    var fname := Resolved(fs, [fs.cwd] + wcPath, name);
    if fname == [] then Err(IOError)
    else if ext == ".jsonnet" then Ok((Jsonnet, fname))
    else if ext == ".bz2" then Ok((Bzip2Json, fname))
    else Ok((PlainJson, fname))
  }

  /** `dump` compresses exactly when the name ends in `.bz2`. It writes
      to the name as given, without resolving it. */
  function DumpCompresses(name: string): (r: bool)
    ensures r <==> |name| >= 4 && name[|name| - 4..] == ".bz2"
  {
    var ext := FileExtension(name);
    BzSuffix(name);
    ext == ".bz2"
  }

  /** A name's extension is `.bz2` exactly when it ends in `.bz2`. */
  lemma BzSuffix(name: string)
    ensures FileExtension(name) == ".bz2" <==> |name| >= 4 && name[|name| - 4..] == ".bz2"
  {
    var ext := FileExtension(name);
    if |name| >= 4 && name[|name| - 4..] == ".bz2" {
      assert name[|name| - 4] == '.';
      assert LastDot(name) == Some(|name| - 4) by {
        assert name[|name| - 1] == '2' && name[|name| - 2] == 'z' && name[|name| - 3] == 'b';
        assert name[..|name| - 1][..|name| - 2] == name[..|name| - 2];
        assert name[..|name| - 2][..|name| - 3] == name[..|name| - 3];
      }
    }
  }

  /** The file `slurp` reads, as written: it resolves the name and fails
      with `IOError` when that gives `""`, but then opens the name as
      given, relative to the working directory. */
  function SlurpSourceAsWritten(fs: FileSystem, wcPath: seq<string>, name: string): (r: Result<string>)
    ensures r.Err? <==> Resolved(fs, [fs.cwd] + wcPath, name) == []
    ensures r.Ok? ==> r.value == name
  {
    if Resolved(fs, [fs.cwd] + wcPath, name) == [] then Err(IOError) else Ok(name)
  }

  /** The file `slurp` evidently means to read: the resolved one. */
  function SlurpSource(fs: FileSystem, wcPath: seq<string>, name: string): (r: Result<string>)
    ensures r.Err? <==> Resolved(fs, [fs.cwd] + wcPath, name) == []
    ensures r.Ok? ==> r.value == Resolved(fs, [fs.cwd] + wcPath, name)
  {
    var fname := Resolved(fs, [fs.cwd] + wcPath, name);
    if fname == [] then Err(IOError) else Ok(fname)
  }

  /** A filesystem where `a.txt` exists only in the search directory `/p`:
      the file is found, but as written `slurp` then opens `a.txt` in the
      working directory `/w`, where it does not exist, while the
      corrected one reads `/p/a.txt`. */
  lemma SlurpOpensUnresolved()
    ensures var fs := FileSystem("/w", p => p == "/p/a.txt", p => p);
            && SlurpSourceAsWritten(fs, ["/p"], "a.txt") == Ok("a.txt")
            && !fs.present(Join(fs.cwd, "a.txt"))
            && SlurpSource(fs, ["/p"], "a.txt") == Ok("/p/a.txt")
            && fs.present("/p/a.txt")
  {
    var fs := FileSystem("/w", p => p == "/p/a.txt", p => p);
    assert Join("/w", "a.txt") == "/w/a.txt";
    assert Join("/p", "a.txt") == "/p/a.txt";
    assert !Hit(fs, "/w", "a.txt") && Hit(fs, "/p", "a.txt");
    FirstHitAt(fs, [fs.cwd] + ["/p"], "a.txt", 1);
  }

  /** A reader of configuration files with its own search path. */
  class Parser {
    /** `m_load_paths`: where `resolve` looks, in order. */
    var loadPaths: seq<string>
    /** The search directories given to the jsonnet VM, in the order they
        are added to it. */
    var jpaths: seq<string>

    /** `Parser(load_paths, ...)` when every search directory exists: the
        working directory, then the given load paths, then the
        `WIRECELL_PATH` entries; the jsonnet VM gets their canonical forms
        last first, since it searches the most recently added directory
        first. */
    constructor(fs: FileSystem, paths: seq<string>, wcPath: seq<string>)
      requires AllPresent(fs, [fs.cwd] + paths + wcPath)
      ensures loadPaths == [fs.cwd] + paths + wcPath
      ensures |jpaths| == |loadPaths|
      ensures forall i | 0 <= i < |jpaths| :: jpaths[i] == fs.canonical(loadPaths[|loadPaths| - 1 - i])
    {
      var lp := [fs.cwd];
      var k := 0;
      while k < |paths|
        invariant 0 <= k <= |paths|
        invariant lp == [fs.cwd] + paths[..k]
      {
        lp := lp + [paths[k]];
        k := k + 1;
      }
      assert paths[..k] == paths;
      k := 0;
      while k < |wcPath|
        invariant 0 <= k <= |wcPath|
        invariant lp == [fs.cwd] + paths + wcPath[..k]
      {
        lp := lp + [wcPath[k]];
        k := k + 1;
      }
      assert wcPath[..k] == wcPath;
      var jp := [];
      k := |lp|;
      while k > 0
        invariant 0 <= k <= |lp|
        invariant |jp| == |lp| - k
        invariant forall i | 0 <= i < |jp| :: jp[i] == fs.canonical(lp[|lp| - 1 - i])
      {
        k := k - 1;
        jp := jp + [fs.canonical(lp[k])];
      }
      loadPaths := lp;
      jpaths := jp;
    }

    /** `Parser(load_paths, ...)` as a whole: `canonical` throws a
        filesystem error (an `IOError` here) for a search directory that
        does not exist, so no parser is made unless all of them do. The
        directories are canonicalised last first, as the constructor adds
        them to the jsonnet VM. */
    static method Make(fs: FileSystem, paths: seq<string>, wcPath: seq<string>) returns (r: Result<Parser>)
      ensures r.Err? <==> exists i | 0 <= i < |[fs.cwd] + paths + wcPath| :: !fs.present(([fs.cwd] + paths + wcPath)[i])
      ensures r.Err? ==> r.error == IOError
      ensures r.Ok? ==> && fresh(r.value) && r.value.loadPaths == [fs.cwd] + paths + wcPath
                        && |r.value.jpaths| == |r.value.loadPaths|
                        && forall i | 0 <= i < |r.value.jpaths| ::
                             r.value.jpaths[i] == fs.canonical(r.value.loadPaths[|r.value.loadPaths| - 1 - i])
    {
      var lp := [fs.cwd] + paths + wcPath;
      var k := |lp|;
      while k > 0
        invariant 0 <= k <= |lp|
        invariant forall i | k <= i < |lp| :: fs.present(lp[i])
      {
        k := k - 1;
        if !fs.present(lp[k]) {
          return Err(IOError);
        }
      }
      var p := new Parser(fs, paths, wcPath);
      return Ok(p);
    }

    /** `Parser::resolve`: as `Persist::resolve`, over `loadPaths`. */
    method Resolve(fs: FileSystem, name: string) returns (r: string)
      ensures r == Resolved(fs, loadPaths, name)
    {
      if name == [] {
        return "";
      }
      if name[0] == '/' {
        return name;
      }
      r := Search(fs, loadPaths, name);
    }

    /** `Parser::load`: the name must resolve, or it is an `IOError`; a
        `.jsonnet` file or one with no extension is evaluated, any other
        is parsed as JSON, decompressed first when it ends in `.bz2`. */
    function LoadPlan(fs: FileSystem, name: string): (r: Result<(Reader, string)>)
      reads this
      ensures r.Err? <==> Resolved(fs, loadPaths, name) == []
      ensures r.Err? ==> r.error == IOError
      ensures r.Ok? ==> r.value.1 == Resolved(fs, loadPaths, name)
      ensures r.Ok? ==> (r.value.0 == Jsonnet <==> FileExtension(name) in {".jsonnet", ""})
      ensures r.Ok? ==> (r.value.0 == Bzip2Json <==> FileExtension(name) == ".bz2")
    {
      var fname := Resolved(fs, loadPaths, name);
      var ext := FileExtension(name);
      if fname == [] then Err(IOError)
      else if ext == ".jsonnet" || ext == "" then Ok((Jsonnet, fname))
      else if ext == ".bz2" then Ok((Bzip2Json, fname))
      else Ok((PlainJson, fname))
    }
  }

  /** `Persist::load` parses a name without an extension as JSON, where
      `Parser::load` evaluates it as jsonnet. */
  lemma NoExtensionDiffers(fs: FileSystem, wcPath: seq<string>, p: Parser, name: string)
    requires FileExtension(name) == ""
    requires LoadPlan(fs, wcPath, name).Ok? && p.LoadPlan(fs, name).Ok?
    ensures LoadPlan(fs, wcPath, name).value.0 == PlainJson
    ensures p.LoadPlan(fs, name).value.0 == Jsonnet
  {
  }
}
