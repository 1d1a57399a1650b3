/**
 * The state changes of `xvm add`, `xvm remove` and `xvm use` in
 * `handler.rs`, over the registry, the global workspace and the file
 * system.  Printing, prompting and saving files are not modelled.
 */
module Handler {
  import opened Results
  import opened Text
  import opened Platform
  import opened Workspaces
  import opened VersionRegistry
  import opened Programs
  import opened ShimFiles
  import opened IndexMaps

  /** What the commands read and write. */
  datatype State = State(db: VersionDb, global: Workspace, fs: FileSystem)

  predicate ValidState(s: State) {
    VersionRegistry.Valid(s.db) && Workspaces.Valid(s.global)
  }

  /** Where the shims live and what they are copied from (`baseinfo`). */
  datatype Dirs = Dirs(binDir: string, shimBin: string)

  datatype HandlerError = MalformedEnv(arg: string)

  // ---------------------------------------------------------------- add

  /**
   * One `--env` argument: the first two `=`-separated pieces.  Indexing
   * `parts[1]` panics when there is no `=`.
   */
  function ParseEnvArg(arg: string): (r: Result<(string, string), HandlerError>)
    ensures r.Failure? <==> '=' !in arg
    ensures r.Success? ==> '=' !in r.value.0 && '=' !in r.value.1
  {
    var parts := Split(arg, '=');
    if |parts| < 2 then
      assert '=' !in arg by {
        JoinSplit(arg, '=');
        assert Join(parts, '=') == parts[0];
      }
      Failure(MalformedEnv(arg))
    else
      assert '=' in arg by {
        JoinSplit(arg, '=');
        assert Join(parts, '=') == parts[0] + ['='] + Join(parts[1..], '=');
        assert (parts[0] + ['='] + Join(parts[1..], '='))[|parts[0]|] == '=';
      }
      Success((parts[0], parts[1]))
  }

  /** `K=v` gives `(K, v)`, and `K=a=b` keeps only `a`. */
  lemma ParseEnvArgPieces(k: string, a: string, b: string)
    requires '=' !in k && '=' !in a && '=' !in b
    ensures ParseEnvArg(k + "=" + a) == Success((k, a))
    ensures ParseEnvArg(k + "=" + a + "=" + b) == Success((k, a))
  {
    SplitNoSep(k, '=');
    SplitNoSep(a, '=');
    SplitNoSep(b, '=');
    SplitAppend(k, a, '=');
    SplitAppend(a, b, '=');
    assert k + "=" + a + "=" + b == k + ['='] + (a + ['='] + b);
    SplitAppend(k, a + ['='] + b, '=');
  }

  /** Every `--env` argument parsed, failing on the first malformed one. */
  function ParseEnvArgs(args: seq<string>): (r: Result<seq<(string, string)>, HandlerError>)
    ensures r.Failure? <==> exists i :: 0 <= i < |args| && '=' !in args[i]
    ensures r.Success? ==> |r.value| == |args|
    ensures r.Success? ==> forall i :: 0 <= i < |args| ==> ParseEnvArg(args[i]) == Success(r.value[i])
  {
    if |args| == 0 then Success([])
    else
      match ParseEnvArg(args[0])
      case Failure(e) => Failure(e)
      case Success(kv) =>
        match ParseEnvArgs(args[1..])
        case Failure(e) =>
          assert exists i :: 0 <= i < |args| && '=' !in args[i] by {
            var i :| 0 <= i < |args[1..]| && '=' !in args[1..][i];
            assert args[i + 1] == args[1..][i];
          }
          Failure(e)
        case Success(rest) =>
          assert forall i :: 0 < i < |args| ==> args[i] == args[1..][i - 1];
          Success([kv] + rest)
  }

  /** The arguments of `xvm add`. */
  datatype AddArgs = AddArgs(
    target: string,
    version: string,
    path: Option<string>,
    alias: Option<string>,
    envs: seq<string>)

  /** The program `xvm add` describes: path, then alias, then the variables. */
  function AddProgram(os: Os, a: AddArgs, kvs: seq<(string, string)>): (p: Program)
    ensures Programs.Valid(p)
    ensures p.name == a.target && p.version == a.version
    ensures p.path == a.path.GetOr("") && p.alias == a.alias
    ensures p.vtype.None? && p.filename.None? && p.bindings == [] && p.args == []
    ensures p.envs == PlainEnvs(kvs)
    ensures p.ldLibraryPathEnv == if LibraryValues(kvs) == [] then None else Some(Join(LibraryValues(kvs), SepChar(os)))
    ensures NonEmptyPathValues(kvs) ==>
      var lead := if a.path.GetOr("") == "" then [] else [a.path.GetOr("")];
      p.pathEnv == Join(lead + PathValues(kvs), SepChar(os))
  {
    var p0 := NewProgram(a.target, a.version);
    var p1 := if a.path.Some? then SetPath(os, p0, a.path.value) else p0;
    var p2 := if a.alias.Some? then SetAlias(p1, a.alias.value) else p1;
    var p := if |kvs| > 0 then AddEnvs(os, p2, kvs) else p2;
    AddEnvsPlain(os, p2, kvs);
    AddEnvsLibrary(os, p2, kvs);
    JoinLead(a.path.GetOr(""), PathValues(kvs), SepChar(os));
    if NonEmptyPathValues(kvs) then
      AddEnvsPath(os, p2, kvs);
      p
    else p
  }

  /**
   * `xvm_add`: register the version with the program's record, make it the
   * global default if the target was new, and create the shim.
   */
  function XvmAdd(os: Os, s: State, a: AddArgs, dirs: Dirs): (r: Result<State, HandlerError>)
    requires ValidState(s)
    ensures r.Failure? <==> exists i :: 0 <= i < |a.envs| && '=' !in a.envs[i]
    ensures r.Success? ==> ValidState(r.value)
    ensures r.Success? ==>
      && GetVData(r.value.db, a.target, a.version).Some?
      && GetVData(r.value.db, a.target, a.version).value.path == a.path.GetOr("")
      && GetVData(r.value.db, a.target, a.version).value.alias == a.alias
    ensures r.Success? ==>
      GetVData(r.value.db, a.target, a.version) == Some(ToVData(os, AddProgram(os, a, ParseEnvArgs(a.envs).value)))
    ensures r.Success? ==> forall k :: !IsRouted(k) ==>
      Get(EnvsOf(GetVData(r.value.db, a.target, a.version).value), k) == LastValue(PlainEnvs(ParseEnvArgs(a.envs).value), k)
    ensures r.Success? ==> forall n, v :: (n, v) != (a.target, a.version) ==> GetVData(r.value.db, n, v) == GetVData(s.db, n, v)
    ensures r.Success? && !HasTarget(s.db, a.target) ==> Version(r.value.global, a.target) == Some(a.version)
    ensures r.Success? && HasTarget(s.db, a.target) ==> r.value.global == s.global
    ensures r.Success? ==> forall t :: t != a.target ==> Version(r.value.global, t) == Version(s.global, t)
    ensures r.Success? ==>
      (r.value.global.name, r.value.global.active, r.value.global.inherit) == (s.global.name, s.global.active, s.global.inherit)
    ensures r.Success? ==> Exists(r.value.fs, ShimFile(os, a.target, dirs.binDir))
    ensures r.Success? ==> forall q :: q != ShimFile(os, a.target, dirs.binDir) && q != dirs.binDir ==>
      (q in r.value.fs <==> q in s.fs) && (q in s.fs ==> r.value.fs[q] == s.fs[q])
  {
    var parsed := ParseEnvArgs(a.envs);
    if parsed.Failure? then Failure(parsed.error)
    else
      var program := AddProgram(os, a, parsed.value);
      var global := if IsEmpty(s.db, a.target) then SetVersion(s.global, a.target, a.version) else s.global;
      var db := VersionRegistry.SetVData(s.db, a.target, a.version, ToVData(os, program));
      Success(State(db, global, TryCreate(os, a.target, dirs.binDir, dirs.shimBin, s.fs)))
  }

  /** Adding a second version of a known target leaves the default where it was. */
  lemma SecondAddKeepsDefault(os: Os, s: State, a: AddArgs, b: AddArgs, dirs: Dirs)
    requires ValidState(s)
    requires a.target == b.target
    requires forall i :: 0 <= i < |a.envs| ==> '=' in a.envs[i]
    requires forall i :: 0 <= i < |b.envs| ==> '=' in b.envs[i]
    ensures var r1 := XvmAdd(os, s, a, dirs);
      && r1.Success?
      && var r2 := XvmAdd(os, r1.value, b, dirs);
      && r2.Success?
      && r2.value.global == r1.value.global
  {
    AddRegisters(os, s, a, dirs);
    AddKnownKeepsDefault(os, XvmAdd(os, s, a, dirs).value, b, dirs);
  }

  /** Adding to a known target succeeds with well-formed arguments and keeps the default. */
  lemma AddKnownKeepsDefault(os: Os, s: State, b: AddArgs, dirs: Dirs)
    requires ValidState(s) && HasTarget(s.db, b.target)
    requires forall i :: 0 <= i < |b.envs| ==> '=' in b.envs[i]
    ensures XvmAdd(os, s, b, dirs).Success? && XvmAdd(os, s, b, dirs).value.global == s.global
  {
  }

  /** With well-formed `--env` arguments the add succeeds and the target is then known. */
  lemma AddRegisters(os: Os, s: State, a: AddArgs, dirs: Dirs)
    requires ValidState(s)
    requires forall i :: 0 <= i < |a.envs| ==> '=' in a.envs[i]
    ensures XvmAdd(os, s, a, dirs).Success? && HasVersion(XvmAdd(os, s, a, dirs).value.db, a.target, a.version)
  {
  }

  // ---------------------------------------------------------------- remove

  /**
   * `xvm_remove`: drop one version, or the whole target when no version is
   * given; if the target is then gone from the registry, clear its global
   * selection and delete its shim.  The confirmation prompt's answer is not
   * consulted.
   */
  function XvmRemove(os: Os, s: State, target: string, version: Option<string>, dirs: Dirs): (r: State)
    requires ValidState(s)
    ensures ValidState(r)
    ensures version.None? ==> !HasTarget(r.db, target)
    ensures version.Some? ==> !HasVersion(r.db, target, version.value)
    ensures version.Some? ==> forall v :: v != version.value ==> GetVData(r.db, target, v) == GetVData(s.db, target, v)
    ensures forall n, v :: n != target ==> GetVData(r.db, n, v) == GetVData(s.db, n, v)
    ensures !HasTarget(r.db, target) ==>
      Version(r.global, target).None? && !Exists(r.fs, ShimFile(os, target, dirs.binDir))
    ensures HasTarget(r.db, target) ==> r.global == s.global && r.fs == s.fs
    ensures forall q :: q != ShimFile(os, target, dirs.binDir) ==> (q in r.fs <==> q in s.fs) && (q in s.fs ==> r.fs[q] == s.fs[q])
    ensures forall t :: t != target ==> Version(r.global, t) == Version(s.global, t)
    ensures (r.global.name, r.global.active, r.global.inherit) == (s.global.name, s.global.active, s.global.inherit)
  {
    var db := if version.None? then RemoveAllVData(s.db, target) else RemoveVData(s.db, target, version.value);
    if IsEmpty(db, target) then
      State(db, Workspaces.Remove(s.global, target), Delete(os, target, dirs.binDir, s.fs))
    else State(db, s.global, s.fs)
  }

  /** Removing a version while another remains keeps the target, its default and its shim. */
  lemma RemoveKeepsTargetWithOtherVersions(os: Os, s: State, target: string, v: string, w: string, dirs: Dirs)
    requires ValidState(s)
    requires v != w && HasVersion(s.db, target, w)
    ensures var r := XvmRemove(os, s, target, Some(v), dirs);
      HasTarget(r.db, target) && r.global == s.global && r.fs == s.fs
  {
  }

  /** Adding a new target's only version and removing it again clears the default and the shim. */
  lemma AddThenRemove(os: Os, s: State, a: AddArgs, dirs: Dirs)
    requires ValidState(s)
    requires !HasTarget(s.db, a.target)
    requires forall i :: 0 <= i < |a.envs| ==> '=' in a.envs[i]
    ensures var s1 := XvmAdd(os, s, a, dirs).value;
      var s2 := XvmRemove(os, s1, a.target, Some(a.version), dirs);
      && !HasTarget(s2.db, a.target)
      && Version(s2.global, a.target).None?
      && !Exists(s2.fs, ShimFile(os, a.target, dirs.binDir))
  {
    AddRegisters(os, s, a, dirs);
    var s1 := XvmAdd(os, s, a, dirs).value;
    forall v | v != a.version
      ensures !HasVersion(s1.db, a.target, v)
    {
      assert GetVData(s1.db, a.target, v) == GetVData(s.db, a.target, v);
    }
  }

  // ---------------------------------------------------------------- use

  datatype UseOutcome =
    | Exit(code: int)                                     // `std::process::exit`
    | Used(ws: Workspace, version: string, written: bool) // the workspace after the command

  /**
   * `xvm_use`: refuse an unknown target; an unregistered version is replaced
   * by `match_first_version`, and no match exits too; the workspace (loaded
   * by the caller) is updated and written only when its selection changes.
   */
  function XvmUse(db: VersionDb, target: string, version: string, ws: Workspace): (r: UseOutcome)
    requires Workspaces.Valid(ws)
    ensures r.Exit? ==> r.code == 1
    ensures r.Exit? <==> (!HasTarget(db, target)
      || (!HasVersion(db, target, version) && MatchFirstVersion(db, target, version).None?))
    ensures r.Used? ==> HasVersion(db, target, r.version) && Version(r.ws, target) == Some(r.version)
    ensures r.Used? && HasVersion(db, target, version) ==> r.version == version
    ensures r.Used? && !HasVersion(db, target, version) ==> MatchFirstVersion(db, target, version) == Some(r.version)
    ensures r.Used? ==> (r.written <==> Version(ws, target) != Some(r.version))
    ensures r.Used? && !r.written ==> r.ws == ws
    ensures r.Used? ==> forall t :: t != target ==> Version(r.ws, t) == Version(ws, t)
    ensures r.Used? ==> (r.ws.name, r.ws.active, r.ws.inherit) == (ws.name, ws.active, ws.inherit)
    ensures r.Used? && Version(ws, target).Some? ==> Keys(r.ws.versions) == Keys(ws.versions)
  {
    if !HasTarget(db, target) then Exit(1)
    else
      var chosen := if HasVersion(db, target, version) then Some(version) else MatchFirstVersion(db, target, version);
      match chosen
      case None => Exit(1)
      case Some(v) =>
        if Version(ws, target) != Some(v) then Used(SetVersion(ws, target, v), v, true)
        else Used(ws, v, false)
  }

  /** Repeating `use` with the same arguments writes nothing. */
  lemma UseTwiceWritesOnce(db: VersionDb, target: string, version: string, ws: Workspace)
    requires Workspaces.Valid(ws)
    ensures var once := XvmUse(db, target, version, ws);
      once.Used? ==> XvmUse(db, target, version, once.ws) == Used(once.ws, once.version, false)
  {
  }
}
