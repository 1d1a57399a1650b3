/**
 * The part of `Program::run` in `shims.rs` that decides what to launch: the
 * executable (through the alias wrapper, or the first existing candidate
 * under the program's path), its argument vector, and the environment it
 * gets.  Spawning the process is not modelled; its outcome is a parameter.
 */
module Launcher {
  import opened Results
  import opened Text
  import opened Platform
  import opened Programs

  const ALIAS_WRAPPER: string := "xvm-alias"

  /** The launcher an alias goes through: `xvm-alias`, with `.bat` on Windows. */
  function AliasWrapper(os: Os): (w: string)
    ensures ALIAS_WRAPPER <= w
  {
    if os == Windows then ALIAS_WRAPPER + ".bat" else ALIAS_WRAPPER
  }

  // ---------------------------------------------------------------- parent

  /**
   * `Path::parent` for `/`-separated paths: `None` for `""` and for the root,
   * `""` for a single relative component, and otherwise everything before the
   * last component with trailing separators dropped (the root stays `/`).
   */
  function Parent(path: string): (r: Option<string>)
    ensures r.Some? ==> |r.value| < |path|
  {
    var t := DropTrailing(path, '/');
    if t == "" then None
    else match LastIndexOf(t, '/')
      case None => Some("")
      case Some(i) =>
        var head := DropTrailing(t[..i], '/');
        if head == "" then Some("/") else Some(head)
  }

  /** Joining a plain name onto a directory and taking the parent gives the directory back. */
  lemma ParentOfJoin(dir: string, name: string)
    requires dir != "" && dir[|dir| - 1] != '/'
    requires name != "" && '/' !in name
    ensures Parent(JoinPath(dir, name)) == Some(dir)
  {
    var q := JoinPath(dir, name);
    assert q == dir + "/" + name;
    assert q[|q| - 1] == name[|name| - 1];
    assert DropTrailing(q, '/') == q;
    var i := LastIndexOf(q, '/');
    assert q[|dir|] == '/';
    assert i == Some(|dir|) by {
      forall j | |dir| < j < |q|
        ensures q[j] != '/'
      {
        assert q[j] == name[j - |dir| - 1];
      }
      LastSlashAt(q, |dir|);
    }
    assert q[..|dir|] == dir;
  }

  lemma LastSlashAt(q: string, k: nat)
    requires k < |q| && q[k] == '/'
    requires forall j :: k < j < |q| ==> q[j] != '/'
    ensures LastIndexOf(q, '/') == Some(k)
  {
    assert q[k] in q;
  }

  // ---------------------------------------------------------------- candidates

  /**
   * The base directory: a relative path is taken under the workspace
   * directory, an absolute one is used as it is.  The workspace directory is
   * always set here, because `init` sets it together with the bin directory
   * that `get_path_env` unwraps.
   */
  function BaseDir(path: string, workspaceDir: string): (b: string)
    ensures !IsRelative(path) ==> b == path
    ensures IsRelative(path) ==> b == JoinPath(workspaceDir, path)
  {
    if IsRelative(path) then JoinPath(workspaceDir, path) else path
  }

  /** The file names probed: `name` elsewhere, `name.exe` then `name.bat` on Windows. */
  function CandidateNames(os: Os, name: string): seq<string> {
    if os == Windows then [name + ".exe", name + ".bat"] else [name]
  }

  /** Every name directly under `base`, then every name under `base/bin`. */
  function Candidates(os: Os, base: string, name: string): (cs: seq<string>)
    ensures |cs| == 2 * |CandidateNames(os, name)|
    ensures forall i :: 0 <= i < |CandidateNames(os, name)| ==>
      cs[i] == JoinPath(base, CandidateNames(os, name)[i])
      && cs[|CandidateNames(os, name)| + i] == JoinPath(JoinPath(base, "bin"), CandidateNames(os, name)[i])
  {
    var names := CandidateNames(os, name);
    Under(base, names) + Under(JoinPath(base, "bin"), names)
  }

  function Under(dir: string, names: seq<string>): (ps: seq<string>)
    ensures |ps| == |names| && forall i :: 0 <= i < |names| ==> ps[i] == JoinPath(dir, names[i])
  {
    if |names| == 0 then [] else [JoinPath(dir, names[0])] + Under(dir, names[1..])
  }

  /** `into_iter().find(|p| p.exists())`. */
  function FirstExisting(fs: FileSystem, cs: seq<string>): (r: Option<nat>)
    ensures r.Some? ==> r.value < |cs| && Exists(fs, cs[r.value])
    ensures r.Some? ==> forall j :: 0 <= j < r.value ==> !Exists(fs, cs[j])
    ensures r.None? <==> forall j :: 0 <= j < |cs| ==> !Exists(fs, cs[j])
  {
    if |cs| == 0 then None
    else if Exists(fs, cs[0]) then Some(0)
    else match FirstExisting(fs, cs[1..])
      case None => None
      case Some(i) => Some(i + 1)
  }

  /** How `run` picks what to execute. */
  datatype Resolution =
    | ByName(command: string, prefix: seq<string>)  // no probing: the name, or the alias wrapper with its words
    | Found(executable: string)                      // the first existing candidate
    | NotFound                                       // `run` prints a hint and returns 1

  function ResolveExecutable(os: Os, p: Program, workspaceDir: string, fs: FileSystem): (r: Resolution)
    ensures p.alias.Some? ==> r == ByName(AliasWrapper(os), SplitWhitespace(p.alias.value))
    ensures p.alias.None? && p.path == "" ==> r == ByName(p.name, [])
    ensures r.Found? ==> p.alias.None? && p.path != ""
    ensures r.Found? ==>
      var cs := Candidates(os, BaseDir(p.path, workspaceDir), p.name);
      exists i :: 0 <= i < |cs| && cs[i] == r.executable && Exists(fs, cs[i])
        && forall j :: 0 <= j < i ==> !Exists(fs, cs[j])
    ensures r.NotFound? <==>
      p.alias.None? && p.path != ""
      && forall c :: c in Candidates(os, BaseDir(p.path, workspaceDir), p.name) ==> !Exists(fs, c)
  {
    if p.alias.Some? then ByName(AliasWrapper(os), SplitWhitespace(p.alias.value))
    else if p.path == "" then ByName(p.name, [])
    else
      var cs := Candidates(os, BaseDir(p.path, workspaceDir), p.name);
      match FirstExisting(fs, cs)
      case None => NotFound
      case Some(i) => Found(cs[i])
  }

  /** With a plain absolute path on Linux, `path/name` wins over `path/bin/name`. */
  lemma DirectBeforeBin(p: Program, workspaceDir: string, fs: FileSystem)
    requires p.alias.None? && p.path != "" && !IsRelative(p.path)
    requires Exists(fs, JoinPath(p.path, p.name))
    ensures ResolveExecutable(Linux, p, workspaceDir, fs) == Found(JoinPath(p.path, p.name))
  {
    var cs := Candidates(Linux, p.path, p.name);
    assert cs[0] == JoinPath(p.path, p.name);
  }

  // ---------------------------------------------------------------- environment

  /**
   * `get_path_env`: the program's `PATH` accumulator in front of the
   * inherited `PATH`, either alone when the other is empty.  The workspace
   * bin (and, on Windows, lib) directories appended first are discarded by
   * the final reassignment, so they never reach the child.
   */
  function PathEnv(os: Os, p: Program, env: Env): (r: string)
    ensures VarOrEmpty(env, "PATH") == "" ==> r == p.pathEnv
    ensures p.pathEnv == "" ==> r == VarOrEmpty(env, "PATH")
  {
    var current := VarOrEmpty(env, "PATH");
    if current == "" then p.pathEnv
    else if p.pathEnv == "" then current
    else p.pathEnv + Separator(os) + current
  }

  /** The search list the child sees: the program's own entries, then the inherited ones. */
  lemma PathEnvEntries(os: Os, p: Program, env: Env)
    requires p.pathEnv != "" && VarOrEmpty(env, "PATH") != ""
    ensures Split(PathEnv(os, p, env), SepChar(os)) == Split(p.pathEnv, SepChar(os)) + Split(VarOrEmpty(env, "PATH"), SepChar(os))
  {
    SplitAppend(p.pathEnv, VarOrEmpty(env, "PATH"), SepChar(os));
  }

  /**
   * The child's `PATH`: the resolved executable's directory goes in front
   * exactly when it differs, as a string, from the program's stored path.
   */
  function ChildPath(os: Os, p: Program, r: Resolution, env: Env): (v: string)
    ensures r.Found? && Parent(r.executable).Some? && Parent(r.executable).value != p.path ==>
      v == Parent(r.executable).value + Separator(os) + PathEnv(os, p, env)
    ensures !(r.Found? && Parent(r.executable).Some? && Parent(r.executable).value != p.path) ==>
      v == PathEnv(os, p, env)
  {
    var base := PathEnv(os, p, env);
    if r.Found? then
      match Parent(r.executable)
      case Some(dir) => if dir != p.path then dir + Separator(os) + base else base
      case None => base
    else base
  }

  /** Found directly under a plain absolute path, the executable adds nothing to `PATH`. */
  lemma DirectAddsNothing(p: Program, env: Env)
    requires p.path != "" && p.path[|p.path| - 1] != '/' && !IsRelative(p.path)
    requires p.name != "" && '/' !in p.name
    ensures ChildPath(Linux, p, Found(JoinPath(p.path, p.name)), env) == PathEnv(Linux, p, env)
  {
    ParentOfJoin(p.path, p.name);
  }

  /** Found under `path/bin`, the executable's directory leads the child's `PATH`. */
  lemma BinLeads(p: Program, env: Env)
    requires p.path != "" && p.path[|p.path| - 1] != '/'
    requires p.name != "" && '/' !in p.name
    ensures var exe := JoinPath(JoinPath(p.path, "bin"), p.name);
      ChildPath(Linux, p, Found(exe), env) == p.path + "/bin" + ":" + PathEnv(Linux, p, env)
  {
    var bin := JoinPath(p.path, "bin");
    assert bin == p.path + "/bin";
    ParentOfJoin(bin, p.name);
    assert bin != p.path;
  }

  const ENV_NULL: string := "XVM_ENV_NULL"

  /**
   * `get_ld_library_path_env`: the variable name and value for the child's
   * library search path.  Nothing accumulated, or an OS other than Linux and
   * macOS, gives the placeholder pair `("XVM_ENV_NULL", "")`.
   */
  function LibraryPathEnv(os: Os, p: Program, libDir: string, env: Env): (r: (string, string))
    ensures r.0 == ENV_NULL <==> p.ldLibraryPathEnv.None? || os !in {Linux, MacOs}
    ensures r.0 == ENV_NULL ==> r.1 == ""
    ensures r.0 != ENV_NULL ==> r.0 == LibraryKey(os)
  {
    match p.ldLibraryPathEnv
    case None => (ENV_NULL, "")
    case Some(acc) =>
      var ld := acc + ":" + libDir;
      if os !in {Linux, MacOs} then (ENV_NULL, "")
      else
        var name := LibraryKey(os);
        var current := VarOrEmpty(env, name);
        if current == "" then (name, ld) else (name, ld + ":" + current)
  }

  /**
   * The library search order: the accumulated directories, then the
   * workspace lib directory, then the inherited ones.
   */
  lemma LibraryPathOrder(os: Os, p: Program, libDir: string, env: Env)
    requires p.ldLibraryPathEnv.Some? && os in {Linux, MacOs}
    ensures var inherited := VarOrEmpty(env, LibraryKey(os));
      Split(LibraryPathEnv(os, p, libDir, env).1, ':') ==
        Split(p.ldLibraryPathEnv.value, ':') + Split(libDir, ':')
        + (if inherited == "" then [] else Split(inherited, ':'))
  {
    var acc := p.ldLibraryPathEnv.value;
    var inherited := VarOrEmpty(env, LibraryKey(os));
    SplitAppend(acc, libDir, ':');
    if inherited != "" {
      var ld := acc + ":" + libDir;
      SplitAppend(ld, inherited, ':');
      assert ld + ":" + inherited == ld + [':'] + inherited;
    }
  }

  /**
   * `build_extended_envs`: each plain variable keeps its key and position;
   * its value is followed by the separator and the inherited value when the
   * variable is set in the environment (even to the empty string).
   */
  function ExtendedEnvs(os: Os, envs: seq<(string, string)>, env: Env): (r: seq<(string, string)>)
    ensures |r| == |envs|
    ensures forall i :: 0 <= i < |r| ==> r[i].0 == envs[i].0
    ensures forall i :: 0 <= i < |r| ==>
      r[i].1 == if envs[i].0 in env then envs[i].1 + Separator(os) + env[envs[i].0] else envs[i].1
  {
    if |envs| == 0 then []
    else
      var (key, val) := envs[0];
      var v := if key in env then val + Separator(os) + env[key] else val;
      [(key, v)] + ExtendedEnvs(os, envs[1..], env)
  }

  // ---------------------------------------------------------------- run

  /** What `run` hands to the operating system. */
  datatype Launch = Launch(
    command: string,
    args: seq<string>,
    path: string,
    library: (string, string),
    envs: seq<(string, string)>)

  /** The status of the spawned child, or the failure to spawn it. */
  datatype SpawnOutcome = Exited(code: Option<int>) | SpawnFailed

  /** `status.code().unwrap_or(1)`, and 1 when the spawn itself failed. */
  function ExitCode(outcome: SpawnOutcome): (code: int)
    ensures outcome == Exited(None) || outcome == SpawnFailed ==> code == 1
    ensures outcome.Exited? && outcome.code.Some? ==> code == outcome.code.value
  {
    match outcome
    case Exited(c) => c.GetOr(1)
    case SpawnFailed => 1
  }

  /**
   * The launch `run` performs, or `None` when no candidate exists and `run`
   * returns 1 without spawning.
   */
  function PlanRun(os: Os, p: Program, workspaceDir: string, libDir: string, fs: FileSystem, env: Env): (l: Option<Launch>)
    ensures l.None? <==> (
      && p.alias.None? && p.path != ""
      && forall c :: c in Candidates(os, BaseDir(p.path, workspaceDir), p.name) ==> !Exists(fs, c))
    ensures l.Some? && p.alias.Some? ==>
      l.value.command == AliasWrapper(os) && l.value.args == SplitWhitespace(p.alias.value) + p.args
    ensures l.Some? && p.alias.None? ==> l.value.args == p.args
    ensures l.Some? && p.alias.None? && p.path == "" ==> l.value.command == p.name
    ensures l.Some? && p.alias.None? && p.path != "" ==>
      var r := ResolveExecutable(os, p, workspaceDir, fs);
      r.Found? && l.value.command == r.executable
    ensures l.Some? ==> l.value.path == ChildPath(os, p, ResolveExecutable(os, p, workspaceDir, fs), env)
    ensures l.Some? ==> l.value.library == LibraryPathEnv(os, p, libDir, env)
    ensures l.Some? ==> l.value.envs == ExtendedEnvs(os, p.envs, env)
  {
    var r := ResolveExecutable(os, p, workspaceDir, fs);
    match r
    case NotFound => None
    case Found(exe) =>
      Some(Launch(exe, p.args, ChildPath(os, p, r, env), LibraryPathEnv(os, p, libDir, env), ExtendedEnvs(os, p.envs, env)))
    case ByName(command, prefix) =>
      Some(Launch(command, prefix + p.args, ChildPath(os, p, r, env), LibraryPathEnv(os, p, libDir, env), ExtendedEnvs(os, p.envs, env)))
  }

  /** `run`'s return value: 1 when nothing was found, else the child's exit code. */
  function Run(os: Os, p: Program, workspaceDir: string, libDir: string, fs: FileSystem, env: Env, outcome: SpawnOutcome): (code: int)
    ensures PlanRun(os, p, workspaceDir, libDir, fs, env).None? ==> code == 1
    ensures PlanRun(os, p, workspaceDir, libDir, fs, env).Some? ==> code == ExitCode(outcome)
  {
    match PlanRun(os, p, workspaceDir, libDir, fs, env)
    case None => 1
    case Some(_) => ExitCode(outcome)
  }
}
