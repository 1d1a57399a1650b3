/**
 * The `Program` of `shims.rs`: what is known about one version of a target
 * before it is launched.  `PATH` and library-path values are collected in
 * their own accumulators; every other variable is kept as a list of pairs.
 */
module Programs {
  import opened Results
  import opened Text
  import opened IndexMaps
  import opened Platform
  import VersionRegistry

  // ---------------------------------------------------------------- ${XLINGS_..}

  const HOME_TOKEN: string := "${XLINGS_HOME}"
  const DATA_TOKEN: string := "${XLINGS_DATA}"
  const SUBOS_TOKEN: string := "${XLINGS_SUBOS}"

  /**
   * `expand_xlings_vars`: replace the three placeholders by the values of
   * `XLINGS_HOME`, `XLINGS_DATA` and `XLINGS_SUBOS` (empty when unset), in
   * that order, so a value substituted early is itself scanned by the later
   * replacements.
   */
  function ExpandXlingsVars(value: string, env: Env): (r: string)
    ensures !Contains(value, HOME_TOKEN) && !Contains(value, DATA_TOKEN) && !Contains(value, SUBOS_TOKEN)
      ==> r == value
  {
    var h, d, u := VarOrEmpty(env, "XLINGS_HOME"), VarOrEmpty(env, "XLINGS_DATA"), VarOrEmpty(env, "XLINGS_SUBOS");
    var r := ReplaceAll(ReplaceAll(ReplaceAll(value, HOME_TOKEN, h), DATA_TOKEN, d), SUBOS_TOKEN, u);
    if !Contains(value, HOME_TOKEN) && !Contains(value, DATA_TOKEN) && !Contains(value, SUBOS_TOKEN) then
      NoTokensUnchanged(value, h, d, u);
      r
    else r
  }

  lemma NoTokensUnchanged(value: string, h: string, d: string, u: string)
    requires !Contains(value, HOME_TOKEN) && !Contains(value, DATA_TOKEN) && !Contains(value, SUBOS_TOKEN)
    ensures ReplaceAll(ReplaceAll(ReplaceAll(value, HOME_TOKEN, h), DATA_TOKEN, d), SUBOS_TOKEN, u) == value
  {
    ReplaceAbsent(value, HOME_TOKEN, h);
    ReplaceAbsent(value, DATA_TOKEN, d);
    ReplaceAbsent(value, SUBOS_TOKEN, u);
  }

  /** A lone `${XLINGS_HOME}` becomes the value of `XLINGS_HOME`. */
  lemma ExpandHome(env: Env)
    requires !Contains(VarOrEmpty(env, "XLINGS_HOME"), DATA_TOKEN)
    requires !Contains(VarOrEmpty(env, "XLINGS_HOME"), SUBOS_TOKEN)
    ensures ExpandXlingsVars(HOME_TOKEN, env) == VarOrEmpty(env, "XLINGS_HOME")
  {
    var home := VarOrEmpty(env, "XLINGS_HOME");
    ReplaceFront(HOME_TOKEN, "", home);
    assert HOME_TOKEN + "" == HOME_TOKEN;
    assert home + "" == home;
    ReplaceAbsent(home, DATA_TOKEN, VarOrEmpty(env, "XLINGS_DATA"));
    ReplaceAbsent(home, SUBOS_TOKEN, VarOrEmpty(env, "XLINGS_SUBOS"));
  }

  /**
   * Order matters: when `XLINGS_HOME` itself reads `${XLINGS_DATA}`, the
   * home placeholder ends up as the value of `XLINGS_DATA`.
   */
  lemma ExpandCascades(env: Env)
    requires VarOrEmpty(env, "XLINGS_HOME") == DATA_TOKEN
    requires !Contains(VarOrEmpty(env, "XLINGS_DATA"), SUBOS_TOKEN)
    ensures ExpandXlingsVars(HOME_TOKEN, env) == VarOrEmpty(env, "XLINGS_DATA")
  {
    var data := VarOrEmpty(env, "XLINGS_DATA");
    ReplaceFront(HOME_TOKEN, "", DATA_TOKEN);
    assert HOME_TOKEN + "" == HOME_TOKEN;
    assert DATA_TOKEN + "" == DATA_TOKEN;
    ReplaceFront(DATA_TOKEN, "", data);
    assert data + "" == data;
    ReplaceAbsent(data, SUBOS_TOKEN, VarOrEmpty(env, "XLINGS_SUBOS"));
  }

  /**
   * In text whose only `$` starts the placeholder `t`, a different
   * placeholder `tok` (they differ at position `k`) does not occur.
   */
  lemma OtherTokenAbsent(a: string, t: string, b: string, tok: string, k: nat)
    requires '$' !in a && '$' !in b
    requires |t| > 0 && t[0] == '$' && '$' !in t[1..]
    requires |tok| > 0 && tok[0] == '$'
    requires k < |t| && k < |tok| && t[k] != tok[k]
    ensures !Contains(a + t + b, tok)
  {
  }

  /**
   * `${XLINGS_HOME}` anywhere in a value: with no other `$` in the value or
   * in the variables, it becomes the value of `XLINGS_HOME` and nothing else
   * changes.
   */
  lemma ExpandHomeIn(a: string, b: string, env: Env)
    requires '$' !in a && '$' !in b
    requires '$' !in VarOrEmpty(env, "XLINGS_HOME")
    ensures ExpandXlingsVars(a + HOME_TOKEN + b, env) == a + VarOrEmpty(env, "XLINGS_HOME") + b
  {
    var home := VarOrEmpty(env, "XLINGS_HOME");
    assert HOME_TOKEN[0] == '$';
    ReplaceMiddle(a, HOME_TOKEN, b, home);
    LeadAbsent(b, HOME_TOKEN);
    ReplaceAbsent(b, HOME_TOKEN, home);
    var x := a + home + b;
    LeadAbsent(x, DATA_TOKEN);
    ReplaceAbsent(x, DATA_TOKEN, VarOrEmpty(env, "XLINGS_DATA"));
    LeadAbsent(x, SUBOS_TOKEN);
    ReplaceAbsent(x, SUBOS_TOKEN, VarOrEmpty(env, "XLINGS_SUBOS"));
  }

  /** `${XLINGS_DATA}` anywhere in a value becomes the value of `XLINGS_DATA`. */
  lemma ExpandDataIn(a: string, b: string, env: Env)
    requires '$' !in a && '$' !in b
    requires '$' !in VarOrEmpty(env, "XLINGS_DATA")
    ensures ExpandXlingsVars(a + DATA_TOKEN + b, env) == a + VarOrEmpty(env, "XLINGS_DATA") + b
  {
    var data := VarOrEmpty(env, "XLINGS_DATA");
    assert DATA_TOKEN[0] == '$' && '$' !in DATA_TOKEN[1..];
    assert HOME_TOKEN[0] == '$' && DATA_TOKEN[9] != HOME_TOKEN[9];
    OtherTokenAbsent(a, DATA_TOKEN, b, HOME_TOKEN, 9);
    ReplaceAbsent(a + DATA_TOKEN + b, HOME_TOKEN, VarOrEmpty(env, "XLINGS_HOME"));
    ReplaceMiddle(a, DATA_TOKEN, b, data);
    LeadAbsent(b, DATA_TOKEN);
    ReplaceAbsent(b, DATA_TOKEN, data);
    var x := a + data + b;
    LeadAbsent(x, SUBOS_TOKEN);
    ReplaceAbsent(x, SUBOS_TOKEN, VarOrEmpty(env, "XLINGS_SUBOS"));
  }

  /** `${XLINGS_SUBOS}` anywhere in a value becomes the value of `XLINGS_SUBOS`. */
  lemma ExpandSubosIn(a: string, b: string, env: Env)
    requires '$' !in a && '$' !in b
    requires '$' !in VarOrEmpty(env, "XLINGS_SUBOS")
    ensures ExpandXlingsVars(a + SUBOS_TOKEN + b, env) == a + VarOrEmpty(env, "XLINGS_SUBOS") + b
  {
    var subos := VarOrEmpty(env, "XLINGS_SUBOS");
    var s := a + SUBOS_TOKEN + b;
    assert SUBOS_TOKEN[0] == '$' && '$' !in SUBOS_TOKEN[1..];
    assert HOME_TOKEN[0] == '$' && SUBOS_TOKEN[9] != HOME_TOKEN[9];
    assert DATA_TOKEN[0] == '$' && SUBOS_TOKEN[9] != DATA_TOKEN[9];
    OtherTokenAbsent(a, SUBOS_TOKEN, b, HOME_TOKEN, 9);
    ReplaceAbsent(s, HOME_TOKEN, VarOrEmpty(env, "XLINGS_HOME"));
    OtherTokenAbsent(a, SUBOS_TOKEN, b, DATA_TOKEN, 9);
    ReplaceAbsent(s, DATA_TOKEN, VarOrEmpty(env, "XLINGS_DATA"));
    ReplaceMiddle(a, SUBOS_TOKEN, b, subos);
    LeadAbsent(b, SUBOS_TOKEN);
    ReplaceAbsent(b, SUBOS_TOKEN, subos);
  }

  /** The value half of a list of pairs expanded, the keys kept. */
  function ExpandValues(envs: seq<(string, string)>, env: Env): (r: seq<(string, string)>)
    ensures |r| == |envs|
    ensures forall i :: 0 <= i < |r| ==> r[i] == (envs[i].0, ExpandXlingsVars(envs[i].1, env))
  {
    if |envs| == 0 then []
    else [(envs[0].0, ExpandXlingsVars(envs[0].1, env))] + ExpandValues(envs[1..], env)
  }

  // ---------------------------------------------------------------- Program

  datatype Program = Program(
    name: string,
    version: string,
    vtype: Option<string>,
    filename: Option<string>,
    alias: Option<string>,
    path: string,
    pathEnv: string,
    ldLibraryPathEnv: Option<string>,
    envs: seq<(string, string)>,
    bindings: seq<(string, string)>,
    args: seq<string>)

  /** The variables `add_env` diverts into an accumulator. */
  predicate IsLibraryKey(key: string) {
    key == "LD_LIBRARY_PATH" || key == "DYLD_LIBRARY_PATH"
  }

  predicate IsRouted(key: string) {
    key == "PATH" || IsLibraryKey(key)
  }

  /**
   * What every `Program` built through its methods satisfies: the bindings
   * form a map, and no routed variable sits in the plain list.
   */
  predicate Valid(p: Program) {
    && DistinctKeys(p.bindings)
    && forall i :: 0 <= i < |p.envs| ==> !IsRouted(p.envs[i].0)
  }

  /** `Program::new`. */
  function NewProgram(name: string, version: string): (p: Program)
    ensures Valid(p)
    ensures p.name == name && p.version == version
    ensures p.vtype.None? && p.filename.None? && p.alias.None?
    ensures p.path == "" && p.pathEnv == "" && p.ldLibraryPathEnv.None?
    ensures p.envs == [] && p.bindings == [] && p.args == []
  {
    Program(name, version, None, None, None, "", "", None, [], [], [])
  }

  function SetType(p: Program, vtype: string): (r: Program)
    ensures r.vtype == Some(vtype) && r == p.(vtype := r.vtype)
  {
    p.(vtype := Some(vtype))
  }

  function SetFilename(p: Program, filename: string): (r: Program)
    ensures r.filename == Some(filename) && r == p.(filename := r.filename)
  {
    p.(filename := Some(filename))
  }

  function SetAlias(p: Program, alias: string): (r: Program)
    ensures r.alias == Some(alias) && r == p.(alias := r.alias)
  {
    p.(alias := Some(alias))
  }

  /** The accumulator after one more value: a separator only when it already held something. */
  function Accumulate(acc: string, sep: string, value: string): (r: string)
    ensures |r| == |acc| + |value| + (if acc == "" then 0 else |sep|)
    ensures acc <= r && r[|r| - |value|..] == value
  {
    if acc == "" then value else acc + sep + value
  }

  /**
   * `add_env`: `PATH` goes to the path accumulator, `LD_LIBRARY_PATH` and
   * `DYLD_LIBRARY_PATH` to the library accumulator (whose separator depends
   * on whether it is `None`, not whether it is empty), and anything else is
   * appended to the plain list.
   */
  function AddEnv(os: Os, p: Program, key: string, value: string): (r: Program)
    requires Valid(p)
    ensures Valid(r)
    ensures key == "PATH" ==>
      r == p.(pathEnv := r.pathEnv) && r.pathEnv == Accumulate(p.pathEnv, Separator(os), value)
    ensures IsLibraryKey(key) ==>
      r == p.(ldLibraryPathEnv := r.ldLibraryPathEnv)
      && r.ldLibraryPathEnv.Some?
      && p.ldLibraryPathEnv.GetOr("") <= r.ldLibraryPathEnv.value
      && |r.ldLibraryPathEnv.value| == |p.ldLibraryPathEnv.GetOr("")| + |value| + (if p.ldLibraryPathEnv.None? then 0 else 1)
      && r.ldLibraryPathEnv.value[|r.ldLibraryPathEnv.value| - |value|..] == value
    ensures !IsRouted(key) ==> r == p.(envs := p.envs + [(key, value)])
  {
    if key == "PATH" then
      p.(pathEnv := Accumulate(p.pathEnv, Separator(os), value))
    else if IsLibraryKey(key) then
      var spe := if p.ldLibraryPathEnv.None? then "" else Separator(os);
      p.(ldLibraryPathEnv := Some(p.ldLibraryPathEnv.GetOr("") + spe + value))
    else
      p.(envs := p.envs + [(key, value)])
  }

  /** `add_envs`: `add_env` for each pair in order. */
  function AddEnvs(os: Os, p: Program, kvs: seq<(string, string)>): (r: Program)
    requires Valid(p)
    ensures Valid(r)
    ensures r == p.(pathEnv := r.pathEnv, ldLibraryPathEnv := r.ldLibraryPathEnv, envs := r.envs)
    ensures p.envs <= r.envs
    decreases |kvs|
  {
    if |kvs| == 0 then p
    else
      var (k, v) := kvs[|kvs| - 1];
      AddEnv(os, AddEnvs(os, p, kvs[..|kvs| - 1]), k, v)
  }

  /** The `PATH` values of a list of pairs, in order. */
  function PathValues(kvs: seq<(string, string)>): seq<string>
    decreases |kvs|
  {
    if |kvs| == 0 then []
    else
      var init := PathValues(kvs[..|kvs| - 1]);
      if kvs[|kvs| - 1].0 == "PATH" then init + [kvs[|kvs| - 1].1] else init
  }

  /** The library-path values of a list of pairs, in order. */
  function LibraryValues(kvs: seq<(string, string)>): seq<string>
    decreases |kvs|
  {
    if |kvs| == 0 then []
    else
      var init := LibraryValues(kvs[..|kvs| - 1]);
      if IsLibraryKey(kvs[|kvs| - 1].0) then init + [kvs[|kvs| - 1].1] else init
  }

  /** The pairs that are not routed, in order. */
  function PlainEnvs(kvs: seq<(string, string)>): seq<(string, string)>
    decreases |kvs|
  {
    if |kvs| == 0 then []
    else
      var init := PlainEnvs(kvs[..|kvs| - 1]);
      if IsRouted(kvs[|kvs| - 1].0) then init else init + [kvs[|kvs| - 1]]
  }

  predicate NonEmptyPathValues(kvs: seq<(string, string)>) {
    forall i :: 0 <= i < |kvs| && kvs[i].0 == "PATH" ==> kvs[i].1 != ""
  }

  /**
   * Starting from a fresh program, the accumulators are the separator-joined
   * `PATH` and library values and the plain list is everything else, each in
   * call order.  (An empty `PATH` value in front would be swallowed, hence
   * the condition.)
   */
  lemma {:induction false} AddEnvsAccumulates(os: Os, name: string, version: string, kvs: seq<(string, string)>)
    requires NonEmptyPathValues(kvs)
    ensures var r := AddEnvs(os, NewProgram(name, version), kvs);
      && r.pathEnv == Join(PathValues(kvs), SepChar(os))
      && r.ldLibraryPathEnv == (if LibraryValues(kvs) == [] then None else Some(Join(LibraryValues(kvs), SepChar(os))))
      && r.envs == PlainEnvs(kvs)
    decreases |kvs|
  {
    if |kvs| > 0 {
      var init := kvs[..|kvs| - 1];
      var (k, v) := kvs[|kvs| - 1];
      assert NonEmptyPathValues(init) by {
        forall i | 0 <= i < |init| && init[i].0 == "PATH"
          ensures init[i].1 != ""
        {
          assert init[i] == kvs[i];
        }
      }
      AddEnvsAccumulates(os, name, version, init);
      var q := AddEnvs(os, NewProgram(name, version), init);
      if k == "PATH" {
        PathJoinNonEmpty(init);
        if PathValues(init) != [] {
          JoinSnoc(PathValues(init), v, SepChar(os));
        }
      } else if IsLibraryKey(k) {
        if LibraryValues(init) != [] {
          JoinSnoc(LibraryValues(init), v, SepChar(os));
        }
      }
    }
  }

  /** Non-empty `PATH` values join to an empty string only when there are none. */
  lemma PathJoinNonEmpty(kvs: seq<(string, string)>)
    requires NonEmptyPathValues(kvs)
    ensures PathValues(kvs) != [] ==> Join(PathValues(kvs), ':') != "" && Join(PathValues(kvs), ';') != ""
  {
    if PathValues(kvs) != [] {
      PathValuesNonEmpty(kvs);
      var vs := PathValues(kvs);
      assert vs[0] != "";
    }
  }

  lemma {:induction false} PathValuesNonEmpty(kvs: seq<(string, string)>)
    requires NonEmptyPathValues(kvs)
    ensures forall i :: 0 <= i < |PathValues(kvs)| ==> PathValues(kvs)[i] != ""
    decreases |kvs|
  {
    if |kvs| > 0 {
      var init := kvs[..|kvs| - 1];
      assert forall i :: 0 <= i < |init| ==> init[i] == kvs[i];
      PathValuesNonEmpty(init);
    }
  }

  /** `add_envs` on any program appends the plain pairs to its list, in order. */
  lemma {:induction false} AddEnvsPlain(os: Os, p: Program, kvs: seq<(string, string)>)
    requires Valid(p)
    ensures AddEnvs(os, p, kvs).envs == p.envs + PlainEnvs(kvs)
    decreases |kvs|
  {
    if |kvs| == 0 {
      assert p.envs + [] == p.envs;
    } else {
      var init := kvs[..|kvs| - 1];
      var (k, v) := kvs[|kvs| - 1];
      AddEnvsPlain(os, p, init);
      if !IsRouted(k) {
        assert p.envs + PlainEnvs(init) + [(k, v)] == p.envs + (PlainEnvs(init) + [(k, v)]);
      }
    }
  }

  /**
   * `add_envs` on any program extends its library accumulator by the
   * library values, with a separator in front when the accumulator was
   * already set.
   */
  lemma {:induction false} AddEnvsLibrary(os: Os, p: Program, kvs: seq<(string, string)>)
    requires Valid(p)
    ensures AddEnvs(os, p, kvs).ldLibraryPathEnv ==
      if LibraryValues(kvs) == [] then p.ldLibraryPathEnv
      else if p.ldLibraryPathEnv.None? then Some(Join(LibraryValues(kvs), SepChar(os)))
      else Some(p.ldLibraryPathEnv.value + Separator(os) + Join(LibraryValues(kvs), SepChar(os)))
    decreases |kvs|
  {
    if |kvs| > 0 {
      var init := kvs[..|kvs| - 1];
      var (k, v) := kvs[|kvs| - 1];
      AddEnvsLibrary(os, p, init);
      var q := AddEnvs(os, p, init);
      assert AddEnvs(os, p, kvs) == AddEnv(os, q, k, v);
      if !IsLibraryKey(k) {
        assert LibraryValues(kvs) == LibraryValues(init);
      } else {
        assert LibraryValues(kvs) == LibraryValues(init) + [v];
        LibraryStep(p.ldLibraryPathEnv, SepChar(os), LibraryValues(init), v);
      }
    }
  }

  /**
   * `add_envs` on any program, when no `PATH` value is empty, extends its
   * path accumulator by the `PATH` values.
   */
  lemma {:induction false} AddEnvsPath(os: Os, p: Program, kvs: seq<(string, string)>)
    requires Valid(p) && NonEmptyPathValues(kvs)
    ensures AddEnvs(os, p, kvs).pathEnv ==
      if PathValues(kvs) == [] then p.pathEnv
      else Accumulate(p.pathEnv, Separator(os), Join(PathValues(kvs), SepChar(os)))
    decreases |kvs|
  {
    if |kvs| > 0 {
      var init := kvs[..|kvs| - 1];
      var (k, v) := kvs[|kvs| - 1];
      assert NonEmptyPathValues(init) by {
        forall i | 0 <= i < |init| && init[i].0 == "PATH"
          ensures init[i].1 != ""
        {
          assert init[i] == kvs[i];
        }
      }
      AddEnvsPath(os, p, init);
      var q := AddEnvs(os, p, init);
      assert AddEnvs(os, p, kvs) == AddEnv(os, q, k, v);
      if k != "PATH" {
        assert PathValues(kvs) == PathValues(init);
      } else {
        assert PathValues(kvs) == PathValues(init) + [v];
        PathJoinNonEmpty(init);
        PathStep(p.pathEnv, SepChar(os), PathValues(init), v);
      }
    }
  }

  /**
   * A path accumulator seeded with `x` and extended by the non-empty join of
   * `vs` is the join of `x` (left out when empty) followed by `vs`.
   */
  lemma JoinLead(x: string, vs: seq<string>, c: char)
    ensures Join((if x == "" then [] else [x]) + vs, c) ==
      if vs == [] then x else Accumulate(x, [c], Join(vs, c))
  {
    if x == "" {
      assert [] + vs == vs;
    } else {
      var parts := [x] + vs;
      assert parts[0] == x && parts[1..] == vs;
    }
  }

  /** One more value on a library accumulator that already took `vs`. */
  lemma LibraryStep(start: Option<string>, c: char, vs: seq<string>, v: string)
    ensures var acc :=
        if vs == [] then start
        else if start.None? then Some(Join(vs, c))
        else Some(start.value + [c] + Join(vs, c));
      Some(acc.GetOr("") + (if acc.None? then "" else [c]) + v) ==
        if start.None? then Some(Join(vs + [v], c))
        else Some(start.value + [c] + Join(vs + [v], c))
  {
    if vs == [] {
      assert vs + [v] == [v];
      assert Join([v], c) == v;
      assert "" + "" + v == v;
    } else {
      var j := Join(vs, c);
      JoinSnoc(vs, v, c);
      if start.Some? {
        assert start.value + [c] + (j + [c] + v) == start.value + [c] + j + [c] + v;
      }
    }
  }

  /** One more value on a path accumulator that already took the non-empty join of `vs`. */
  lemma PathStep(start: string, c: char, vs: seq<string>, v: string)
    requires vs != [] ==> Join(vs, c) != ""
    ensures var acc := if vs == [] then start else Accumulate(start, [c], Join(vs, c));
      Accumulate(acc, [c], v) == Accumulate(start, [c], Join(vs + [v], c))
  {
    if vs == [] {
      assert vs + [v] == [v];
    } else {
      var j := Join(vs, c);
      JoinSnoc(vs, v, c);
      if start != "" {
        assert start + [c] + (j + [c] + v) == start + [c] + j + [c] + v;
      }
    }
  }

  /** `add_binding`: insert or overwrite (in place) a binding. */
  function AddBinding(p: Program, target: string, version: string): (r: Program)
    requires Valid(p)
    ensures Valid(r)
    ensures Get(r.bindings, target) == Some(version)
    ensures forall t :: t != target ==> Get(r.bindings, t) == Get(p.bindings, t)
    ensures r == p.(bindings := r.bindings)
  {
    p.(bindings := Insert(p.bindings, target, version))
  }

  /** `set_path`: record the path and feed it to the `PATH` accumulator too. */
  function SetPath(os: Os, p: Program, path: string): (r: Program)
    requires Valid(p)
    ensures Valid(r)
    ensures r.path == path
    ensures r.pathEnv == Accumulate(p.pathEnv, Separator(os), path)
    ensures r == p.(path := path, pathEnv := r.pathEnv)
  {
    AddEnv(os, p, "PATH", path).(path := path)
  }

  /** `add_arg`: the argument goes last; nothing else changes. */
  function AddArg(p: Program, arg: string): (r: Program)
    ensures |r.args| == |p.args| + 1 && p.args <= r.args && r.args[|p.args|] == arg
    ensures r == p.(args := r.args)
  {
    p.(args := p.args + [arg])
  }

  /** `add_args`: the arguments follow the existing ones in order; nothing else changes. */
  function AddArgs(p: Program, args: seq<string>): (r: Program)
    ensures |r.args| == |p.args| + |args| && p.args <= r.args
    ensures forall i :: 0 <= i < |args| ==> r.args[|p.args| + i] == args[i]
    ensures r == p.(args := r.args)
  {
    p.(args := p.args + args)
  }

  /** `add_args` is `add_arg` for each argument in order. */
  lemma AddArgsOneByOne(p: Program, args: seq<string>, arg: string)
    ensures AddArgs(p, args + [arg]) == AddArg(AddArgs(p, args), arg)
  {
    assert p.args + (args + [arg]) == p.args + args + [arg];
  }

  // ---------------------------------------------------------------- VData

  /** The name under which `vdata` stores the library accumulator. */
  function LibraryKey(os: Os): (k: string)
    ensures IsLibraryKey(k)
  {
    if os == Linux then "LD_LIBRARY_PATH" else "DYLD_LIBRARY_PATH"
  }

  /** The pairs `vdata` collects: the plain list, then `PATH`, then the library path. */
  function CollectedEnvs(os: Os, p: Program): seq<(string, string)> {
    p.envs
    + (if p.pathEnv != "" then [("PATH", p.pathEnv)] else [])
    + (if p.ldLibraryPathEnv.Some? then [(LibraryKey(os), p.ldLibraryPathEnv.value)] else [])
  }

  /** A record's `envs`, with `None` read as no variables. */
  function EnvsOf(d: VersionRegistry.VData): seq<(string, string)> {
    d.envs.GetOr([])
  }

  /**
   * `vdata`: pack the program into a registry record.  `envs` is `None`
   * exactly when there is nothing to store; inside it a later pair for the
   * same variable overwrites an earlier one.
   */
  function ToVData(os: Os, p: Program): (d: VersionRegistry.VData)
    requires Valid(p)
    ensures d.alias == p.alias && d.path == p.path && d.icon.None?
    ensures d.envs.None? <==> p.envs == [] && p.pathEnv == "" && p.ldLibraryPathEnv.None?
    ensures d.envs.Some? ==> DistinctKeys(d.envs.value)
    ensures Get(EnvsOf(d), "PATH") == if p.pathEnv == "" then None else Some(p.pathEnv)
    ensures Get(EnvsOf(d), LibraryKey(os)) == p.ldLibraryPathEnv
    ensures forall k :: !IsRouted(k) ==> Get(EnvsOf(d), k) == LastValue(p.envs, k)
    ensures forall k :: IsLibraryKey(k) && k != LibraryKey(os) ==> Get(EnvsOf(d), k).None?
    ensures d.bindings.None? <==> p.bindings == []
    ensures d.bindings.Some? ==> d.bindings.value == p.bindings
  {
    var tmp := CollectedEnvs(os, p);
    var d := VersionRegistry.VData(
      p.alias, p.path, None,
      if tmp == [] then None else Some(InsertAll([], tmp)),
      if p.bindings == [] then None else Some(p.bindings));
    CollectedLookup(os, p);
    CollectedOtherLibrary(os, p);
    d
  }

  lemma CollectedLookup(os: Os, p: Program)
    requires Valid(p)
    ensures var m := InsertAll([], CollectedEnvs(os, p));
      && Get(m, "PATH") == (if p.pathEnv == "" then None else Some(p.pathEnv))
      && Get(m, LibraryKey(os)) == p.ldLibraryPathEnv
      && forall k :: !IsRouted(k) ==> Get(m, k) == LastValue(p.envs, k)
  {
    CollectedKey(os, p, "PATH");
    CollectedKey(os, p, LibraryKey(os));
    forall k | !IsRouted(k)
      ensures Get(InsertAll([], CollectedEnvs(os, p)), k) == LastValue(p.envs, k)
    {
      CollectedKey(os, p, k);
    }
  }

  /** The library variable of the other platform is never collected. */
  lemma CollectedOtherLibrary(os: Os, p: Program)
    requires Valid(p)
    ensures forall k :: IsLibraryKey(k) && k != LibraryKey(os) ==> Get(InsertAll([], CollectedEnvs(os, p)), k).None?
  {
    forall k | IsLibraryKey(k) && k != LibraryKey(os)
      ensures Get(InsertAll([], CollectedEnvs(os, p)), k).None?
    {
      CollectedKey(os, p, k);
    }
  }

  /** One key of the collected map: the library entry beats `PATH`, which beats the plain list. */
  lemma CollectedKey(os: Os, p: Program, k: string)
    ensures var pathPart: seq<(string, string)> := if p.pathEnv != "" then [("PATH", p.pathEnv)] else [];
      var libPart: seq<(string, string)> := if p.ldLibraryPathEnv.Some? then [(LibraryKey(os), p.ldLibraryPathEnv.value)] else [];
      Get(InsertAll([], CollectedEnvs(os, p)), k) ==
        if LastValue(libPart, k).Some? then LastValue(libPart, k)
        else if LastValue(pathPart, k).Some? then LastValue(pathPart, k)
        else LastValue(p.envs, k)
  {
    var pathPart: seq<(string, string)> := if p.pathEnv != "" then [("PATH", p.pathEnv)] else [];
    var libPart: seq<(string, string)> := if p.ldLibraryPathEnv.Some? then [(LibraryKey(os), p.ldLibraryPathEnv.value)] else [];
    var tmp := CollectedEnvs(os, p);
    assert tmp == p.envs + pathPart + libPart;
    InsertAllLast([], tmp, k);
    LastValueAppend(p.envs + pathPart, libPart, k);
    LastValueAppend(p.envs, pathPart, k);
  }

  /**
   * `set_vdata`: load a registry record into the program.  The path goes
   * through `set_path` (and so into the `PATH` accumulator), every variable
   * through `add_env` after placeholder expansion, `bindings` replaces the
   * map only when present, and `alias` is always overwritten.
   */
  function SetVData(os: Os, p: Program, d: VersionRegistry.VData, env: Env): (r: Program)
    requires Valid(p)
    ensures (d.bindings.Some? ==> DistinctKeys(d.bindings.value)) ==> Valid(r)
    ensures r.path == ExpandXlingsVars(d.path, env)
    ensures r.alias == d.alias
    ensures r.bindings == d.bindings.GetOr(p.bindings)
    ensures (r.name, r.version, r.vtype, r.filename, r.args) == (p.name, p.version, p.vtype, p.filename, p.args)
    ensures p.envs <= r.envs
    ensures r.envs == p.envs + PlainEnvs(ExpandValues(EnvsOf(d), env))
    ensures var lib := LibraryValues(ExpandValues(EnvsOf(d), env));
      r.ldLibraryPathEnv ==
        if lib == [] then p.ldLibraryPathEnv
        else if p.ldLibraryPathEnv.None? then Some(Join(lib, SepChar(os)))
        else Some(p.ldLibraryPathEnv.value + Separator(os) + Join(lib, SepChar(os)))
  {
    var withPath := SetPath(os, p, ExpandXlingsVars(d.path, env));
    var withEnvs := if d.envs.Some? then AddEnvs(os, withPath, ExpandValues(d.envs.value, env)) else withPath;
    var withBindings := if d.bindings.Some? then withEnvs.(bindings := d.bindings.value) else withEnvs;
    AddEnvsPlain(os, withPath, ExpandValues(EnvsOf(d), env));
    AddEnvsLibrary(os, withPath, ExpandValues(EnvsOf(d), env));
    withBindings.(alias := d.alias)
  }

  /**
   * `load_program` loads a record into a fresh program: the `PATH`
   * accumulator is the record's path followed by its `PATH` values, the
   * library accumulator its library values, and the plain list the rest,
   * each expanded and in stored order.
   */
  lemma LoadFresh(os: Os, name: string, version: string, d: VersionRegistry.VData, env: Env)
    ensures var kvs := ExpandValues(EnvsOf(d), env);
      var r := SetVData(os, NewProgram(name, version), d, env);
      && r.envs == PlainEnvs(kvs)
      && r.ldLibraryPathEnv == (if LibraryValues(kvs) == [] then None else Some(Join(LibraryValues(kvs), SepChar(os))))
      && (NonEmptyPathValues(kvs) ==>
            var path := ExpandXlingsVars(d.path, env);
            r.pathEnv == Join((if path == "" then [] else [path]) + PathValues(kvs), SepChar(os)))
  {
    var kvs := ExpandValues(EnvsOf(d), env);
    var path := ExpandXlingsVars(d.path, env);
    var p := NewProgram(name, version);
    var r := SetVData(os, p, d, env);
    assert r.envs == PlainEnvs(kvs) by {
      assert p.envs + PlainEnvs(kvs) == PlainEnvs(kvs);
    }
    if NonEmptyPathValues(kvs) {
      var withPath := SetPath(os, p, path);
      assert withPath.pathEnv == path;
      JoinLead(path, PathValues(kvs), SepChar(os));
      LoadedPathEnv(os, p, d, env);
      if d.envs.Some? {
        AddEnvsPath(os, withPath, kvs);
      }
    }
  }

  /** The `PATH` accumulator `set_vdata` leaves: the path, then the stored variables. */
  lemma LoadedPathEnv(os: Os, p: Program, d: VersionRegistry.VData, env: Env)
    requires Valid(p)
    ensures var withPath := SetPath(os, p, ExpandXlingsVars(d.path, env));
      SetVData(os, p, d, env).pathEnv ==
        if d.envs.Some? then AddEnvs(os, withPath, ExpandValues(d.envs.value, env)).pathEnv else withPath.pathEnv
  {
  }

  /**
   * Loading a record written by `vdata` feeds the path into `PATH` twice:
   * `set_path` adds it, and so does the stored `PATH` variable.
   */
  lemma ReloadRepeatsPath(os: Os, name: string, version: string, path: string, env: Env)
    requires path != ""
    requires !Contains(path, HOME_TOKEN) && !Contains(path, DATA_TOKEN) && !Contains(path, SUBOS_TOKEN)
    ensures var d := ToVData(os, SetPath(os, NewProgram(name, version), path));
      SetVData(os, NewProgram(name, version), d, env).pathEnv == path + Separator(os) + path
  {
    StoredPathOnly(os, name, version, path);
    var d := ToVData(os, SetPath(os, NewProgram(name, version), path));
    var loaded := SetPath(os, NewProgram(name, version), path);
    var kvs := ExpandValues([("PATH", path)], env);
    assert kvs == [("PATH", path)];
    assert kvs[..0] == [];
    assert AddEnvs(os, loaded, kvs) == AddEnv(os, loaded, "PATH", path);
  }

  /** The record of a program that only has a path stores that path and a `PATH` entry holding it. */
  lemma StoredPathOnly(os: Os, name: string, version: string, path: string)
    requires path != ""
    ensures var d := ToVData(os, SetPath(os, NewProgram(name, version), path));
      d.path == path && d.envs == Some([("PATH", path)])
  {
    var p := SetPath(os, NewProgram(name, version), path);
    var tmp := CollectedEnvs(os, p);
    assert tmp == [("PATH", path)];
    assert InsertAll([], tmp) == InsertAll(Insert([], "PATH", path), []);
    assert Insert([], "PATH", path) == [("PATH", path)];
  }
}
