/**
 * The shim executable of `shim/main.rs`: it runs `xvm run <name> --args
 * ...`, where `<name>` is the file stem of the path it was invoked as, and
 * exits with the child's code.
 */
module ShimMain {
  import opened Results
  import opened Text
  import opened Platform
  import opened ShimFiles
  import opened Launcher

  /** The normal components of a path: empty pieces (repeated or trailing `/`) and `.` are skipped. */
  function Components(pieces: seq<string>): (cs: seq<string>)
    ensures forall i :: 0 <= i < |cs| ==> cs[i] != "" && cs[i] != "."
    decreases |pieces|
  {
    if |pieces| == 0 then []
    else
      var last := pieces[|pieces| - 1];
      var init := Components(pieces[..|pieces| - 1]);
      if last == "" || last == "." then init else init + [last]
  }

  /** `Path::file_name`: the last component, unless there is none or it is `..`. */
  function FileName(path: string): (r: Option<string>)
    ensures r.Some? ==> r.value != "" && r.value != "." && r.value != ".." && '/' !in r.value
  {
    var cs := Components(Split(path, '/'));
    if |cs| == 0 || cs[|cs| - 1] == ".." then None
    else
      assert cs[|cs| - 1] in Split(path, '/') by {
        ComponentsFrom(Split(path, '/'), |cs| - 1);
      }
      Some(cs[|cs| - 1])
  }

  lemma {:induction false} ComponentsFrom(pieces: seq<string>, i: nat)
    requires i < |Components(pieces)|
    ensures Components(pieces)[i] in pieces
    decreases |pieces|
  {
    var init := pieces[..|pieces| - 1];
    if i < |Components(init)| {
      ComponentsFrom(init, i);
    }
  }

  /**
   * `file_stem` of a file name: the part before the last `.`, except that a
   * name whose only dot is the leading one is kept whole.
   */
  function Stem(name: string): (r: string)
    ensures r <= name
    ensures '.' !in name ==> r == name
  {
    match LastIndexOf(name, '.')
    case None => name
    case Some(i) => if i == 0 then name else name[..i]
  }

  /** `file_stem().unwrap_or_default()`. */
  function FileStem(path: string): (r: string)
    ensures FileName(path).None? ==> r == ""
    ensures FileName(path).Some? ==> r <= FileName(path).value && '/' !in r
    ensures FileName(path).Some? && '.' !in FileName(path).value ==> r == FileName(path).value
  {
    match FileName(path)
    case None => ""
    case Some(name) => Stem(name)
  }

  /** A plain name under a directory is that path's file name. */
  lemma FileNameOfJoin(dir: string, name: string)
    requires name != "" && name != "." && name != ".." && '/' !in name
    ensures FileName(dir + "/" + name) == Some(name)
  {
    SplitNoSep(name, '/');
    SplitAppend(dir, name, '/');
    var pieces := Split(dir, '/') + [name];
    assert pieces[..|pieces| - 1] == Split(dir, '/');
  }

  /** The stem drops exactly the last extension. */
  lemma StemDropsExtension(base: string, ext: string)
    requires base != "" && '.' !in ext
    ensures Stem(base + "." + ext) == base
  {
    var name := base + "." + ext;
    assert name[|base|] == '.';
    forall j | |base| < j < |name|
      ensures name[j] != '.'
    {
      assert name[j] == ext[j - |base| - 1];
    }
    assert name[|base|] in name;
    assert name[..|base|] == base;
  }

  /** What the shim runs: `xvm run <stem of argv[0]> --args` and the remaining arguments in order. */
  function ShimCommand(argv: seq<string>): (cmd: seq<string>)
    requires |argv| > 0
    ensures |cmd| == |argv| + 3
    ensures cmd[..4] == ["xvm", "run", FileStem(argv[0]), "--args"]
    ensures forall i :: 1 <= i < |argv| ==> cmd[i + 3] == argv[i]
  {
    ["xvm", "run", FileStem(argv[0]), "--args"] + argv[1..]
  }

  /** The shim's exit code: the child's code, 1 without one, 1 when it could not be spawned. */
  function ShimExit(outcome: SpawnOutcome): (code: int)
    ensures outcome.Exited? && outcome.code.Some? ==> code == outcome.code.value
    ensures outcome.Exited? && outcome.code.None? ==> code == 1
    ensures outcome.SpawnFailed? ==> code == 1
  {
    ExitCode(outcome)
  }

  /**
   * A shim made by `try_create` for a target without dots runs that target,
   * on Windows too (where the `.exe` is stripped as the extension).
   */
  lemma ShimRunsItsTarget(os: Os, target: string, dir: string, rest: seq<string>)
    requires target != "" && '/' !in target && '.' !in target
    ensures ShimCommand([ShimFile(os, target, dir)] + rest) == ["xvm", "run", target, "--args"] + rest
  {
    var argv := [ShimFile(os, target, dir)] + rest;
    assert argv[1..] == rest;
    if os == Windows {
      FileNameOfJoin(dir, target + ".exe");
      assert dir + "/" + target + ".exe" == dir + "/" + (target + ".exe");
      StemDropsExtension(target, "exe");
    } else {
      FileNameOfJoin(dir, target);
    }
  }

  /**
   * A target whose name has a dot loses its last dot-suffix: the shim for
   * `python3.12` runs `xvm run python3`.
   */
  lemma DottedTargetLosesSuffix(dir: string, rest: seq<string>)
    ensures ShimCommand([ShimFile(Linux, "python3.12", dir)] + rest)[2] == "python3"
  {
    FileNameOfJoin(dir, "python3.12");
    StemDropsExtension("python3", "12");
    assert "python3" + "." + "12" == "python3.12";
  }
}
