/**
 * The file operations of `shims.rs`: where a target's shim lives, creating
 * and deleting it, and linking a library into a directory.  The file system
 * is a value; I/O failures are not modelled.
 */
module ShimFiles {
  import opened Results
  import opened Platform
  import opened Programs

  /** `shim_file`: `dir/target`, with `.exe` on Windows. */
  function ShimFile(os: Os, target: string, dir: string): (path: string)
    ensures dir + "/" + target <= path
  {
    if os == Windows then dir + "/" + target + ".exe" else dir + "/" + target
  }

  /** Different targets in one directory get different shim files. */
  lemma ShimFileInjective(os: Os, dir: string, a: string, b: string)
    requires ShimFile(os, a, dir) == ShimFile(os, b, dir)
    ensures a == b
  {
    var pa := dir + "/" + a;
    var pb := dir + "/" + b;
    assert |pa| == |pb|;
    assert pa == ShimFile(os, a, dir)[..|pa|];
    assert pb == ShimFile(os, b, dir)[..|pb|];
    assert a == pa[|dir| + 1..];
    assert b == pb[|dir| + 1..];
  }

  /** `create_dir_all` when the directory is missing (ancestors are not modelled). */
  function EnsureDir(fs: FileSystem, dir: string): (r: FileSystem)
    ensures Exists(r, dir)
    ensures forall q :: q != dir ==> (q in r <==> q in fs) && (q in fs ==> r[q] == fs[q])
    ensures Exists(fs, dir) ==> r == fs
  {
    if Exists(fs, dir) then fs else fs[dir := Dir]
  }

  /**
   * `try_create`: when the shim is missing, make sure the directory exists
   * and put a copy (or hard link) of the shim binary there.  An existing
   * shim is left alone.
   */
  function TryCreate(os: Os, target: string, dir: string, shimBin: string, fs: FileSystem): (r: FileSystem)
    ensures Exists(r, ShimFile(os, target, dir))
    ensures Exists(fs, ShimFile(os, target, dir)) ==> r == fs
    ensures !Exists(fs, ShimFile(os, target, dir)) ==> r[ShimFile(os, target, dir)] == File(shimBin)
    ensures forall q :: q != ShimFile(os, target, dir) && q != dir ==> (q in r <==> q in fs) && (q in fs ==> r[q] == fs[q])
  {
    var shim := ShimFile(os, target, dir);
    if Exists(fs, shim) then fs
    else EnsureDir(fs, dir)[shim := File(shimBin)]
  }

  /** Creating a shim twice is creating it once. */
  lemma TryCreateIdempotent(os: Os, target: string, dir: string, shimBin: string, fs: FileSystem)
    ensures var once := TryCreate(os, target, dir, shimBin, fs);
      TryCreate(os, target, dir, shimBin, once) == once
  {
  }

  /** `delete`: remove the shim if it is there. */
  function Delete(os: Os, target: string, dir: string, fs: FileSystem): (r: FileSystem)
    ensures !Exists(r, ShimFile(os, target, dir))
    ensures !Exists(fs, ShimFile(os, target, dir)) ==> r == fs
    ensures forall q :: q != ShimFile(os, target, dir) ==> (q in r <==> q in fs) && (q in fs ==> r[q] == fs[q])
  {
    var shim := ShimFile(os, target, dir);
    if Exists(fs, shim) then fs - {shim} else fs
  }

  /** Deleting a freshly created shim leaves no shim and every other path except the directory as it was. */
  lemma CreateThenDelete(os: Os, target: string, dir: string, shimBin: string, fs: FileSystem)
    requires !Exists(fs, ShimFile(os, target, dir))
    ensures var r := Delete(os, target, dir, TryCreate(os, target, dir, shimBin, fs));
      && !Exists(r, ShimFile(os, target, dir))
      && forall q :: q != dir ==> (q in r <==> q in fs) && (q in fs ==> r[q] == fs[q])
  {
  }

  datatype LinkError = AliasMissing

  /** The link `link_to` makes: `dir/<filename or alias>` pointing at `path/<alias>`. */
  function LinkPath(p: Program, dir: string): string
    requires p.alias.Some?
  {
    dir + "/" + p.filename.GetOr(p.alias.value)
  }

  function LinkSource(p: Program): string
    requires p.alias.Some?
  {
    p.path + "/" + p.alias.value
  }

  /**
   * `link_to`: create `dir` if needed; if the link path is already taken,
   * replace it when `recover` is set and otherwise stop; then make the
   * symbolic link.  A program without an alias panics on `unwrap`.
   */
  function LinkTo(p: Program, dir: string, recover: bool, fs: FileSystem): (r: Result<FileSystem, LinkError>)
    ensures p.alias.None? <==> r.Failure?
    ensures r.Success? ==> Exists(r.value, dir) && Exists(r.value, LinkPath(p, dir))
    ensures r.Success? && !recover && Exists(fs, LinkPath(p, dir)) ==> r.value[LinkPath(p, dir)] == fs[LinkPath(p, dir)]
    ensures r.Success? && (recover || !Exists(fs, LinkPath(p, dir))) ==> r.value[LinkPath(p, dir)] == Link(LinkSource(p))
    ensures r.Success? ==> forall q :: q != dir && q != LinkPath(p, dir) ==>
      (q in r.value <==> q in fs) && (q in fs ==> r.value[q] == fs[q])
  {
    if p.alias.None? then Failure(AliasMissing)
    else
      var link := LinkPath(p, dir);
      assert |link| > |dir|;
      var withDir := EnsureDir(fs, dir);
      if Exists(withDir, link) && !recover then Success(withDir)
      else
        var cleared := if Exists(withDir, link) then withDir - {link} else withDir;
        Success(cleared[link := Link(LinkSource(p))])
  }

  /** Linking twice is linking once, with or without `recover`. */
  lemma LinkToIdempotent(p: Program, dir: string, recover: bool, fs: FileSystem)
    requires p.alias.Some?
    ensures var once := LinkTo(p, dir, recover, fs).value;
      LinkTo(p, dir, recover, once) == Success(once)
  {
    var once := LinkTo(p, dir, recover, fs).value;
    var link := LinkPath(p, dir);
    if recover || !Exists(fs, link) {
      assert once[link] == Link(LinkSource(p));
      assert (once - {link})[link := Link(LinkSource(p))] == once;
    }
  }
}
