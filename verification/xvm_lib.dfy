/**
 * `load_program` and `load_program_from_workspace` of `lib.rs`: which
 * version of a target runs, and the `Program` built from its registry
 * record.  The registry and global workspace are parameters, not globals.
 */
module XvmLib {
  import opened Results
  import opened Platform
  import opened Workspaces
  import opened VersionRegistry
  import opened Programs

  /** The three panics of the two functions. */
  datatype LoadError = GlobalInactive | VersionNotFound | VDataNotFound

  /** The workspace's selection for the target, else the global workspace's. */
  function ResolvedVersion(ws: Workspace, global: Workspace, target: string): (v: Option<string>)
    ensures Version(ws, target).Some? ==> v == Version(ws, target)
    ensures Version(ws, target).None? ==> v == Version(global, target)
  {
    match Version(ws, target)
    case Some(v) => Some(v)
    case None => Version(global, target)
  }

  /** `load_program`: resolve against the global workspace, which must be active. */
  function LoadProgram(os: Os, target: string, global: Workspace, db: VersionDb, env: Env): (r: Result<Program, LoadError>)
    ensures !global.active ==> r == Failure(GlobalInactive)
    ensures global.active ==> r == LoadProgramFromWorkspace(os, target, global, global, db, env)
    ensures r.Success? ==> r.value.name == target && Version(global, target) == Some(r.value.version)
    decreases 1
  {
    if !global.active then Failure(GlobalInactive)
    else LoadProgramFromWorkspace(os, target, global, global, db, env)
  }

  /**
   * `load_program_from_workspace`: an inactive workspace hands over to
   * `load_program` (one hop, since that one refuses an inactive global
   * workspace); an active one resolves the version, looks up its record and
   * loads it into a new program.
   */
  function LoadProgramFromWorkspace(os: Os, target: string, ws: Workspace, global: Workspace, db: VersionDb, env: Env): (r: Result<Program, LoadError>)
    ensures !ws.active ==> r == LoadProgram(os, target, global, db, env)
    ensures ws.active && ResolvedVersion(ws, global, target).None? ==> r == Failure(VersionNotFound)
    ensures ws.active && ResolvedVersion(ws, global, target).Some?
      && !HasVersion(db, target, ResolvedVersion(ws, global, target).value)
      ==> r == Failure(VDataNotFound)
    ensures r.Success? ==>
      var v := r.value.version;
      && r.value.name == target
      && (if ws.active then ResolvedVersion(ws, global, target) else Version(global, target)) == Some(v)
      && HasVersion(db, target, v)
      && r.value.path == ExpandXlingsVars(GetVData(db, target, v).value.path, env)
      && r.value.alias == GetVData(db, target, v).value.alias
    decreases if ws.active then 0 else 2
  {
    if !ws.active then LoadProgram(os, target, global, db, env)
    else match ResolvedVersion(ws, global, target)
      case None => Failure(VersionNotFound)
      case Some(v) =>
        match GetVData(db, target, v)
        case None => Failure(VDataNotFound)
        case Some(d) =>
          var p := Programs.SetVData(os, NewProgram(target, v), d, env);
          Success(p)
  }

  /** An inactive workspace resolves exactly as the global workspace does. */
  lemma InactiveFallsBackToGlobal(os: Os, target: string, ws: Workspace, global: Workspace, db: VersionDb, env: Env)
    requires !ws.active
    ensures LoadProgramFromWorkspace(os, target, ws, global, db, env)
      == LoadProgramFromWorkspace(os, target, global, global, db, env)
  {
    if global.active {
      assert LoadProgram(os, target, global, db, env) == LoadProgramFromWorkspace(os, target, global, global, db, env);
    }
  }

  /** An active workspace's own selection beats the global one. */
  lemma LocalSelectionWins(os: Os, target: string, ws: Workspace, global: Workspace, db: VersionDb, env: Env, v: string)
    requires ws.active && Version(ws, target) == Some(v) && HasVersion(db, target, v)
    ensures var r := LoadProgramFromWorkspace(os, target, ws, global, db, env);
      r.Success? && r.value.version == v
  {
  }
}
