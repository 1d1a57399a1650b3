/**
 * `get_workspace` of `helper.rs`: which single workspace a command works
 * on, the local `workspace.xvm.yaml` or the global one.
 */
module Helper {
  import opened Results
  import opened Workspaces

  /** What reading `workspace.xvm.yaml` in the current directory gives. */
  datatype LocalFile = Absent | Unreadable | Present(ws: Workspace)

  datatype HelperError = LocalWorkspaceUnreadable

  /**
   * The local workspace when the file exists and is active, the global one
   * when the file is missing or inactive.  A file that exists but does not
   * load is an error (`expect` panics); no fresh workspace is made up.
   */
  function GetWorkspace(local: LocalFile, global: Workspace): (r: Result<Workspace, HelperError>)
    ensures r.Failure? <==> local.Unreadable?
    ensures r.Success? ==> r.value == global || (local.Present? && r.value == local.ws)
    ensures r.Success? && r.value != global ==> r.value.active
    ensures local.Absent? ==> r == Success(global)
    ensures local.Present? ==> r == Success(if local.ws.active then local.ws else global)
  {
    match local
    case Absent => Success(global)
    case Unreadable => Failure(LocalWorkspaceUnreadable)
    case Present(ws) => if ws.active then Success(ws) else Success(global)
  }

  /**
   * No overlay happens: a target the chosen local workspace lacks stays
   * unselected even when the global workspace selects it.
   */
  lemma NoOverlay(local: Workspace, global: Workspace, target: string)
    requires local.active
    ensures GetWorkspace(Present(local), global).value.versions == local.versions
  {
  }
}
