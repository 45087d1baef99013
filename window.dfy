/**
 * The atlas list of the editor's "Project" window: the "New Atlas" and
 * "Remove" buttons. `selected` is the window's selected row, a value the
 * window keeps between frames; each edit returns its new value.
 */
module ProjectWindow {
  import opened Atlases
  import opened Loader
  import opened Projects

  /** "New Atlas": an empty atlas is appended and becomes both the selected row and the current atlas. */
  method NewAtlas(p: Project) returns (selected: nat)
    modifies p`atlases, p`currentAtlas
    ensures selected == |old(p.atlases)| && p.currentAtlas == selected
    ensures |p.atlases| == selected + 1 && p.atlases[..selected] == old(p.atlases)
    ensures fresh(p.atlases[selected]) && EmptyAtlas(p.atlases[selected])
    ensures p.HasCurrent() && (old(p.Valid()) ==> p.Valid())
  {
    selected := |p.atlases|;
    var a := Project.MakeEmptyAtlas();
    p.AddAtlas(a);
    p.currentAtlas := selected;
    assert p.atlases[..selected] == old(p.atlases);
  }

  /**
   * "Remove": the selected atlas leaves the list, the selection moves up
   * one row unless it is the first, and a project left without atlases
   * gets a new empty one. The current atlas follows the selection, so the
   * project always keeps an atlas to show.
   */
  method RemoveAtlas(p: Project, selected: nat) returns (next: nat)
    requires selected < |p.atlases|
    modifies p`atlases, p`currentAtlas
    ensures next == if selected > 0 then selected - 1 else 0
    ensures p.currentAtlas == next && p.HasCurrent()
    ensures |old(p.atlases)| > 1 ==> p.atlases == old(p.atlases)[..selected] + old(p.atlases)[selected + 1..]
    ensures |old(p.atlases)| == 1 ==> |p.atlases| == 1 && fresh(p.atlases[0]) && EmptyAtlas(p.atlases[0])
    ensures Distinct(old(p.atlases)) ==> old(p.atlases)[selected] !in p.atlases
    ensures old(p.Valid()) ==> p.Valid()
  {
    p.atlases := p.atlases[..selected] + p.atlases[selected + 1..];
    next := if selected > 0 then selected - 1 else 0;
    if |p.atlases| == 0 {
      var a := Project.MakeEmptyAtlas();
      p.AddAtlas(a);
    }
    p.currentAtlas := next;
  }
}
