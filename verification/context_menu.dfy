/** The right-click menu (frontend/src/components/FileContextMenu.tsx):
  which actions it offers for a file, a folder, or the empty area.
 */
module ContextMenu {
  import opened Common
  import opened Api

  datatype MenuAction = CreateFolder | Download | Share | Info | Versions | Rename | Delete

  /** The actions shown only for files. */
  predicate FileOnly(a: MenuAction) {
    a.Download? || a.Share? || a.Info? || a.Versions?
  }

  /** The menu entries, top to bottom, for the selected item (`None` when the
      menu was opened on the empty area). */
  function Offered(selected: Option<Item>): (r: seq<MenuAction>)
    ensures |r| >= 1 && r[0] == CreateFolder
    ensures forall a :: a in r && FileOnly(a) ==> selected.Some? && IsFile(selected.value)
    ensures selected.Some? && IsFile(selected.value) ==> Download in r && Share in r && Info in r && Versions in r
    ensures Rename in r <==> selected.Some?
    ensures Delete in r <==> selected.Some?
    ensures selected.None? ==> r == [CreateFolder]
  {
    var isFile := selected.Some? && IsFile(selected.value);
    [CreateFolder]
      + (if isFile then [Download, Share, Info, Versions] else [])
      + (if selected.Some? then [Rename, Delete] else [])
  }

  /** The click position the menu is anchored at. */
  datatype Anchor = Anchor(top: int, left: int)

  /** The rendered menu: its entries while open, `None` while closed. The
      menu is open whenever an anchor is set, since any position object is
      truthy, including one at the origin. */
  function Shown(anchor: Option<Anchor>, selected: Option<Item>): (r: Option<seq<MenuAction>>)
    ensures r.Some? <==> anchor.Some?
    ensures r.Some? ==> r.value == Offered(selected)
  {
    if anchor.Some? then Some(Offered(selected)) else None
  }

  /** Right-clicking the empty area opens a menu whose only entry is
      creating a folder, wherever the click lands, the origin included:
      any position object is truthy. */
  lemma AnchorOpensEmptyAreaMenu(a: Anchor)
    ensures Shown(Some(a), None) == Some([CreateFolder])
  {
  }
}
