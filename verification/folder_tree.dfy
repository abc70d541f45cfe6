/** The sidebar folder tree (frontend/src/components/FolderTree.tsx): a
  client-side cache of the folder hierarchy, filled level by level as the
  user expands nodes, and thrown away whenever the refresh counter changes.
 */
module FolderTree {
  import opened Common
  import opened Api

  datatype TreeNode = TreeNode(folder: FolderModel, children: seq<TreeNode>, isLoading: bool, isExpanded: bool)

  /** How a listed folder enters the tree: collapsed, idle, children unknown. */
  function Fresh(f: FolderModel): TreeNode {
    TreeNode(f, [], false, false)
  }

  function FreshNodes(fs: seq<FolderModel>): seq<TreeNode> {
    seq(|fs|, k requires 0 <= k < |fs| => Fresh(fs[k]))
  }

  // ---------------------------------------------------------------------
  // `updateNode` and the four updaters passed to it.

  datatype Update = Toggle | StartLoading | Loaded(children: seq<TreeNode>) | LoadFailed

  function Apply(n: TreeNode, u: Update): TreeNode {
    match u
    case Toggle => n.(isExpanded := !n.isExpanded)
    case StartLoading => n.(isLoading := true)
    case Loaded(c) => n.(children := c, isLoading := false, isExpanded := true)
    case LoadFailed => n.(isLoading := false)
  }

  /** `updateNode(nodes, folderId, updater)`: a node with the id is replaced
      by the updater's result, and its children are not visited; any other
      node with children is rebuilt from its rewritten children. */
  function UpdateNodes(nodes: seq<TreeNode>, id: int, u: Update): (r: seq<TreeNode>)
    ensures |r| == |nodes|
    ensures forall k :: 0 <= k < |nodes| ==> r[k].folder == nodes[k].folder
    decreases nodes
  {
    if nodes == [] then []
    else
      var n := nodes[0];
      var n' :=
        if n.folder.id == id then Apply(n, u)
        else if |n.children| > 0 then n.(children := UpdateNodes(n.children, id, u))
        else n;
      [n'] + UpdateNodes(nodes[1..], id, u)
  }

  /** Every folder id anywhere in the forest. */
  function Ids(nodes: seq<TreeNode>): set<int>
    decreases nodes
  {
    if nodes == [] then {}
    else {nodes[0].folder.id} + Ids(nodes[0].children) + Ids(nodes[1..])
  }

  /** An id that occurs nowhere leaves the forest as it is. */
  lemma {:induction false} UpdateMissing(nodes: seq<TreeNode>, id: int, u: Update)
    requires id !in Ids(nodes)
    ensures UpdateNodes(nodes, id, u) == nodes
    decreases nodes
  {
    if nodes != [] {
      var n := nodes[0];
      if |n.children| > 0 {
        UpdateMissing(n.children, id, u);
      }
      UpdateMissing(nodes[1..], id, u);
      assert nodes == [n] + nodes[1..];
    }
  }

  /** Toggling the same id twice restores the forest. */
  lemma {:induction false} ToggleTwice(nodes: seq<TreeNode>, id: int)
    ensures UpdateNodes(UpdateNodes(nodes, id, Toggle), id, Toggle) == nodes
    decreases nodes
  {
    if nodes != [] {
      var n := nodes[0];
      var once := UpdateNodes(nodes, id, Toggle);
      if n.folder.id != id && |n.children| > 0 {
        ToggleTwice(n.children, id);
      }
      ToggleTwice(nodes[1..], id);
      assert once[1..] == UpdateNodes(nodes[1..], id, Toggle);
      assert nodes == [n] + nodes[1..];
    }
  }

  // ---------------------------------------------------------------------
  // Positions in the forest.

  /** The node reached by following child indices from the top level. */
  function Get(nodes: seq<TreeNode>, path: seq<nat>): Option<TreeNode>
    decreases |path|
  {
    if path == [] || path[0] >= |nodes| then None
    else if |path| == 1 then Some(nodes[path[0]])
    else Get(nodes[path[0]].children, path[1..])
  }

  /** No node strictly above the end of `path` carries `id`. */
  predicate AvoidsAbove(nodes: seq<TreeNode>, path: seq<nat>, id: int)
    decreases |path|
  {
    |path| <= 1 ||
    (path[0] < |nodes| && nodes[path[0]].folder.id != id && AvoidsAbove(nodes[path[0]].children, path[1..], id))
  }

  lemma {:induction false} UpdateNodesAt(nodes: seq<TreeNode>, id: int, u: Update, k: nat)
    requires k < |nodes|
    ensures UpdateNodes(nodes, id, u)[k] ==
              if nodes[k].folder.id == id then Apply(nodes[k], u)
              else if |nodes[k].children| > 0 then nodes[k].(children := UpdateNodes(nodes[k].children, id, u))
              else nodes[k]
    decreases k
  {
    if k > 0 {
      UpdateNodesAt(nodes[1..], id, u, k - 1);
    }
  }

  /** What `updateNode` does at a position reached without passing a
      matching node: a match becomes the updater's result (its children as
      the updater leaves them, not rewritten), any other node keeps its
      folder, its flags and its number of children. */
  lemma {:induction false} UpdateAt(nodes: seq<TreeNode>, id: int, u: Update, path: seq<nat>)
    requires Get(nodes, path).Some? && AvoidsAbove(nodes, path, id)
    ensures Get(UpdateNodes(nodes, id, u), path).Some?
    ensures AvoidsAbove(UpdateNodes(nodes, id, u), path, id)
    ensures Get(nodes, path).value.folder.id == id ==>
              Get(UpdateNodes(nodes, id, u), path).value == Apply(Get(nodes, path).value, u)
    ensures Get(nodes, path).value.folder.id != id ==>
              var n, n' := Get(nodes, path).value, Get(UpdateNodes(nodes, id, u), path).value;
              n'.folder == n.folder && n'.isLoading == n.isLoading && n'.isExpanded == n.isExpanded &&
              |n'.children| == |n.children|
    decreases |path|
  {
    var r := UpdateNodes(nodes, id, u);
    var k := path[0];
    UpdateNodesAt(nodes, id, u, k);
    if |path| > 1 {
      var n := nodes[k];
      assert n.folder.id != id;
      UpdateAt(n.children, id, u, path[1..]);
    }
  }

  // ---------------------------------------------------------------------
  // Component state and events.

  /** The top-level nodes, the spinner flag, and `isInitialLoadRef`. */
  datatype Tree = Tree(roots: seq<TreeNode>, loading: bool, initialLoad: bool)

  function InitialTree(): Tree {
    Tree([], true, true)
  }

  /** Start of `loadRootFolders`: the spinner is raised on the first load only. */
  function BeginRootLoad(t: Tree): (r: Tree)
    ensures r.roots == t.roots && r.initialLoad == t.initialLoad
    ensures r.loading <==> t.loading || t.initialLoad
  {
    if t.initialLoad then t.(loading := true) else t
  }

  /** End of `loadRootFolders`: on success the top level becomes the
      listing of folder 0, each entry fresh; on failure the old roots stay. */
  function FinishRootLoad(t: Tree, listing: Fetched<FolderContents>): (r: Tree)
    ensures !r.loading && !r.initialLoad
    ensures listing.Rejected? ==> r.roots == t.roots
    ensures listing.Resolved? ==>
              |r.roots| == |listing.data.subFolders| &&
              forall k :: 0 <= k < |r.roots| ==>
                r.roots[k].folder == listing.data.subFolders[k] && r.roots[k].children == [] &&
                !r.roots[k].isExpanded && !r.roots[k].isLoading
  {
    var roots := if listing.Resolved? then FreshNodes(listing.data.subFolders) else t.roots;
    Tree(roots, false, false)
  }

  /** The effect that runs on mount and on every `refreshTrigger` change. */
  function Reload(t: Tree, listing: Fetched<FolderContents>): (r: Tree)
    ensures !r.loading && !r.initialLoad
    ensures listing.Rejected? ==> r.roots == t.roots
    ensures listing.Resolved? ==> r.roots == FreshNodes(listing.data.subFolders)
  {
    FinishRootLoad(BeginRootLoad(t), listing)
  }

  /** After the first load the spinner never shows again, whatever the outcome. */
  lemma SpinnerOnlyOnce(t: Tree, listing: Fetched<FolderContents>)
    requires !t.initialLoad && !t.loading
    ensures !BeginRootLoad(t).loading
    ensures !Reload(t, listing).loading && !Reload(t, listing).initialLoad
  {
  }

  /** A successful refresh discards all expansion and cached children: no
      node of the new forest is expanded, loading, or has children. */
  lemma {:induction false} RefreshDiscardsExpansion(t: Tree, contents: FolderContents)
    ensures Ids(Reload(t, Resolved(contents)).roots) == set k | 0 <= k < |contents.subFolders| :: contents.subFolders[k].id
    ensures forall k :: 0 <= k < |Reload(t, Resolved(contents)).roots| ==>
              var n := Reload(t, Resolved(contents)).roots[k];
              !n.isExpanded && n.children == []
  {
    FreshIds(contents.subFolders);
  }

  lemma {:induction false} FreshIds(fs: seq<FolderModel>)
    ensures Ids(FreshNodes(fs)) == set k | 0 <= k < |fs| :: fs[k].id
    decreases |fs|
  {
    if fs != [] {
      FreshIds(fs[1..]);
      assert FreshNodes(fs)[1..] == FreshNodes(fs[1..]);
      var s := set k | 0 <= k < |fs| :: fs[k].id;
      var s1 := set k | 0 <= k < |fs[1..]| :: fs[1..][k].id;
      assert s == {fs[0].id} + s1 by {
        forall x | x in s ensures x in {fs[0].id} + s1 {
          var k :| 0 <= k < |fs| && fs[k].id == x;
          if k > 0 { assert fs[1..][k - 1].id == x; }
        }
        forall x | x in s1 ensures x in s {
          var k :| 0 <= k < |fs[1..]| && fs[1..][k].id == x;
          assert fs[k + 1].id == x;
        }
      }
    }
  }

  /** `FolderTreeItem.handleToggle`: fetch children only for a collapsed node
      with none cached, then toggle. */
  predicate NeedsFetch(n: TreeNode) {
    !n.isExpanded && |n.children| == 0
  }

  /** The roots after the click, before any fetch settles; `handleLoadChildren`
      runs its first update synchronously, so it lands before the toggle. */
  function Click(roots: seq<TreeNode>, n: TreeNode): (r: seq<TreeNode>)
    ensures |r| == |roots| && forall k :: 0 <= k < |roots| ==> r[k].folder == roots[k].folder
    ensures n.folder.id !in Ids(roots) ==> r == roots
  {
    var marked := if NeedsFetch(n) then UpdateNodes(roots, n.folder.id, StartLoading) else roots;
    var r := UpdateNodes(marked, n.folder.id, Toggle);
    if n.folder.id !in Ids(roots) then
      UpdateMissing(roots, n.folder.id, StartLoading);
      UpdateMissing(roots, n.folder.id, Toggle);
      r
    else r
  }

  /** What a settled child listing does to its node: success installs the
      listed folders as fresh children, failure only clears the spinner. */
  function SettleUpdate(listing: Fetched<FolderContents>): Update {
    match listing
    case Resolved(c) => Loaded(FreshNodes(c.subFolders))
    case Rejected => LoadFailed
  }

  /** The settling half of `handleLoadChildren`. */
  function SettleLoad(roots: seq<TreeNode>, id: int, listing: Fetched<FolderContents>): (r: seq<TreeNode>)
    ensures |r| == |roots| && forall k :: 0 <= k < |roots| ==> r[k].folder == roots[k].folder
    ensures id !in Ids(roots) ==> r == roots
  {
    var u := SettleUpdate(listing);
    var r := UpdateNodes(roots, id, u);
    if id !in Ids(roots) then
      UpdateMissing(roots, id, u);
      r
    else r
  }

  /** Clicking a collapsed, never-loaded node marks it loading and expands
      it, before any fetch settles. */
  lemma ClickMarks(roots: seq<TreeNode>, path: seq<nat>)
    requires Get(roots, path).Some? && NeedsFetch(Get(roots, path).value)
    requires AvoidsAbove(roots, path, Get(roots, path).value.folder.id)
    ensures var n := Get(roots, path).value;
            && Get(Click(roots, n), path) == Some(n.(isLoading := true, isExpanded := true))
            && AvoidsAbove(Click(roots, n), path, n.folder.id)
  {
    var n := Get(roots, path).value;
    var id := n.folder.id;
    var r1 := UpdateNodes(roots, id, StartLoading);
    UpdateAt(roots, id, StartLoading, path);
    var r2 := UpdateNodes(r1, id, Toggle);
    UpdateAt(r1, id, Toggle, path);
    assert Click(roots, n) == r2;
  }

  /** Settling a listing for the node at the end of `path` applies the
      listing's update there. */
  lemma SettleAt(roots: seq<TreeNode>, path: seq<nat>, listing: Fetched<FolderContents>)
    requires Get(roots, path).Some? && AvoidsAbove(roots, path, Get(roots, path).value.folder.id)
    ensures var n := Get(roots, path).value;
            Get(SettleLoad(roots, n.folder.id, listing), path) == Some(Apply(n, SettleUpdate(listing)))
  {
    var id := Get(roots, path).value.folder.id;
    UpdateAt(roots, id, SettleUpdate(listing), path);
    assert SettleLoad(roots, id, listing) == UpdateNodes(roots, id, SettleUpdate(listing));
  }

  /** Expanding a collapsed, never-loaded node and the listing succeeding:
      the node ends expanded and idle, with the listed subfolders as fresh
      children. */
  lemma LoadCycleSucceeds(roots: seq<TreeNode>, path: seq<nat>, contents: FolderContents)
    requires Get(roots, path).Some? && NeedsFetch(Get(roots, path).value)
    requires AvoidsAbove(roots, path, Get(roots, path).value.folder.id)
    ensures var n := Get(roots, path).value;
            var after := SettleLoad(Click(roots, n), n.folder.id, Resolved(contents));
            Get(after, path) == Some(n.(children := FreshNodes(contents.subFolders), isLoading := false, isExpanded := true))
  {
    ClickMarks(roots, path);
    SettleAt(Click(roots, Get(roots, path).value), path, Resolved(contents));
  }

  /** Expanding a collapsed, never-loaded node and the listing failing: the
      toggle has already run and the failure only clears the spinner, so the
      node ends expanded with no children. */
  lemma LoadCycleFails(roots: seq<TreeNode>, path: seq<nat>)
    requires Get(roots, path).Some? && NeedsFetch(Get(roots, path).value)
    requires AvoidsAbove(roots, path, Get(roots, path).value.folder.id)
    ensures var n := Get(roots, path).value;
            var after := SettleLoad(Click(roots, n), n.folder.id, Rejected);
            Get(after, path) == Some(n.(isLoading := false, isExpanded := true))
    ensures Get(SettleLoad(Click(roots, Get(roots, path).value), Get(roots, path).value.folder.id, Rejected), path).value.children == []
  {
    ClickMarks(roots, path);
    SettleAt(Click(roots, Get(roots, path).value), path, Rejected);
  }

  /** Collapsing and re-expanding a node issues no fetch and gives back the
      forest it started from: collapsing keeps the children. */
  lemma CollapseKeepsChildren(roots: seq<TreeNode>, n: TreeNode)
    requires n.isExpanded
    ensures !NeedsFetch(n)
    ensures !NeedsFetch(n.(isExpanded := false)) <==> |n.children| > 0
    ensures |n.children| > 0 ==> Click(Click(roots, n), n.(isExpanded := false)) == roots
  {
    ToggleTwice(roots, n.folder.id);
  }

  // ---------------------------------------------------------------------
  // Rendering.

  /** A node shows its children only while expanded and with children. */
  predicate ShowsChildren(n: TreeNode) {
    n.isExpanded && |n.children| > 0
  }

  datatype Row = Row(folder: FolderModel, level: nat)

  /** The rows the list renders, depth first, indented by level. */
  function Rows(nodes: seq<TreeNode>, level: nat): (r: seq<Row>)
    ensures |r| >= |nodes|
    decreases nodes
  {
    if nodes == [] then []
    else
      var n := nodes[0];
      [Row(n.folder, level)] + (if ShowsChildren(n) then Rows(n.children, level + 1) else []) + Rows(nodes[1..], level)
  }

  /** The rows a node's children add below it: none unless it shows them. */
  function ChildRows(n: TreeNode, level: nat): seq<Row>
    decreases n, 0
  {
    if ShowsChildren(n) then Rows(n.children, level) else []
  }

  /** Sibling forests render one after the other. */
  lemma {:induction false} RowsConcat(a: seq<TreeNode>, b: seq<TreeNode>, level: nat)
    ensures Rows(a + b, level) == Rows(a, level) + Rows(b, level)
    decreases |a|
  {
    if a == [] {
      assert a + b == b;
    } else {
      assert (a + b)[0] == a[0];
      assert (a + b)[1..] == a[1..] + b;
      RowsConcat(a[1..], b, level);
    }
  }

  /** One step of the render: the first node's row, its children's rows,
      then the rest. */
  lemma RowsFirst(nodes: seq<TreeNode>, level: nat)
    requires nodes != []
    ensures Rows(nodes, level) ==
              [Row(nodes[0].folder, level)] + ChildRows(nodes[0], level + 1) + Rows(nodes[1..], level)
  {
  }

  /** Depth first: the i-th node's row follows the rows of the nodes before
      it and precedes its own children's rows, which precede the later
      siblings. */
  lemma RowsSplit(nodes: seq<TreeNode>, i: nat, level: nat)
    requires i < |nodes|
    ensures Rows(nodes, level) ==
              Rows(nodes[..i], level)
              + ([Row(nodes[i].folder, level)] + ChildRows(nodes[i], level + 1) + Rows(nodes[i + 1..], level))
  {
    RowsCut(nodes, i, level);
    RowsFrom(nodes, i, level);
  }

  lemma RowsCut(nodes: seq<TreeNode>, i: nat, level: nat)
    requires i <= |nodes|
    ensures Rows(nodes, level) == Rows(nodes[..i], level) + Rows(nodes[i..], level)
  {
    assert nodes == nodes[..i] + nodes[i..];
    RowsConcat(nodes[..i], nodes[i..], level);
  }

  lemma RowsFrom(nodes: seq<TreeNode>, i: nat, level: nat)
    requires i < |nodes|
    ensures Rows(nodes[i..], level) ==
              [Row(nodes[i].folder, level)] + ChildRows(nodes[i], level + 1) + Rows(nodes[i + 1..], level)
  {
    var tail := nodes[i..];
    assert tail[0] == nodes[i] && tail[1..] == nodes[i + 1..];
    RowsFirst(tail, level);
  }

  /** Every node of the forest gets its own row at the starting level. */
  lemma RowsCover(nodes: seq<TreeNode>, level: nat)
    ensures forall k :: 0 <= k < |nodes| ==> Row(nodes[k].folder, level) in Rows(nodes, level)
  {
    forall k | 0 <= k < |nodes| ensures Row(nodes[k].folder, level) in Rows(nodes, level) {
      RowsSplit(nodes, k, level);
    }
  }

  /** A node that is collapsed, or has no children, contributes exactly its
      own row. */
  lemma CollapsedNodeOneRow(nodes: seq<TreeNode>, i: nat, level: nat)
    requires i < |nodes| && !ShowsChildren(nodes[i])
    ensures Rows(nodes, level) ==
              Rows(nodes[..i], level) + [Row(nodes[i].folder, level)] + Rows(nodes[i + 1..], level)
  {
    RowsSplit(nodes, i, level);
    var before := Rows(nodes[..i], level);
    var row := [Row(nodes[i].folder, level)];
    var after := Rows(nodes[i + 1..], level);
    assert ChildRows(nodes[i], level + 1) == [];
    assert row + [] + after == row + after;
  }

  /** A forest none of whose top-level nodes shows children renders exactly
      one row per top-level node, in order. */
  lemma {:induction false} RowsFlat(nodes: seq<TreeNode>, level: nat)
    requires forall k :: 0 <= k < |nodes| ==> !ShowsChildren(nodes[k])
    ensures |Rows(nodes, level)| == |nodes|
    ensures forall k :: 0 <= k < |nodes| ==> Rows(nodes, level)[k] == Row(nodes[k].folder, level)
    decreases nodes
  {
    if nodes != [] {
      RowsFlat(nodes[1..], level);
    }
  }

  /** Rows never lie above the level they start at, and the first row of a
      non-empty forest is its first node. */
  lemma {:induction false} RowsLevels(nodes: seq<TreeNode>, level: nat)
    ensures forall k :: 0 <= k < |Rows(nodes, level)| ==> Rows(nodes, level)[k].level >= level
    ensures nodes != [] ==> |Rows(nodes, level)| >= 1 && Rows(nodes, level)[0] == Row(nodes[0].folder, level)
    decreases nodes
  {
    if nodes != [] {
      var n := nodes[0];
      if ShowsChildren(n) {
        RowsLevels(n.children, level + 1);
      }
      RowsLevels(nodes[1..], level);
    }
  }
}
