/** The explorer page (frontend/src/pages/FileExplorer.tsx): loading a
  folder from the URL, the breadcrumb walk up the parent links, the
  context-menu dispatch, and the create, delete and rename handlers.

  The server is a function from folder id to the answer of
  `folderApi.getContents(id)` during one page load; `Rejected` is any failed
  request. Parent links are assumed to be ranked (every parent ranks below
  its child): the backend only accepts existing folders as parents, so the
  links form a forest, and the walk, which has no cycle guard, ends.
 */
module FileExplorer {
  import opened Common
  import opened Api
  import Text
  import opened FileStore
  import Services
  import opened ContextMenu
  import Breadcrumbs
  import RenameDialog

  type Server = int -> Fetched<FolderContents>

  ghost predicate Ranked(server: Server, rank: int -> nat) {
    forall id :: server(id).Resolved? && server(id).data.parentId.Some? ==>
      rank(server(id).data.parentId.value) < rank(id)
  }

  function Measure(rank: int -> nat, cur: Option<int>): nat {
    if cur.Some? then rank(cur.value) + 1 else 0
  }

  /** The walk's step from a fetched folder to its parent lowers the measure. */
  lemma StepDown(server: Server, rank: int -> nat, id: int)
    requires Ranked(server, rank) && server(id).Resolved?
    ensures Measure(rank, server(id).data.parentId) < Measure(rank, Some(id))
  {
  }

  // ---------------------------------------------------------------------
  // `buildBreadcrumbPath`.

  /** The `while (currentParentId !== null)` loop: fetch the parent, put it
      in front, continue from its parent; a failed fetch ends the walk. */
  function Walk(server: Server, rank: int -> nat, cur: Option<int>, path: seq<Crumb>): (r: seq<Crumb>)
    requires Ranked(server, rank)
    ensures |r| >= |path| && r[|r| - |path|..] == path
    decreases Measure(rank, cur)
  {
    if cur.None? then path
    else match server(cur.value)
      case Rejected => path
      case Resolved(c) =>
        StepDown(server, rank, cur.value);
        Walk(server, rank, c.parentId, [Crumb(Some(c.id), c.name)] + path)
  }

  function BuildBreadcrumbPath(server: Server, rank: int -> nat, folder: FolderModel): (r: seq<Crumb>)
    requires Ranked(server, rank)
    ensures |r| >= 2 && r[0] == Home && r[|r| - 1] == Crumb(Some(folder.id), folder.name)
  {
    [Home] + Walk(server, rank, folder.parentId, [Crumb(Some(folder.id), folder.name)])
  }

  /** The records the walk fetches, root first. */
  function Chain(server: Server, rank: int -> nat, cur: Option<int>): seq<FolderContents>
    requires Ranked(server, rank)
    decreases Measure(rank, cur)
  {
    if cur.None? then []
    else match server(cur.value)
      case Rejected => []
      case Resolved(c) =>
        StepDown(server, rank, cur.value);
        Chain(server, rank, c.parentId) + [c]
  }

  function CrumbOf(c: FolderContents): Crumb {
    Crumb(Some(c.id), c.name)
  }

  function Crumbs(chain: seq<FolderContents>): (r: seq<Crumb>)
    ensures |r| == |chain| && forall k :: 0 <= k < |chain| ==> r[k] == CrumbOf(chain[k])
  {
    seq(|chain|, k requires 0 <= k < |chain| => CrumbOf(chain[k]))
  }

  /** The prepending loop yields the fetched ancestors in root-to-leaf order,
      ahead of what it started with. */
  lemma {:induction false} WalkIsChain(server: Server, rank: int -> nat, cur: Option<int>, path: seq<Crumb>)
    requires Ranked(server, rank)
    ensures Walk(server, rank, cur, path) == Crumbs(Chain(server, rank, cur)) + path
    decreases Measure(rank, cur)
  {
    if cur.Some? && server(cur.value).Resolved? {
      var c := server(cur.value).data;
      StepDown(server, rank, cur.value);
      WalkIsChain(server, rank, c.parentId, [CrumbOf(c)] + path);
      var up := Chain(server, rank, c.parentId);
      assert Crumbs(up + [c]) == Crumbs(up) + [CrumbOf(c)];
    }
  }

  /** The fetched chain, characterised without the loop: its last record is
      the answer for the starting parent, each record is the answer for the
      parent of the next one, and the first record is a top-level folder or
      one whose parent could not be fetched. An empty chain means there was
      no parent or its fetch failed. */
  lemma {:induction false} ChainShape(server: Server, rank: int -> nat, cur: Option<int>)
    requires Ranked(server, rank)
    ensures var ch := Chain(server, rank, cur);
            && (ch == [] <==> cur.None? || server(cur.value).Rejected?)
            && (ch != [] ==> server(cur.value) == Resolved(ch[|ch| - 1]))
            && (forall k :: 1 <= k < |ch| ==>
                  ch[k].parentId.Some? && server(ch[k].parentId.value) == Resolved(ch[k - 1]))
            && (ch != [] ==> ch[0].parentId.None? || server(ch[0].parentId.value).Rejected?)
    decreases Measure(rank, cur)
  {
    if cur.Some? && server(cur.value).Resolved? {
      var c := server(cur.value).data;
      StepDown(server, rank, cur.value);
      ChainShape(server, rank, c.parentId);
      var up := Chain(server, rank, c.parentId);
      var ch := up + [c];
      assert Chain(server, rank, cur) == ch;
      forall k | 1 <= k < |ch|
        ensures ch[k].parentId.Some? && server(ch[k].parentId.value) == Resolved(ch[k - 1])
      {
        if k < |up| {
          assert ch[k] == up[k] && ch[k - 1] == up[k - 1];
        } else {
          assert ch[k] == c && ch[k - 1] == up[|up| - 1];
        }
      }
      if up != [] {
        assert ch[0] == up[0];
      }
    }
  }

  /** The path starts at Home, ends at the target, and in between holds one
      crumb per ancestor fetched successfully, root first. */
  lemma BreadcrumbPathShape(server: Server, rank: int -> nat, folder: FolderModel)
    requires Ranked(server, rank)
    ensures var p := BuildBreadcrumbPath(server, rank, folder);
            var ch := Chain(server, rank, folder.parentId);
            && |p| == 2 + |ch|
            && p[0] == Home
            && p[|p| - 1] == Crumb(Some(folder.id), folder.name)
            && (forall k :: 0 <= k < |ch| ==> p[k + 1] == CrumbOf(ch[k]))
  {
    var last := [Crumb(Some(folder.id), folder.name)];
    var ch := Chain(server, rank, folder.parentId);
    WalkIsChain(server, rank, folder.parentId, last);
    var cs := Crumbs(ch);
    var p := [Home] + (cs + last);
    assert BuildBreadcrumbPath(server, rank, folder) == p;
    forall k | 0 <= k < |ch| ensures p[k + 1] == CrumbOf(ch[k]) {
      assert p[k + 1] == cs[k];
    }
  }

  // ---------------------------------------------------------------------
  // Page state.

  datatype Severity = Success | Failure

  datatype Page = Page(
    store: Store,
    files: seq<FileModel>,
    folders: seq<FolderModel>,
    loading: bool,
    initialLoad: bool,
    previousParam: Option<string>,
    menu: Option<Option<Item>>,
    createOpen: bool,
    newFolderName: string,
    deleteOpen: bool,
    itemToDelete: Option<Item>,
    recursiveDelete: bool,
    infoFile: Option<FileModel>,
    versionFile: Option<FileModel>,
    shareFile: Option<FileModel>,
    renameItem: Option<Item>,
    snackbar: Option<Severity>)

  function InitialPage(store: Store): Page {
    Page(store, [], [], false, true, None, None, false, "", false, None, false, None, None, None, None, None)
  }

  /** `fetchContents`, run when the URL parameter or the refresh counter
      changes. `skeleton` tells whether the loading placeholder was shown.
      A parameter that does not parse is `NaN`, whose request fails. */
  function FetchContents(p: Page, param: Option<string>, server: Server, rank: int -> nat): (r: (Page, bool))
    requires Ranked(server, rank)
    ensures var (p', skeleton) := r;
            && !p'.loading && !p'.initialLoad && p'.previousParam == param
            && (skeleton <==> p.initialLoad || p.previousParam != param)
            && p'.store.refreshTrigger == p.store.refreshTrigger
            && p'.store.selectedItems == p.store.selectedItems
  {
    var skeleton := p.initialLoad || p.previousParam != param;
    var settled := p.(loading := false, initialLoad := false, previousParam := param);
    var fid := Breadcrumbs.UrlFolder(param);
    var answer := if fid.None? then Rejected else server(fid.value);
    match answer
    case Rejected => (settled.(snackbar := Some(Failure)), skeleton)
    case Resolved(c) =>
      var listed := settled.(files := c.files, folders := c.subFolders);
      if fid.value == 0 then
        (listed.(store := SetBreadcrumbs(SetCurrentFolder(p.store, None, None), [Home])), skeleton)
      else
        var folder := FolderModel(fid.value, c.name, c.parentId);
        var path := BuildBreadcrumbPath(server, rank, folder);
        (listed.(store := SetBreadcrumbs(SetCurrentFolder(p.store, Some(fid.value), Some(folder)), path)), skeleton)
  }

  /** A failed listing leaves the store, the files and the folders as they
      were and shows an error. */
  lemma FetchFailureKeepsState(p: Page, param: Option<string>, server: Server, rank: int -> nat)
    requires Ranked(server, rank)
    requires Breadcrumbs.UrlFolder(param).None? || server(Breadcrumbs.UrlFolder(param).value).Rejected?
    ensures var p' := FetchContents(p, param, server, rank).0;
            p'.store == p.store && p'.files == p.files && p'.folders == p.folders && p'.snackbar == Some(Failure)
  {
  }

  /** No URL parameter is folder 0, the root: breadcrumbs exactly [Home], no
      current folder, no walk. */
  lemma RootHasHomeOnly(p: Page, server: Server, rank: int -> nat, c: FolderContents)
    requires Ranked(server, rank) && server(0) == Resolved(c)
    ensures var s := FetchContents(p, None, server, rank).0.store;
            s.breadcrumbs == [Home] && s.currentFolderId.None? && s.currentFolder.None?
    ensures FetchContents(p, None, server, rank).0.folders == c.subFolders
  {
  }

  /** A non-root folder becomes the current folder, and the trail runs from
      Home to it through its fetched ancestors. */
  lemma FolderHasFullPath(p: Page, id: int, server: Server, rank: int -> nat, c: FolderContents)
    requires Ranked(server, rank) && id != 0 && server(id) == Resolved(c)
    ensures var s := FetchContents(p, Some(Text.IntToString(id)), server, rank).0.store;
            var ch := Chain(server, rank, c.parentId);
            && s.currentFolderId == Some(id)
            && s.currentFolder == Some(FolderModel(id, c.name, c.parentId))
            && |s.breadcrumbs| == 2 + |ch|
            && s.breadcrumbs[0] == Home
            && s.breadcrumbs[|s.breadcrumbs| - 1] == Crumb(Some(id), c.name)
  {
    Text.ParseIntPrefixRendered(id);
    assert Text.IntToString(id) != "";
    BreadcrumbPathShape(server, rank, FolderModel(id, c.name, c.parentId));
  }

  /** A refresh of the folder already shown does not flash the placeholder. */
  lemma RefreshWithoutSkeleton(p: Page, param: Option<string>, server: Server, rank: int -> nat)
    requires Ranked(server, rank)
    ensures var (p1, _) := FetchContents(p, param, server, rank);
            !FetchContents(p1, param, server, rank).1
  {
  }

  // ---------------------------------------------------------------------
  // The context menu's actions.

  /** The branch conditions of `handleAction`. */
  predicate Handled(action: MenuAction, item: Option<Item>) {
    match action
    case CreateFolder => true
    case Download => item.Some? && IsFile(item.value)
    case Share => item.Some? && IsFile(item.value)
    case Info => item.Some? && IsFile(item.value)
    case Versions => item.Some? && IsFile(item.value)
    case Rename => item.Some?
    case Delete => item.Some?
  }

  /** `handleAction`: close the menu, then open the dialog or panel the
      action names; `download` is the file download request, if any. */
  function HandleAction(p: Page, action: MenuAction, item: Option<Item>): (r: (Page, Option<int>))
    ensures r.0.menu.None?
    ensures !Handled(action, item) ==> r == (p.(menu := None), None)
    ensures r.1.Some? <==> action.Download? && Handled(action, item)
  {
    var closed := p.(menu := None);
    if !Handled(action, item) then (closed, None)
    else match action
      case CreateFolder => (closed.(newFolderName := "", createOpen := true), None)
      case Info => (closed.(infoFile := Some(item.value.file)), None)
      case Versions => (closed.(versionFile := Some(item.value.file)), None)
      case Download => (closed, Some(item.value.file.id))
      case Share => (closed.(shareFile := Some(item.value.file)), None)
      case Rename => (closed.(renameItem := item), None)
      case Delete => (closed.(itemToDelete := item, recursiveDelete := false, deleteOpen := true), None)
  }

  /** The menu and the page agree: an action is handled exactly when the
      menu offers it for that item. */
  lemma OfferedIffHandled(action: MenuAction, item: Option<Item>)
    ensures action in Offered(item) <==> Handled(action, item)
  {
    if item.Some? && IsFile(item.value) {
      assert Offered(item) == [CreateFolder, Download, Share, Info, Versions, Rename, Delete];
    } else if item.Some? {
      assert Offered(item) == [CreateFolder, Rename, Delete];
    }
  }

  // ---------------------------------------------------------------------
  // Create, delete and rename.

  datatype CreateRequest = CreateRequest(name: string, parentId: Option<int>)

  /** `handleCreateFolder`: a blank name sends nothing; otherwise the trimmed
      name is sent under the current folder, and success refreshes once and
      resets the dialog while failure leaves it open with its text. */
  function HandleCreateFolder(p: Page, succeeded: bool): (r: (Page, Option<CreateRequest>))
    ensures var (p', req) := r;
            && (req.None? <==> Text.AllSpace(p.newFolderName))
            && (req.None? ==> p' == p)
            && (req.Some? ==> req.value == CreateRequest(Text.Trim(p.newFolderName), p.store.currentFolderId))
            && (p'.store.refreshTrigger == if req.Some? && succeeded then p.store.refreshTrigger + 1 else p.store.refreshTrigger)
            && (req.Some? && succeeded ==> !p'.createOpen && p'.newFolderName == "")
            && (req.Some? && !succeeded ==> p'.createOpen == p.createOpen && p'.newFolderName == p.newFolderName)
  {
    var name := Text.Trim(p.newFolderName);
    Text.TrimEmptyIffAllSpace(p.newFolderName);
    if name == [] then (p, None)
    else
      var req := CreateRequest(name, p.store.currentFolderId);
      if succeeded then
        (p.(store := TriggerRefresh(p.store), createOpen := false, newFolderName := "", snackbar := Some(Success)), Some(req))
      else
        (p.(snackbar := Some(Failure)), Some(req))
  }

  datatype DeleteRequest = DeleteFile(fileId: int) | DeleteFolder(request: Services.DeleteFolderRequest)

  /** `handleConfirmDelete`: nothing without an item; otherwise the file or
      the folder (with the dialog's recursive flag) is deleted, a success
      refreshes once, and the dialog is reset either way. */
  function HandleConfirmDelete(p: Page, succeeded: bool): (r: (Page, Option<DeleteRequest>))
    ensures var (p', req) := r;
            && (req.None? <==> p.itemToDelete.None?)
            && (req.None? ==> p' == p)
            && (p'.store.refreshTrigger == if req.Some? && succeeded then p.store.refreshTrigger + 1 else p.store.refreshTrigger)
            && (req.Some? ==> !p'.deleteOpen && p'.itemToDelete.None? && !p'.recursiveDelete)
            && (req.Some? && req.value.DeleteFolder? ==>
                  p.itemToDelete.value.FolderItem? &&
                  req.value.request == Services.DeleteFolderRequest(p.itemToDelete.value.folder.id, p.recursiveDelete))
            && (req.Some? && req.value.DeleteFile? ==>
                  p.itemToDelete.value.FileItem? && req.value.fileId == p.itemToDelete.value.file.id)
  {
    match p.itemToDelete
    case None => (p, None)
    case Some(item) =>
      var req := if IsFile(item) then DeleteFile(item.file.id)
                 else DeleteFolder(Services.DeleteFolder(item.folder.id, Some(p.recursiveDelete)));
      var after := if succeeded then p.(store := TriggerRefresh(p.store), snackbar := Some(Success))
                   else p.(snackbar := Some(Failure));
      (after.(deleteOpen := false, itemToDelete := None, recursiveDelete := false), Some(req))
  }

  datatype RenameRequest = RenameRequest(fileId: int, filename: string)

  /** `handleRename`: a file is renamed on the server; a folder sends no
      request at all, yet the page still refreshes and reports success.
      The result is whether the promise resolves. */
  function HandleRename(p: Page, newName: string, succeeded: bool): (r: (Page, Option<RenameRequest>, bool))
    ensures var (p', req, resolved) := r;
            && (p.renameItem.None? ==> p' == p && req.None? && resolved)
            && (p.renameItem.Some? && p.renameItem.value.FolderItem? ==>
                  req.None? && resolved && p'.store.refreshTrigger == p.store.refreshTrigger + 1)
            && (p.renameItem.Some? && p.renameItem.value.FileItem? ==>
                  req == Some(RenameRequest(p.renameItem.value.file.id, newName)) && resolved == succeeded)
            && (p'.store.refreshTrigger == if p.renameItem.Some? && resolved then p.store.refreshTrigger + 1 else p.store.refreshTrigger)
  {
    match p.renameItem
    case None => (p, None, true)
    case Some(item) =>
      var req := if IsFile(item) then Some(RenameRequest(item.file.id, newName)) else None;
      var ok := !IsFile(item) || succeeded;
      if ok then (p.(store := TriggerRefresh(p.store), snackbar := Some(Success)), req, true)
      else (p.(snackbar := Some(Failure)), req, false)
  }

  /** The rename dialog wired to `handleRename`: a submit the dialog lets
      through hands the trimmed name over. A folder rename sends nothing,
      yet the dialog closes and the page refreshes once; a file rename sends
      the request, and the dialog closes, and the page refreshes, exactly
      when it succeeded. */
  lemma RenameThroughDialog(p: Page, d: RenameDialog.Dialog, succeeded: bool)
    requires p.renameItem.Some?
    ensures var current := RenameDialog.CurrentName(p.renameItem);
            var name := Text.Trim(d.newName);
            var (p', req, resolved) := HandleRename(p, name, succeeded);
            var sub := RenameDialog.Submit(d, current, resolved);
            RenameDialog.Submittable(d, current) ==>
              && sub.renamedTo == Some(name)
              && (p.renameItem.value.FolderItem? ==>
                    req.None? && sub.closed && p'.store.refreshTrigger == p.store.refreshTrigger + 1)
              && (p.renameItem.value.FileItem? ==>
                    && req == Some(RenameRequest(p.renameItem.value.file.id, name))
                    && (sub.closed <==> succeeded)
                    && p'.store.refreshTrigger == p.store.refreshTrigger + (if succeeded then 1 else 0))
  {
  }
}
