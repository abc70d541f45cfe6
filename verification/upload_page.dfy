/** The upload page (frontend/src/pages/Upload.tsx): the destination picker
  built by walking the folder hierarchy, its display names, the mapping
  between picker values and folder ids, and the page's own create-folder
  dialog.

  The server's answers during one `buildFolderTree` run are a tree: the
  answer to `folderApi.list(null)` and, under every listed folder, the
  answer to listing that folder.
 */
module UploadPage {
  import opened Common
  import opened Api
  import Text
  import FileStore

  /** A listed folder with the answer to listing its own subfolders:
      whether that request succeeded and, if it did, what it returned. */
  datatype Dir = Dir(folder: FolderModel, listed: bool, entries: seq<Dir>)

  /** The answer to listing the top level. */
  datatype Listing = Failed | Listed(entries: seq<Dir>)

  /** `FolderNode`: a folder with its depth in the picker. */
  datatype FolderNode = FolderNode(folder: FolderModel, level: nat)

  /** `fetchChildren` over the folders of one successful listing: each folder,
      then everything its own listing yields one level deeper. */
  function Flatten(ds: seq<Dir>, level: nat): (r: seq<FolderNode>)
    ensures |r| >= |ds|
    decreases ds
  {
    if ds == [] then []
    else
      var d := ds[0];
      [FolderNode(d.folder, level)]
        + (if d.listed then Flatten(d.entries, level + 1) else [])
        + Flatten(ds[1..], level)
  }

  /** `fetchChildren(folder.id, level)`: a failed listing contributes nothing. */
  function Descendants(d: Dir, level: nat): seq<FolderNode> {
    if d.listed then Flatten(d.entries, level) else []
  }

  /** `buildFolderTree`, i.e. `fetchChildren(null, 0)`: the whole picker list. */
  function BuildFolderList(root: Listing): (r: seq<FolderNode>)
    ensures root.Failed? ==> r == []
    ensures root.Listed? ==> |r| >= |root.entries|
  {
    if root.Listed? then Flatten(root.entries, 0) else []
  }

  /** Siblings are flattened one after another, in listing order. */
  lemma {:induction false} FlattenConcat(a: seq<Dir>, b: seq<Dir>, level: nat)
    ensures Flatten(a + b, level) == Flatten(a, level) + Flatten(b, level)
    decreases |a|
  {
    if a == [] {
      assert a + b == b;
    } else {
      assert (a + b)[0] == a[0];
      assert (a + b)[1..] == a[1..] + b;
      FlattenConcat(a[1..], b, level);
    }
  }

  /** Pre-order: the i-th listed folder comes right after the entries of the
      folders before it, and right before its own descendants, which come
      before the later siblings. */
  lemma FlattenSplit(ds: seq<Dir>, i: nat, level: nat)
    requires i < |ds|
    ensures Flatten(ds, level) ==
              Flatten(ds[..i], level) + [FolderNode(ds[i].folder, level)]
              + Descendants(ds[i], level + 1) + Flatten(ds[i + 1..], level)
  {
    var tail := ds[i..];
    var before := Flatten(ds[..i], level);
    var node := [FolderNode(ds[i].folder, level)];
    var below := Descendants(ds[i], level + 1);
    var after := Flatten(ds[i + 1..], level);
    assert Flatten(ds, level) == before + Flatten(tail, level) by {
      assert ds == ds[..i] + tail;
      FlattenConcat(ds[..i], tail, level);
    }
    assert Flatten(tail, level) == node + below + after by {
      assert tail[0] == ds[i] && tail[1..] == ds[i + 1..];
      FlattenFirst(tail, level);
    }
    assert before + (node + below + after) == before + node + below + after;
  }

  /** One step of the walk: the first folder, its descendants, then the rest. */
  lemma FlattenFirst(ds: seq<Dir>, level: nat)
    requires ds != []
    ensures Flatten(ds, level) ==
              [FolderNode(ds[0].folder, level)] + Descendants(ds[0], level + 1) + Flatten(ds[1..], level)
  {
  }

  /** A failed listing under one folder drops only that folder's descendants:
      the folder itself and every sibling entry before and after remain. */
  lemma FailureOmitsOnlyDescendants(ds: seq<Dir>, i: nat, level: nat)
    requires i < |ds|
    ensures Flatten(ds[i := ds[i].(listed := false)], level) ==
              Flatten(ds[..i], level) + [FolderNode(ds[i].folder, level)] + Flatten(ds[i + 1..], level)
  {
    var ds' := ds[i := ds[i].(listed := false)];
    FlattenSplit(ds', i, level);
    assert ds'[..i] == ds[..i] && ds'[i + 1..] == ds[i + 1..];
  }

  /** Levels: no entry of `r` lies above `level`, the first entry is at it,
      and each entry is at most one level deeper than the one before. */
  predicate Layered(r: seq<FolderNode>, level: nat) {
    && (forall k :: 0 <= k < |r| ==> r[k].level >= level)
    && (r != [] ==> r[0].level == level)
    && (forall k :: 1 <= k < |r| ==> r[k].level <= r[k - 1].level + 1)
  }

  /** The picker list is layered from its starting level. */
  lemma {:induction false} FlattenLevels(ds: seq<Dir>, level: nat)
    ensures Layered(Flatten(ds, level), level)
    decreases ds
  {
    if ds != [] {
      var d := ds[0];
      var kids := if d.listed then Flatten(d.entries, level + 1) else [];
      if d.listed {
        FlattenLevels(d.entries, level + 1);
      }
      FlattenLevels(ds[1..], level);
      var head := [FolderNode(d.folder, level)] + kids;
      assert Flatten(ds, level) == head + Flatten(ds[1..], level);
      JoinLevels([FolderNode(d.folder, level)], kids, level, level + 1);
      JoinLevels(head, Flatten(ds[1..], level), level, level);
    }
  }

  /** A layered run followed by one layered from `next`, at most one level
      deeper, is still layered. */
  lemma JoinLevels(a: seq<FolderNode>, b: seq<FolderNode>, level: nat, next: nat)
    requires a != [] && Layered(a, level)
    requires level <= next <= level + 1 && Layered(b, next)
    ensures Layered(a + b, level)
  {
    var r := a + b;
    forall k | 1 <= k < |r| ensures r[k].level <= r[k - 1].level + 1 {
      if k < |a| {
        assert r[k] == a[k] && r[k - 1] == a[k - 1];
      } else if k == |a| {
        assert r[k] == b[0] && r[k - 1] == a[|a| - 1];
      } else {
        assert r[k] == b[k - |a|] && r[k - 1] == b[k - 1 - |a|];
      }
    }
    forall k | 0 <= k < |r| ensures r[k].level >= level {
      if k < |a| { assert r[k] == a[k]; } else { assert r[k] == b[k - |a|]; }
    }
  }

  /** The entries at the starting level are exactly the listed folders, in
      listing order; every other entry sits deeper. */
  function AtLevel(r: seq<FolderNode>, level: nat): seq<FolderModel> {
    if r == [] then []
    else (if r[0].level == level then [r[0].folder] else []) + AtLevel(r[1..], level)
  }

  lemma {:induction false} AtLevelConcat(a: seq<FolderNode>, b: seq<FolderNode>, level: nat)
    ensures AtLevel(a + b, level) == AtLevel(a, level) + AtLevel(b, level)
    decreases |a|
  {
    if a == [] {
      assert a + b == b;
    } else {
      var head := if a[0].level == level then [a[0].folder] else [];
      assert (a + b)[0] == a[0];
      assert (a + b)[1..] == a[1..] + b;
      AtLevelConcat(a[1..], b, level);
      assert AtLevel(a + b, level) == head + (AtLevel(a[1..], level) + AtLevel(b, level));
      assert AtLevel(a, level) == head + AtLevel(a[1..], level);
    }
  }

  lemma {:induction false} AtLevelDeeper(r: seq<FolderNode>, level: nat)
    requires forall k :: 0 <= k < |r| ==> r[k].level > level
    ensures AtLevel(r, level) == []
    decreases |r|
  {
    if r != [] {
      AtLevelDeeper(r[1..], level);
    }
  }

  lemma {:induction false} TopLevelIsListing(ds: seq<Dir>, level: nat)
    ensures AtLevel(Flatten(ds, level), level) == seq(|ds|, k requires 0 <= k < |ds| => ds[k].folder)
    decreases ds
  {
    if ds != [] {
      var d := ds[0];
      var kids := if d.listed then Flatten(d.entries, level + 1) else [];
      if d.listed {
        FlattenLevels(d.entries, level + 1);
      }
      AtLevelDeeper(kids, level);
      TopLevelIsListing(ds[1..], level);
      AtLevelConcat([FolderNode(d.folder, level)] + kids, Flatten(ds[1..], level), level);
      AtLevelConcat([FolderNode(d.folder, level)], kids, level);
      assert AtLevel([FolderNode(d.folder, level)], level) == [d.folder];
    }
  }

  // ---------------------------------------------------------------------
  // Display names.

  /** The branch marker as the source file spells it: the UTF-8 bytes of
      "└ " read back as Windows-1252 text. */
  const BranchPrefix: string := "\U{00E2}\U{201D}\U{201D} "

  /** `getFolderDisplayName`: two spaces per level, the branch marker below
      the top level, then the name. */
  function DisplayName(n: FolderNode): (r: string)
    ensures |r| == 2 * n.level + (if n.level > 0 then |BranchPrefix| else 0) + |n.folder.name|
    ensures forall k :: 0 <= k < 2 * n.level ==> r[k] == ' '
    ensures n.level > 0 ==> r[2 * n.level..2 * n.level + |BranchPrefix|] == BranchPrefix
    ensures r[|r| - |n.folder.name|..] == n.folder.name
  {
    var indent := Text.Repeat("  ", n.level);
    var r := indent + (if n.level > 0 then BranchPrefix else "") + n.folder.name;
    assert r[..|indent|] == indent;
    r
  }

  // ---------------------------------------------------------------------
  // The folder picker.

  /** The picker's value for a selection: '' for the root, else the id. */
  function SelectValue(selected: Option<int>): string {
    if selected.None? then "" else Text.IntToString(selected.value)
  }

  /** The picker's `onChange`: '' is the root, anything else `Number(value)`. */
  function OnSelect(value: string): Option<Option<int>> {
    if value == "" then Some(None)
    else match Text.ParseInt(value)
      case None => None
      case Some(id) => Some(Some(id))
  }

  /** Picking the value shown for a selection gives back that selection. */
  lemma SelectRoundTrip(selected: Option<int>)
    ensures OnSelect(SelectValue(selected)) == Some(selected)
  {
    if selected.Some? {
      Text.IntToStringRoundTrip(selected.value);
    }
  }

  datatype Page = Page(
    store: FileStore.Store,
    selectedFolderId: Option<int>,
    folders: seq<FolderNode>,
    createOpen: bool,
    newFolderName: string,
    parentFolderId: Option<int>,
    snackbar: bool)

  /** The picker's selection and the store's current folder name the same
      destination, so uploads go where the picker shows. */
  predicate Mirrored(p: Page) {
    p.store.currentFolderId == p.selectedFolderId
  }

  /** Mounting the page: the selection starts at the root, the selection
      effect runs at once and points the store at the root too, and the
      picker is built from the top-level listing; both dialogs start closed
      and empty. */
  function Mount(store: FileStore.Store, root: Listing): (r: Page)
    ensures r.selectedFolderId.None? && r.store == FileStore.SetCurrentFolder(store, None, None)
    ensures r.folders == BuildFolderList(root)
    ensures !r.createOpen && r.newFolderName == "" && r.parentFolderId.None? && !r.snackbar
    ensures Mirrored(r)
  {
    Page(FileStore.SetCurrentFolder(store, None, None), None, BuildFolderList(root), false, "", None, false)
  }

  /** A destination chosen in the picker, then mirrored into the store by the
      page's effect (with no folder record). */
  function ChooseDestination(p: Page, value: string): (r: Page)
    ensures OnSelect(value).None? ==> r == p
    ensures OnSelect(value).Some? ==>
              r.selectedFolderId == OnSelect(value).value &&
              r.store == FileStore.SetCurrentFolder(p.store, OnSelect(value).value, None)
  {
    match OnSelect(value)
    case None => p
    case Some(sel) => p.(selectedFolderId := sel, store := FileStore.SetCurrentFolder(p.store, sel, None))
  }

  /** Drop and file-input change: the files go to the upload queue only when
      there is at least one. */
  function FilesChosen(files: seq<FileHandle>): (event: Option<seq<FileHandle>>)
    ensures event.Some? <==> |files| > 0
    ensures event.Some? ==> event.value == files
  {
    if |files| > 0 then Some(files) else None
  }

  datatype CreateRequest = CreateRequest(name: string, parentId: Option<int>)

  /** `handleCreateFolder`: a blank name sends nothing; otherwise the trimmed
      name is sent under the chosen parent. Success closes and resets the
      dialog and rebuilds the picker from `relisted`; failure changes nothing. */
  function HandleCreateFolder(p: Page, succeeded: bool, relisted: Listing): (r: (Page, Option<CreateRequest>))
    ensures var (p', req) := r;
            && (req.None? <==> Text.AllSpace(p.newFolderName))
            && (req.Some? ==> req.value == CreateRequest(Text.Trim(p.newFolderName), p.parentFolderId))
            && (req.None? || !succeeded ==> p' == p)
            && (req.Some? && succeeded ==>
                  !p'.createOpen && p'.newFolderName == "" && p'.parentFolderId.None? &&
                  p'.folders == BuildFolderList(relisted))
  {
    var name := Text.Trim(p.newFolderName);
    Text.TrimEmptyIffAllSpace(p.newFolderName);
    if name == [] then (p, None)
    else
      var req := CreateRequest(name, p.parentFolderId);
      if succeeded then
        (p.(snackbar := true, createOpen := false, newFolderName := "", parentFolderId := None,
            folders := BuildFolderList(relisted)), Some(req))
      else (p, Some(req))
  }

  /** What can happen to a mounted page: a pick in the picker, a folder
      created through the dialog, or a refresh raised elsewhere (the upload
      queue's, after a pass). */
  datatype PageEvent = Choose(value: string) | CreateFolder(succeeded: bool, relisted: Listing) | Refreshed

  function Step(p: Page, e: PageEvent): Page {
    match e
    case Choose(value) => ChooseDestination(p, value)
    case CreateFolder(succeeded, relisted) => HandleCreateFolder(p, succeeded, relisted).0
    case Refreshed => p.(store := FileStore.TriggerRefresh(p.store))
  }

  function RunPage(p: Page, events: seq<PageEvent>): Page
    decreases |events|
  {
    if events == [] then p else RunPage(Step(p, events[0]), events[1..])
  }

  /** Every event keeps the picker and the store in agreement. */
  lemma StepKeepsMirrored(p: Page, e: PageEvent)
    requires Mirrored(p)
    ensures Mirrored(Step(p, e))
  {
    match e
    case Choose(value) =>
    case CreateFolder(succeeded, relisted) =>
      var (p', req) := HandleCreateFolder(p, succeeded, relisted);
      assert p'.store == p.store && p'.selectedFolderId == p.selectedFolderId;
    case Refreshed =>
  }

  /** From mount on, whatever happens on the page, the store's current
      folder is the one the picker shows. */
  lemma {:induction false} MirroredFromMount(store: FileStore.Store, root: Listing, events: seq<PageEvent>)
    ensures Mirrored(RunPage(Mount(store, root), events))
  {
    RunKeepsMirrored(Mount(store, root), events);
  }

  lemma {:induction false} RunKeepsMirrored(p: Page, events: seq<PageEvent>)
    requires Mirrored(p)
    ensures Mirrored(RunPage(p, events))
    decreases |events|
  {
    if events != [] {
      StepKeepsMirrored(p, events[0]);
      RunKeepsMirrored(Step(p, events[0]), events[1..]);
    }
  }
}
