/** The folder endpoints of the backend (backend/app/routers/folders.py):
  creating a folder under an existing parent, listing children, the
  contents of a folder (with the virtual root, id 0), and deleting a
  folder, recursively or only when it is empty.

  The recursive delete walks the hierarchy top-down, one subfolder at a
  time; it is proved equal to a direct description: every folder inside
  the deleted one goes, with every file stored in any of them and every
  version of those files.
 */
module BackendFolders {
  import opened Common
  import opened Backend

  // ---------------------------------------------------------------------
  // Listing.

  function WithParent(parentId: Option<int>): FolderRow -> bool {
    (f: FolderRow) => f.parentId == parentId
  }

  function InFolder(folderId: Option<int>): FileRow -> bool {
    (f: FileRow) => f.folderId == folderId
  }

  /** `list_folders`: the folders whose parent is `parentId` (the
      parentless ones for `None`), in table order. */
  function ListFolders(db: Db, parentId: Option<int>): (r: seq<FolderRow>)
    ensures forall f | f in r :: f in db.folders && f.parentId == parentId
    ensures forall f | f in db.folders && f.parentId == parentId :: f in r
  {
    Filter(db.folders, WithParent(parentId))
  }

  /** The files stored directly in a folder (`None`: in no folder). */
  function FilesIn(db: Db, folderId: Option<int>): (r: seq<FileRow>)
    ensures forall f | f in r :: f in db.files && f.folderId == folderId
    ensures forall f | f in db.files && f.folderId == folderId :: f in r
  {
    Filter(db.files, InFolder(folderId))
  }

  // ---------------------------------------------------------------------
  // Creating.

  /** A parent id the handler checks: present and not 0. */
  predicate Truthy(parentId: Option<int>) {
    parentId.Some? && parentId.value != 0
  }

  /** `create_folder`: 404 when a truthy parent id names no folder;
      otherwise a row with the next id, stored with the parent id as
      given (so also with parent 0, which is never checked). */
  function CreateFolder(db: Db, name: string, parentId: Option<int>): (r: Http<(Db, FolderRow)>)
    ensures r.Status? <==> Truthy(parentId) && FindFolder(db, parentId.value).None?
    ensures r.Status? ==> r.code == 404
  {
    if Truthy(parentId) && FindFolder(db, parentId.value).None? then Status(404)
    else
      var f := FolderRow(NextId(FolderIds(db.folders)), name, parentId);
      Ok((db.(folders := db.folders + [f]), f))
  }

  /** A created folder has a fresh id, the given name and parent, and is
      listed last among its parent's children; nothing else changes. */
  lemma CreateFolderEffect(db: Db, name: string, parentId: Option<int>)
    requires CreateFolder(db, name, parentId).Ok?
    ensures var (db', f) := CreateFolder(db, name, parentId).value;
            && f.name == name && f.parentId == parentId
            && (forall g | g in db.folders :: g.id < f.id)
            && ListFolders(db', parentId) == ListFolders(db, parentId) + [f]
            && (forall p | p != parentId :: ListFolders(db', p) == ListFolders(db, p))
            && db'.files == db.files && db'.versions == db.versions && db'.tags == db.tags
  {
    var f := FolderRow(NextId(FolderIds(db.folders)), name, parentId);
    assert CreateFolder(db, name, parentId).value == (db.(folders := db.folders + [f]), f);
    NextFolderIdFresh(db.folders);
    AppendedListing(db, f);
  }

  lemma NextFolderIdFresh(folders: seq<FolderRow>)
    ensures forall g | g in folders :: g.id < NextId(FolderIds(folders))
  {
    forall g | g in folders ensures g.id < NextId(FolderIds(folders)) {
      var k :| 0 <= k < |folders| && folders[k] == g;
      assert FolderIds(folders)[k] == g.id;
    }
  }

  /** An appended folder is listed last under its parent and nowhere else. */
  lemma AppendedListing(db: Db, f: FolderRow)
    ensures var db' := db.(folders := db.folders + [f]);
            && ListFolders(db', f.parentId) == ListFolders(db, f.parentId) + [f]
            && (forall p | p != f.parentId :: ListFolders(db', p) == ListFolders(db, p))
  {
    var db' := db.(folders := db.folders + [f]);
    FilterConcat(db.folders, [f], WithParent(f.parentId));
    forall p | p != f.parentId ensures ListFolders(db', p) == ListFolders(db, p) {
      FilterConcat(db.folders, [f], WithParent(p));
      assert Filter([f], WithParent(p)) == [];
    }
  }

  lemma CreateFolderKeepsWellFormed(db: Db, name: string, parentId: Option<int>)
    requires WellFormed(db) && CreateFolder(db, name, parentId).Ok?
    ensures WellFormed(CreateFolder(db, name, parentId).value.0)
  {
    var (db', f) := CreateFolder(db, name, parentId).value;
    CreateFolderEffect(db, name, parentId);
    if Truthy(parentId) {
      assert FindFolder(db, parentId.value).value.id == parentId.value;
    }
    forall a, b | 0 <= a < b < |db'.folders| ensures db'.folders[a].id != db'.folders[b].id {
      assert db'.folders[a] == db.folders[a] && db.folders[a] in db.folders;
    }
  }

  // ---------------------------------------------------------------------
  // Contents.

  datatype Contents = Contents(id: int, name: string, parentId: Option<int>,
                               subFolders: seq<FolderRow>, files: seq<FileRow>)

  /** `get_folder_contents`: id 0 is the virtual, parentless "Root" whose
      subfolders are the parentless folders and whose files are those in
      no folder; any other id must name a folder (else 404), whose
      children and files are listed. */
  function GetFolderContents(db: Db, folderId: int): (r: Http<Contents>)
    ensures r.Status? <==> folderId != 0 && FindFolder(db, folderId).None?
    ensures r.Status? ==> r.code == 404
    ensures r.Ok? ==> r.value.id == folderId
    ensures r.Ok? && folderId == 0 ==> r.value.name == "Root" && r.value.parentId.None?
    ensures r.Ok? ==>
              var key := if folderId == 0 then None else Some(folderId);
              && (forall f | f in db.folders :: f in r.value.subFolders <==> f.parentId == key)
              && (forall f | f in db.files :: f in r.value.files <==> f.folderId == key)
              && (forall f | f in r.value.subFolders :: f in db.folders)
              && (forall f | f in r.value.files :: f in db.files)
  {
    if folderId == 0 then
      Ok(Contents(0, "Root", None, ListFolders(db, None), FilesIn(db, None)))
    else match FindFolder(db, folderId)
      case None => Status(404)
      case Some(f) => Ok(Contents(f.id, f.name, f.parentId, ListFolders(db, Some(folderId)), FilesIn(db, Some(folderId))))
  }

  /** A folder created with parent 0 is stored, yet shows up neither under
      the root nor under any existing folder. */
  lemma ZeroParentIsHidden(db: Db, name: string, folderId: int)
    requires CreateFolder(db, name, Some(0)).Ok?
    ensures var (db', f) := CreateFolder(db, name, Some(0)).value;
            && f in db'.folders
            && (GetFolderContents(db', folderId).Ok? ==> f !in GetFolderContents(db', folderId).value.subFolders)
  {
  }

  // ---------------------------------------------------------------------
  // The hierarchy seen through parent links.

  /** The parent recorded for folder `x` (the first row with that id);
      `None` for a parentless folder and for an id with no row. */
  function ParentOf(folders: seq<FolderRow>, x: int): (r: Option<int>)
    ensures r.Some? ==> exists f | f in folders :: f.id == x && f.parentId == r
  {
    if folders == [] then None
    else if folders[0].id == x then folders[0].parentId
    else ParentOf(folders[1..], x)
  }

  /** With unique ids the recorded parent is the row's own. */
  lemma {:induction false} ParentOfRow(folders: seq<FolderRow>, f: FolderRow)
    requires UniqueFolderIds(folders) && f in folders
    ensures ParentOf(folders, f.id) == f.parentId
  {
    if folders[0] != f {
      assert f in folders[1..];
      assert folders[0].id != f.id by {
        var k :| 0 <= k < |folders| && folders[k] == f;
      }
      assert UniqueFolderIds(folders[1..]) by {
        forall a, b | 0 <= a < b < |folders[1..]| ensures folders[1..][a].id != folders[1..][b].id {
          assert folders[1..][a] == folders[a + 1] && folders[1..][b] == folders[b + 1];
        }
      }
      ParentOfRow(folders[1..], f);
    }
  }

  lemma {:induction false} ParentOfBelow(folders: seq<FolderRow>, x: int)
    requires Hierarchy(folders) && ParentOf(folders, x).Some?
    ensures 0 <= ParentOf(folders, x).value < x
  {
    var f :| f in folders && f.id == x && f.parentId == ParentOf(folders, x);
    assert ParentBelow(f);
  }

  /** Folder `x` lies strictly inside folder `a`: walking up the parent
      links from `x` reaches `a`. */
  predicate Below(folders: seq<FolderRow>, x: int, a: int)
    decreases x
  {
    match ParentOf(folders, x)
    case None => false
    case Some(p) => p == a || (0 <= p < x && Below(folders, p, a))
  }

  /** The folders strictly inside `a`. */
  function Inside(folders: seq<FolderRow>, a: int): set<int> {
    set f | f in folders && Below(folders, f.id, a) :: f.id
  }

  /** Parents have smaller ids, so an enclosing folder's id is smaller. */
  lemma {:induction false} BelowLess(folders: seq<FolderRow>, x: int, a: int)
    requires Hierarchy(folders) && Below(folders, x, a)
    ensures a < x
    decreases x
  {
    ParentOfBelow(folders, x);
    var p := ParentOf(folders, x).value;
    if p != a {
      BelowLess(folders, p, a);
    }
  }

  lemma {:induction false} BelowTrans(folders: seq<FolderRow>, x: int, y: int, a: int)
    requires Hierarchy(folders) && Below(folders, x, y) && Below(folders, y, a)
    ensures Below(folders, x, a)
    decreases x
  {
    ParentOfBelow(folders, x);
    var p := ParentOf(folders, x).value;
    if p != y {
      BelowTrans(folders, p, y, a);
    }
  }

  /** The enclosing folders of one folder form a chain. */
  lemma {:induction false} AncestorsLinear(folders: seq<FolderRow>, z: int, a: int, b: int)
    requires Below(folders, z, a) && Below(folders, z, b)
    ensures a == b || Below(folders, a, b) || Below(folders, b, a)
    decreases z
  {
    var p := ParentOf(folders, z).value;
    if p != a && p != b {
      AncestorsLinear(folders, p, a, b);
    }
  }

  /** Two different children of one folder: neither lies inside the other,
      and nothing lies inside both. */
  lemma SiblingsApart(folders: seq<FolderRow>, a: int, x: int, y: int)
    requires Hierarchy(folders)
    requires ParentOf(folders, x) == Some(a) && ParentOf(folders, y) == Some(a) && x != y
    ensures !Below(folders, x, y) && !Below(folders, y, x)
    ensures forall z | Below(folders, z, x) :: !Below(folders, z, y)
  {
    ParentOfBelow(folders, x);
    ParentOfBelow(folders, y);
    if Below(folders, x, y) { BelowLess(folders, a, y); }
    if Below(folders, y, x) { BelowLess(folders, a, x); }
    forall z | Below(folders, z, x) ensures !Below(folders, z, y) {
      if Below(folders, z, y) {
        AncestorsLinear(folders, z, x, y);
        if Below(folders, x, y) { BelowLess(folders, a, y); }
        if Below(folders, y, x) { BelowLess(folders, a, x); }
      }
    }
  }

  /** Something inside `a` is a child of `a` or inside one. */
  lemma {:induction false} BelowChild(folders: seq<FolderRow>, y: int, a: int) returns (c: int)
    requires Below(folders, y, a)
    ensures ParentOf(folders, c) == Some(a) && (c == y || Below(folders, y, c))
    decreases y
  {
    var p := ParentOf(folders, y).value;
    if p == a {
      c := y;
    } else {
      c := BelowChild(folders, p, a);
    }
  }

  /** The ids of the folders strictly inside `a` are the children of `a`
      together with what lies inside each child. */
  function Subtrees(folders: seq<FolderRow>, subs: seq<FolderRow>): set<int> {
    if subs == [] then {} else {subs[0].id} + Inside(folders, subs[0].id) + Subtrees(folders, subs[1..])
  }

  lemma {:induction false} SubtreesMembers(folders: seq<FolderRow>, subs: seq<FolderRow>, y: int)
    ensures y in Subtrees(folders, subs) <==>
              exists k :: 0 <= k < |subs| && (y == subs[k].id || y in Inside(folders, subs[k].id))
  {
    if subs != [] {
      SubtreesMembers(folders, subs[1..], y);
      if y in Subtrees(folders, subs[1..]) {
        var k :| 0 <= k < |subs[1..]| && (y == subs[1..][k].id || y in Inside(folders, subs[1..][k].id));
        assert subs[k + 1] == subs[1..][k];
      }
      if exists k :: 1 <= k < |subs| && (y == subs[k].id || y in Inside(folders, subs[k].id)) {
        var k :| 1 <= k < |subs| && (y == subs[k].id || y in Inside(folders, subs[k].id));
        assert subs[1..][k - 1] == subs[k];
      }
    }
  }

  lemma InsideIsSubtrees(db: Db, a: int)
    requires Hierarchy(db.folders) && UniqueFolderIds(db.folders)
    ensures Inside(db.folders, a) == Subtrees(db.folders, ListFolders(db, Some(a)))
  {
    forall y ensures y in Inside(db.folders, a) <==> y in Subtrees(db.folders, ListFolders(db, Some(a))) {
      SubtreesMembers(db.folders, ListFolders(db, Some(a)), y);
      if y in Inside(db.folders, a) {
        InsideUnderChild(db, a, y);
      }
      if y in Subtrees(db.folders, ListFolders(db, Some(a))) {
        ChildSubtreeInside(db, a, y);
      }
    }
  }

  /** A folder inside `a` is a child of `a` or lies inside one. */
  lemma InsideUnderChild(db: Db, a: int, y: int)
    requires Hierarchy(db.folders) && UniqueFolderIds(db.folders) && y in Inside(db.folders, a)
    ensures var subs := ListFolders(db, Some(a));
            exists k :: 0 <= k < |subs| && (y == subs[k].id || y in Inside(db.folders, subs[k].id))
  {
    var F := db.folders;
    var subs := ListFolders(db, Some(a));
    var c := BelowChild(F, y, a);
    var row :| row in F && row.id == c && row.parentId == Some(a);
    var k :| 0 <= k < |subs| && subs[k] == row;
    if c != y {
      assert y in Inside(F, subs[k].id);
    }
  }

  /** A child of `a`, and whatever lies inside it, lies inside `a`. */
  lemma ChildSubtreeInside(db: Db, a: int, y: int)
    requires Hierarchy(db.folders) && UniqueFolderIds(db.folders)
    requires var subs := ListFolders(db, Some(a));
             exists k :: 0 <= k < |subs| && (y == subs[k].id || y in Inside(db.folders, subs[k].id))
    ensures y in Inside(db.folders, a)
  {
    var F := db.folders;
    var subs := ListFolders(db, Some(a));
    var k :| 0 <= k < |subs| && (y == subs[k].id || y in Inside(F, subs[k].id));
    assert subs[k] in subs;
    ParentOfRow(F, subs[k]);
    if y != subs[k].id {
      BelowTrans(F, y, subs[k].id, a);
    }
  }

  // ---------------------------------------------------------------------
  // Deleting.

  function KeepFolder(gone: set<int>): FolderRow -> bool {
    (f: FolderRow) => f.id !in gone
  }

  predicate Emptied(f: FileRow, emptied: set<int>) {
    f.folderId.Some? && f.folderId.value in emptied
  }

  function KeepFile(emptied: set<int>): FileRow -> bool {
    (f: FileRow) => !Emptied(f, emptied)
  }

  /** The ids of the files stored in one of the `emptied` folders. */
  function DoomedFiles(db: Db, emptied: set<int>): set<int> {
    set f | f in db.files && Emptied(f, emptied) :: f.id
  }

  function KeepVersion(doomed: set<int>): VersionRow -> bool {
    (v: VersionRow) => v.fileId !in doomed
  }

  /** The database without the folders in `gone`, without the files stored
      in the folders in `emptied`, and without every version of those
      files; tags stay. */
  function Prune(db: Db, gone: set<int>, emptied: set<int>): (r: Db)
    ensures forall f | f in db.folders :: f in r.folders <==> f.id !in gone
    ensures forall f | f in r.folders :: f in db.folders
    ensures forall f | f in db.files :: f in r.files <==> !Emptied(f, emptied)
    ensures forall f | f in r.files :: f in db.files
    ensures forall v | v in db.versions :: v in r.versions <==>
              !exists f | f in db.files :: f.id == v.fileId && Emptied(f, emptied)
    ensures forall v | v in r.versions :: v in db.versions
    ensures r.tags == db.tags
  {
    Db(Filter(db.folders, KeepFolder(gone)),
       Filter(db.files, KeepFile(emptied)),
       Filter(db.versions, KeepVersion(DoomedFiles(db, emptied))),
       db.tags)
  }

  /** Pruning twice is pruning once by the unions. */
  lemma PruneTwice(db: Db, g1: set<int>, e1: set<int>, g2: set<int>, e2: set<int>)
    ensures Prune(Prune(db, g1, e1), g2, e2) == Prune(db, g1 + g2, e1 + e2)
  {
    var db1 := Prune(db, g1, e1);
    FilterFilter(db.folders, KeepFolder(g1), KeepFolder(g2), KeepFolder(g1 + g2));
    FilterFilter(db.files, KeepFile(e1), KeepFile(e2), KeepFile(e1 + e2));
    var d1 := DoomedFiles(db, e1);
    var d2 := DoomedFiles(db1, e2);
    var d := DoomedFiles(db, e1 + e2);
    assert d == d1 + d2 by {
      forall x | x in d ensures x in d1 + d2 {
        var f :| f in db.files && Emptied(f, e1 + e2) && f.id == x;
        if !Emptied(f, e1) {
          assert f in db1.files;
        }
      }
    }
    FilterFilter(db.versions, KeepVersion(d1), KeepVersion(d2), KeepVersion(d));
  }

  /** Filtering everything in keeps the sequence as it is. */
  lemma {:induction false} FilterAll<T>(s: seq<T>, p: T -> bool)
    requires forall x | x in s :: p(x)
    ensures Filter(s, p) == s
  {
    if s != [] {
      FilterAll(s[1..], p);
      assert s == [s[0]] + s[1..];
    }
  }

  /** `delete_folder_contents`, step 1: the files stored directly in the
      folder, each with all its versions. */
  function DeleteFilesIn(db: Db, id: int): Db {
    Prune(db, {}, {id})
  }

  /** `db.delete(folder)`: the folder's own row. */
  function DeleteRow(db: Db, id: int): Db {
    Prune(db, {id}, {})
  }

  /** Every folder id is at most `bound`. */
  predicate Bounded(folders: seq<FolderRow>, bound: int) {
    forall f | f in folders :: f.id <= bound
  }

  /** `delete_folder_contents(id)`: delete the files in the folder, then
      each subfolder (as listed after that) in turn: its contents first,
      then its row. Each step sees the database the previous steps left.
      The walk ends because a child's id exceeds its parent's. */
  function DeleteContents(db: Db, id: int, bound: int): (r: Db)
    requires Hierarchy(db.folders) && Bounded(db.folders, bound)
    ensures Hierarchy(r.folders) && Bounded(r.folders, bound)
    ensures forall f | f in r.folders :: f in db.folders
    decreases bound - id, 1
  {
    var db1 := DeleteFilesIn(db, id);
    var subs := ListFolders(db1, Some(id));
    assert forall s | s in subs :: ParentBelow(s);
    DeleteSubfolders(db1, id, subs, bound)
  }

  function DeleteSubfolders(db: Db, id: int, subs: seq<FolderRow>, bound: int): (r: Db)
    requires Hierarchy(db.folders) && Bounded(db.folders, bound)
    requires forall s | s in subs :: id < s.id <= bound
    ensures Hierarchy(r.folders) && Bounded(r.folders, bound)
    ensures forall f | f in r.folders :: f in db.folders
    decreases bound - id, 0, |subs|
  {
    if subs == [] then db
    else
      assert subs[0] in subs;
      var db1 := DeleteContents(db, subs[0].id, bound);
      var db2 := DeleteRow(db1, subs[0].id);
      DeleteSubfolders(db2, id, subs[1..], bound)
  }

  // ---------------------------------------------------------------------
  // What removing folders does to the hierarchy.

  lemma {:induction false} ParentOfPruned(folders: seq<FolderRow>, gone: set<int>, x: int)
    ensures ParentOf(Filter(folders, KeepFolder(gone)), x) == if x in gone then None else ParentOf(folders, x)
  {
    if folders != [] {
      var head := folders[0];
      var rest := Filter(folders[1..], KeepFolder(gone));
      ParentOfPruned(folders[1..], gone, x);
      if head.id in gone {
        assert Filter(folders, KeepFolder(gone)) == rest;
      } else {
        var kept := [head] + rest;
        assert Filter(folders, KeepFolder(gone)) == kept;
        assert kept[0] == head && kept[1..] == rest;
      }
    }
  }

  lemma {:induction false} UniqueAfterFilter(folders: seq<FolderRow>, p: FolderRow -> bool)
    requires UniqueFolderIds(folders)
    ensures UniqueFolderIds(Filter(folders, p))
  {
    if folders != [] {
      var tail := folders[1..];
      assert UniqueFolderIds(tail) by {
        forall a, b | 0 <= a < b < |tail| ensures tail[a].id != tail[b].id {
          assert tail[a] == folders[a + 1] && tail[b] == folders[b + 1];
        }
      }
      UniqueAfterFilter(tail, p);
      var rest := Filter(tail, p);
      if p(folders[0]) {
        forall a, b | 0 <= a < b < |rest| + 1 ensures ([folders[0]] + rest)[a].id != ([folders[0]] + rest)[b].id {
          if a == 0 {
            var y := rest[b - 1];
            assert y in rest;
            var k :| 0 <= k < |tail| && tail[k] == y;
            assert folders[k + 1] == y;
          } else {
            assert ([folders[0]] + rest)[a] == rest[a - 1] && ([folders[0]] + rest)[b] == rest[b - 1];
          }
        }
      }
    }
  }

  /** Walking up in the pruned table walks up the same way in the full one. */
  lemma {:induction false} BelowPrunedImplies(folders: seq<FolderRow>, gone: set<int>, y: int, s: int)
    requires Below(Filter(folders, KeepFolder(gone)), y, s)
    ensures Below(folders, y, s)
    decreases y
  {
    var pruned := Filter(folders, KeepFolder(gone));
    ParentOfPruned(folders, gone, y);
    var p := ParentOf(pruned, y).value;
    if p != s {
      BelowPrunedImplies(folders, gone, p, s);
    }
  }

  /** ... and back, as long as nothing removed lies inside `s`. */
  lemma {:induction false} BelowKept(folders: seq<FolderRow>, gone: set<int>, y: int, s: int)
    requires Below(folders, y, s) && y !in gone
    requires forall z | z in gone :: !Below(folders, z, s)
    ensures Below(Filter(folders, KeepFolder(gone)), y, s)
    decreases y
  {
    ParentOfPruned(folders, gone, y);
    var p := ParentOf(folders, y).value;
    if p != s {
      BelowKept(folders, gone, p, s);
    }
  }

  lemma InsidePruned(folders: seq<FolderRow>, gone: set<int>, s: int)
    requires forall z | z in gone :: !Below(folders, z, s)
    ensures Inside(Filter(folders, KeepFolder(gone)), s) == Inside(folders, s)
  {
    var pruned := Filter(folders, KeepFolder(gone));
    forall y ensures y in Inside(pruned, s) <==> y in Inside(folders, s) {
      if y in Inside(pruned, s) {
        var f :| f in pruned && Below(pruned, f.id, s) && f.id == y;
        BelowPrunedImplies(folders, gone, y, s);
      }
      if y in Inside(folders, s) {
        var f :| f in folders && Below(folders, f.id, s) && f.id == y;
        BelowKept(folders, gone, y, s);
        assert f in pruned;
      }
    }
  }

  lemma {:induction false} SubtreesPruned(folders: seq<FolderRow>, gone: set<int>, subs: seq<FolderRow>)
    requires forall s | s in subs :: forall z | z in gone :: !Below(folders, z, s.id)
    ensures Subtrees(Filter(folders, KeepFolder(gone)), subs) == Subtrees(folders, subs)
  {
    if subs != [] {
      assert subs[0] in subs;
      InsidePruned(folders, gone, subs[0].id);
      SubtreesPruned(folders, gone, subs[1..]);
    }
  }

  /** Pruning nothing changes nothing. */
  lemma PruneNothing(db: Db)
    ensures Prune(db, {}, {}) == db
  {
    FilterAll(db.folders, KeepFolder({}));
    FilterAll(db.files, KeepFile({}));
    assert DoomedFiles(db, {}) == {};
    FilterAll(db.versions, KeepVersion({}));
  }

  // ---------------------------------------------------------------------
  // The recursive delete removes exactly the subtree.

  lemma DeleteContentsPrunes(db: Db, a: int, bound: int)
    requires Hierarchy(db.folders) && UniqueFolderIds(db.folders) && Bounded(db.folders, bound)
    ensures DeleteContents(db, a, bound) ==
              Prune(db, Inside(db.folders, a), Inside(db.folders, a) + {a})
    decreases bound - a, 1
  {
    var F := db.folders;
    var db1 := DeleteFilesIn(db, a);
    var subs := ListFolders(db1, Some(a));
    var S := Inside(F, a);
    assert db1.folders == F by {
      FilterAll(F, KeepFolder({}));
    }
    assert DeleteSubfolders(db1, a, subs, bound) == Prune(db1, S, S) by {
      UniqueAfterFilter(F, WithParent(Some(a)));
      forall s | s in subs ensures a < s.id <= bound && ParentOf(F, s.id) == Some(a) {
        assert ParentBelow(s);
        ParentOfRow(F, s);
      }
      DeleteSubfoldersPrunes(db1, a, subs, bound);
      InsideIsSubtrees(db, a);
    }
    assert Prune(db1, S, S) == Prune(db, S, S + {a}) by {
      PruneTwice(db, {}, {a}, S, S);
      assert {} + S == S && {a} + S == S + {a};
    }
  }

  /** Deleting one folder's contents and then its row removes that
      folder's whole subtree. */
  lemma SubtreeGone(db: Db, x: int, bound: int)
    requires Hierarchy(db.folders) && UniqueFolderIds(db.folders) && Bounded(db.folders, bound)
    ensures var R := {x} + Inside(db.folders, x);
            DeleteRow(DeleteContents(db, x, bound), x) == Prune(db, R, R)
    decreases bound - x, 2
  {
    var I0 := Inside(db.folders, x);
    DeleteContentsPrunes(db, x, bound);
    PruneTwice(db, I0, I0 + {x}, {x}, {});
    assert I0 + {x} + {} == {x} + I0 && I0 + {x} == {x} + I0;
  }

  /** The later children of a folder lie outside the first child's subtree,
      and nothing in that subtree lies inside them. */
  lemma LaterSiblingsApart(folders: seq<FolderRow>, a: int, subs: seq<FolderRow>)
    requires Hierarchy(folders) && subs != [] && UniqueFolderIds(subs)
    requires forall s | s in subs :: ParentOf(folders, s.id) == Some(a)
    ensures var R := {subs[0].id} + Inside(folders, subs[0].id);
            forall s | s in subs[1..] :: s.id !in R && forall z | z in R :: !Below(folders, z, s.id)
  {
    assert subs[0] in subs;
    forall s | s in subs[1..]
      ensures s.id !in {subs[0].id} + Inside(folders, subs[0].id)
      ensures forall z | z in {subs[0].id} + Inside(folders, subs[0].id) :: !Below(folders, z, s.id)
    {
      var k :| 0 <= k < |subs[1..]| && subs[1..][k] == s;
      assert subs[k + 1] == s;
      SiblingApart(folders, a, subs[0].id, s.id);
    }
  }

  /** Two distinct children of one folder: neither subtree reaches the other. */
  lemma SiblingApart(folders: seq<FolderRow>, a: int, x: int, y: int)
    requires Hierarchy(folders) && x != y
    requires ParentOf(folders, x) == Some(a) && ParentOf(folders, y) == Some(a)
    ensures y !in {x} + Inside(folders, x)
    ensures forall z | z in {x} + Inside(folders, x) :: !Below(folders, z, y)
  {
    SiblingsApart(folders, a, x, y);
    forall z | z in {x} + Inside(folders, x) ensures !Below(folders, z, y) {
      if z != x {
        var f :| f in folders && Below(folders, f.id, x) && f.id == z;
      }
    }
  }

  lemma DeleteSubfoldersPrunes(db: Db, a: int, subs: seq<FolderRow>, bound: int)
    requires Hierarchy(db.folders) && UniqueFolderIds(db.folders) && Bounded(db.folders, bound)
    requires forall s | s in subs :: a < s.id <= bound && ParentOf(db.folders, s.id) == Some(a)
    requires UniqueFolderIds(subs)
    ensures DeleteSubfolders(db, a, subs, bound) ==
              Prune(db, Subtrees(db.folders, subs), Subtrees(db.folders, subs))
    decreases bound - a, 0, |subs|
  {
    var F := db.folders;
    if subs == [] {
      PruneNothing(db);
    } else {
      var x := subs[0].id;
      var rest := subs[1..];
      var R := {x} + Inside(F, x);
      var db2 := DeleteRow(DeleteContents(db, x, bound), x);
      SubtreeGone(db, x, bound);
      var F2 := Filter(F, KeepFolder(R));
      assert db2.folders == F2;
      LaterSiblingsApart(F, a, subs);
      var T := Subtrees(F, rest);
      assert DeleteSubfolders(db2, a, rest, bound) == Prune(db2, T, T) by {
        UniqueAfterFilter(F, KeepFolder(R));
        forall s | s in rest ensures a < s.id <= bound && ParentOf(F2, s.id) == Some(a) {
          assert s in subs;
          ParentOfPruned(F, R, s.id);
        }
        assert UniqueFolderIds(rest) by {
          forall i, j | 0 <= i < j < |rest| ensures rest[i].id != rest[j].id {
            assert rest[i] == subs[i + 1] && rest[j] == subs[j + 1];
          }
        }
        DeleteSubfoldersPrunes(db2, a, rest, bound);
        SubtreesPruned(F, R, rest);
      }
      PruneTwice(db, R, R, T, T);
    }
  }

  // ---------------------------------------------------------------------
  // `delete_folder`.

  /** Whether the folder has subfolders or files of its own. */
  predicate HasContents(db: Db, id: int) {
    |ListFolders(db, Some(id))| > 0 || |FilesIn(db, Some(id))| > 0
  }

  lemma BoundedByMax(folders: seq<FolderRow>)
    ensures Bounded(folders, MaxId(FolderIds(folders)))
  {
    forall f | f in folders ensures f.id <= MaxId(FolderIds(folders)) {
      var k :| 0 <= k < |folders| && folders[k] == f;
      assert FolderIds(folders)[k] == f.id;
    }
  }

  /** `delete_folder`: 404 for an unknown folder; 400 for a folder with
      contents unless `recursive`; otherwise its contents (when it has
      any) and then the folder itself are deleted. The recursion relies on
      parents having smaller ids. */
  function DeleteFolder(db: Db, id: int, recursive: bool): (r: Http<Db>)
    requires Hierarchy(db.folders)
    ensures r.Status? <==> FindFolder(db, id).None? || (HasContents(db, id) && !recursive)
    ensures FindFolder(db, id).None? ==> r == Status(404)
    ensures FindFolder(db, id).Some? && HasContents(db, id) && !recursive ==> r == Status(400)
  {
    match FindFolder(db, id)
    case None => Status(404)
    case Some(_) =>
      if HasContents(db, id) && !recursive then Status(400)
      else
        var bound := MaxId(FolderIds(db.folders));
        BoundedByMax(db.folders);
        var db1 := if HasContents(db, id) then DeleteContents(db, id, bound) else db;
        Ok(DeleteRow(db1, id))
  }

  /** An empty folder has nothing inside it and no files. */
  lemma EmptyFolder(db: Db, id: int)
    requires Hierarchy(db.folders) && UniqueFolderIds(db.folders) && !HasContents(db, id)
    ensures Inside(db.folders, id) == {}
    ensures DoomedFiles(db, {id}) == {}
    ensures forall f | f in db.files :: !Emptied(f, {id})
  {
    InsideIsSubtrees(db, id);
    assert forall f | f in db.files :: f.folderId != Some(id);
  }

  /** A successful delete removes exactly the folder and everything inside
      it: those folders, the files stored in any of them and every version
      of those files. Other folders, files, versions and tags stay. */
  lemma DeleteFolderRemovesSubtree(db: Db, id: int, recursive: bool)
    requires WellFormed(db) && DeleteFolder(db, id, recursive).Ok?
    ensures var gone := {id} + Inside(db.folders, id);
            DeleteFolder(db, id, recursive).value == Prune(db, gone, gone)
  {
    if HasContents(db, id) {
      RemovesNonEmpty(db, id);
    } else {
      RemovesEmpty(db, id, recursive);
    }
  }

  lemma RemovesNonEmpty(db: Db, id: int)
    requires WellFormed(db) && FindFolder(db, id).Some? && HasContents(db, id)
    ensures var gone := {id} + Inside(db.folders, id);
            DeleteFolder(db, id, true) == Ok(Prune(db, gone, gone))
  {
    var bound := MaxId(FolderIds(db.folders));
    BoundedByMax(db.folders);
    var S := Inside(db.folders, id);
    DeleteContentsPrunes(db, id, bound);
    PruneTwice(db, S, S + {id}, {id}, {});
    assert S + {id} == {id} + S && S + {id} + {} == {id} + S;
  }

  lemma RemovesEmpty(db: Db, id: int, recursive: bool)
    requires WellFormed(db) && FindFolder(db, id).Some? && !HasContents(db, id)
    ensures var gone := {id} + Inside(db.folders, id);
            DeleteFolder(db, id, recursive) == Ok(Prune(db, gone, gone))
  {
    EmptyFolder(db, id);
    assert {id} + Inside(db.folders, id) == {id};
    FilterSame(db.files, KeepFile({}), KeepFile({id}));
    assert DoomedFiles(db, {}) == {};
  }

  /** An empty folder goes whatever `recursive` says; a folder with
      contents stays unless it is set. */
  lemma RecursiveFlagMatters(db: Db, id: int)
    requires Hierarchy(db.folders) && FindFolder(db, id).Some?
    ensures !HasContents(db, id) ==> DeleteFolder(db, id, false) == DeleteFolder(db, id, true)
    ensures HasContents(db, id) ==> DeleteFolder(db, id, false) == Status(400) && DeleteFolder(db, id, true).Ok?
  {
  }

  lemma PruneKeepsWellFormed(db: Db, gone: set<int>, emptied: set<int>)
    requires WellFormed(db)
    ensures WellFormed(Prune(db, gone, emptied))
  {
    var r := Prune(db, gone, emptied);
    UniqueAfterFilter(db.folders, KeepFolder(gone));
    UniqueFileRows(db.files, KeepFile(emptied));
    UniqueVersionRows(db.versions, KeepVersion(DoomedFiles(db, emptied)));
    forall v | v in r.versions ensures exists f | f in r.files :: f.id == v.fileId {
      var f :| f in db.files && f.id == v.fileId;
      assert f in r.files;
    }
  }

  lemma {:induction false} UniqueFileRows(files: seq<FileRow>, p: FileRow -> bool)
    requires UniqueFileIds(files)
    ensures UniqueFileIds(Filter(files, p))
  {
    if files != [] {
      var tail := files[1..];
      assert UniqueFileIds(tail) by {
        forall a, b | 0 <= a < b < |tail| ensures tail[a].id != tail[b].id {
          assert tail[a] == files[a + 1] && tail[b] == files[b + 1];
        }
      }
      UniqueFileRows(tail, p);
      var rest := Filter(tail, p);
      if p(files[0]) {
        forall a, b | 0 <= a < b < |rest| + 1 ensures ([files[0]] + rest)[a].id != ([files[0]] + rest)[b].id {
          if a == 0 {
            var y := rest[b - 1];
            assert y in rest;
            var k :| 0 <= k < |tail| && tail[k] == y;
            assert files[k + 1] == y;
          } else {
            assert ([files[0]] + rest)[a] == rest[a - 1] && ([files[0]] + rest)[b] == rest[b - 1];
          }
        }
      }
    }
  }

  lemma {:induction false} UniqueVersionRows(versions: seq<VersionRow>, p: VersionRow -> bool)
    requires UniqueVersionIds(versions)
    ensures UniqueVersionIds(Filter(versions, p))
  {
    if versions != [] {
      var tail := versions[1..];
      assert UniqueVersionIds(tail) by {
        forall a, b | 0 <= a < b < |tail| ensures tail[a].id != tail[b].id {
          assert tail[a] == versions[a + 1] && tail[b] == versions[b + 1];
        }
      }
      UniqueVersionRows(tail, p);
      var rest := Filter(tail, p);
      if p(versions[0]) {
        forall a, b | 0 <= a < b < |rest| + 1 ensures ([versions[0]] + rest)[a].id != ([versions[0]] + rest)[b].id {
          if a == 0 {
            var y := rest[b - 1];
            assert y in rest;
            var k :| 0 <= k < |tail| && tail[k] == y;
            assert versions[k + 1] == y;
          } else {
            assert ([versions[0]] + rest)[a] == rest[a - 1] && ([versions[0]] + rest)[b] == rest[b - 1];
          }
        }
      }
    }
  }

  lemma DeleteFolderKeepsWellFormed(db: Db, id: int, recursive: bool)
    requires WellFormed(db) && DeleteFolder(db, id, recursive).Ok?
    ensures WellFormed(DeleteFolder(db, id, recursive).value)
  {
    DeleteFolderRemovesSubtree(db, id, recursive);
    var gone := {id} + Inside(db.folders, id);
    PruneKeepsWellFormed(db, gone, gone);
  }
}
