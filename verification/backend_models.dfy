/** The backend's tables (backend/app/models.py) as sequences of rows in
  row-id order, the ids the database hands out, the relationships the
  routers read (a file's versions in number order, its current version) and
  the per-file response built from them (`build_file_response` in
  backend/app/routers/files.py).
 */
module Backend {
  import opened Common

  /** `BUCKET_NAME` when the environment does not override it. */
  const Bucket: string := "dms-files"

  datatype FolderRow = FolderRow(id: int, name: string, parentId: Option<int>)

  datatype TagRow = TagRow(id: int, name: string)

  /** `FileVersion`: one stored upload of a file's content. */
  datatype VersionRow = VersionRow(
    id: int,
    fileId: int,
    versionNumber: int,
    sha1: Option<string>,
    size: int,
    contentType: string,
    bucketName: string,
    objectName: string,
    uploadedAt: int)

  /** `FileRecord`: the logical file, its folder, its tags (in association
      order) and the version it currently points to. */
  datatype FileRow = FileRow(
    id: int,
    filename: string,
    category: string,
    folderId: Option<int>,
    createdAt: int,
    currentVersionId: Option<int>,
    tags: seq<TagRow>)

  datatype Db = Db(folders: seq<FolderRow>, files: seq<FileRow>, versions: seq<VersionRow>, tags: seq<TagRow>)

  // ---------------------------------------------------------------------
  // Row ids.

  function FolderIds(rows: seq<FolderRow>): seq<int> { seq(|rows|, k requires 0 <= k < |rows| => rows[k].id) }
  function FileIds(rows: seq<FileRow>): seq<int> { seq(|rows|, k requires 0 <= k < |rows| => rows[k].id) }
  function VersionIds(rows: seq<VersionRow>): seq<int> { seq(|rows|, k requires 0 <= k < |rows| => rows[k].id) }
  function TagIds(rows: seq<TagRow>): seq<int> { seq(|rows|, k requires 0 <= k < |rows| => rows[k].id) }

  function MaxId(ids: seq<int>): (m: int)
    ensures m >= 0
    ensures forall k :: 0 <= k < |ids| ==> ids[k] <= m
  {
    if ids == [] then 0
    else
      var rest := MaxId(ids[1..]);
      assert forall k :: 1 <= k < |ids| ==> ids[k] == ids[1..][k - 1];
      if ids[0] > rest then ids[0] else rest
  }

  /** The id an insert receives: one more than the largest id in use (the
      row-id rule of an integer primary key), 1 in an empty table. */
  function NextId(ids: seq<int>): (n: int)
    ensures n >= 1
    ensures forall k :: 0 <= k < |ids| ==> ids[k] < n
  {
    MaxId(ids) + 1
  }

  /** What every database the handlers produce satisfies: ids are unique
      in each table, folder ids are positive and a folder's parent id is
      below its own (parents exist before their children), tag names are
      unique. */
  predicate WellFormed(db: Db) {
    && UniqueFolderIds(db.folders)
    && UniqueFileIds(db.files)
    && UniqueVersionIds(db.versions)
    && UniqueTags(db.tags)
    && Hierarchy(db.folders)
    && VersionsOwned(db)
  }

  /** Every version row belongs to a file row. */
  predicate VersionsOwned(db: Db) {
    forall v | v in db.versions :: exists f | f in db.files :: f.id == v.fileId
  }

  predicate UniqueFolderIds(rows: seq<FolderRow>) {
    forall i, j :: 0 <= i < j < |rows| ==> rows[i].id != rows[j].id
  }

  predicate UniqueFileIds(rows: seq<FileRow>) {
    forall i, j :: 0 <= i < j < |rows| ==> rows[i].id != rows[j].id
  }

  predicate UniqueVersionIds(rows: seq<VersionRow>) {
    forall i, j :: 0 <= i < j < |rows| ==> rows[i].id != rows[j].id
  }

  predicate UniqueTags(rows: seq<TagRow>) {
    forall i, j :: 0 <= i < j < |rows| ==> rows[i].id != rows[j].id && rows[i].name != rows[j].name
  }

  predicate Hierarchy(rows: seq<FolderRow>) {
    forall f | f in rows :: ParentBelow(f)
  }

  predicate ParentBelow(f: FolderRow) {
    f.id >= 1 && (f.parentId.Some? ==> 0 <= f.parentId.value < f.id)
  }

  // ---------------------------------------------------------------------
  // Relationships and derived properties of `FileRecord`.

  /** The version rows that belong to one file. */
  function OfFile(fileId: int): VersionRow -> bool {
    (v: VersionRow) => v.fileId == fileId
  }

  /** The sort key of a file's version list. */
  function ByNumber(): VersionRow -> int {
    (v: VersionRow) => v.versionNumber
  }

  /** `FileRecord.versions`: the file's versions ordered by version number
      (equal numbers stay in row order). */
  function VersionsOf(db: Db, fileId: int): (r: seq<VersionRow>)
    ensures forall v | v in r :: v in db.versions && v.fileId == fileId
    ensures forall v | v in db.versions && v.fileId == fileId :: v in r
    ensures SortedBy(r, ByNumber())
    ensures |r| == |Filter(db.versions, OfFile(fileId))|
  {
    var mine := Filter(db.versions, OfFile(fileId));
    var r := SortBy(mine, ByNumber());
    assert forall v :: v in r <==> v in multiset(r);
    assert forall v :: v in mine <==> v in multiset(mine);
    assert |r| == |multiset(r)| == |multiset(mine)| == |mine|;
    r
  }

  // ---------------------------------------------------------------------
  // Lookups by primary key (`query(...).filter(X.id == id).first()`).

  function FindFolder(db: Db, id: int): (r: Option<FolderRow>)
    ensures r.Some? ==> r.value in db.folders && r.value.id == id
    ensures r.None? ==> forall f | f in db.folders :: f.id != id
  {
    match FirstIndex(db.folders, (f: FolderRow) => f.id == id)
    case None => None
    case Some(i) => Some(db.folders[i])
  }

  /** Position of the file row with this id. */
  function FileIndex(db: Db, id: int): (r: Option<nat>)
    ensures r.Some? ==> r.value < |db.files| && db.files[r.value].id == id &&
                        forall k :: 0 <= k < r.value ==> db.files[k].id != id
    ensures r.None? ==> forall k :: 0 <= k < |db.files| ==> db.files[k].id != id
  {
    FirstIndex(db.files, (f: FileRow) => f.id == id)
  }

  function FindFile(db: Db, id: int): (r: Option<FileRow>)
    ensures r.Some? ==> r.value in db.files && r.value.id == id
    ensures r.None? ==> forall f | f in db.files :: f.id != id
  {
    match FileIndex(db, id)
    case None => None
    case Some(i) => Some(db.files[i])
  }

  function FindVersion(db: Db, id: int): (r: Option<VersionRow>)
    ensures r.Some? ==> r.value in db.versions && r.value.id == id
    ensures r.None? ==> forall v | v in db.versions :: v.id != id
  {
    match FirstIndex(db.versions, (v: VersionRow) => v.id == id)
    case None => None
    case Some(i) => Some(db.versions[i])
  }

  /** With unique ids, looking a present row up by its id finds that row. */
  lemma FindsUniqueVersion(db: Db, v: VersionRow)
    requires UniqueVersionIds(db.versions) && v in db.versions
    ensures FindVersion(db, v.id) == Some(v)
  {
    var i := FirstIndex(db.versions, (x: VersionRow) => x.id == v.id).value;
    var j :| 0 <= j < |db.versions| && db.versions[j] == v;
    assert !(i < j) && !(j < i);
  }

  lemma FindsUniqueFile(db: Db, f: FileRow)
    requires UniqueFileIds(db.files) && f in db.files
    ensures FindFile(db, f.id) == Some(f)
  {
    var i := FileIndex(db, f.id).value;
    var j :| 0 <= j < |db.files| && db.files[j] == f;
    assert !(i < j) && !(j < i);
  }

  /** Rewriting file rows without changing their ids leaves every lookup
      position as it was. */
  lemma FileIndexFrame(db: Db, db': Db)
    requires |db'.files| == |db.files|
    requires forall k :: 0 <= k < |db.files| ==> db'.files[k].id == db.files[k].id
    ensures forall id :: FileIndex(db', id) == FileIndex(db, id)
  {
    forall id ensures FileIndex(db', id) == FileIndex(db, id) {
      var a, b := FileIndex(db', id), FileIndex(db, id);
      if a.Some? && b.Some? {
        assert !(a.value < b.value) && !(b.value < a.value);
      }
    }
  }

  /** The file rows of `db'` extend those of `db` position by position
      with the same ids. */
  predicate KeepsFileIds(db: Db, db': Db) {
    |db'.files| >= |db.files| && forall k :: 0 <= k < |db.files| ==> db'.files[k].id == db.files[k].id
  }

  /** Rewriting file rows in place keeps the file ids unique, and every
      version that was owned before stays owned. */
  lemma FilesRewritten(db: Db, db': Db)
    requires WellFormed(db) && KeepsFileIds(db, db') && |db'.files| == |db.files|
    requires forall v | v in db'.versions :: v in db.versions
    ensures UniqueFileIds(db'.files) && VersionsOwned(db')
  {
    forall v | v in db'.versions ensures exists f | f in db'.files :: f.id == v.fileId {
      var f :| f in db.files && f.id == v.fileId;
      var k :| 0 <= k < |db.files| && db.files[k] == f;
      assert db'.files[k] in db'.files;
    }
  }

  /** Appending a row with a fresh id: looking that id up finds the row,
      and its file gains exactly one version. */
  lemma AppendVersion(db: Db, v: VersionRow)
    requires forall x | x in db.versions :: x.id < v.id
    ensures var db' := db.(versions := db.versions + [v]);
            && FindVersion(db', v.id) == Some(v)
            && |VersionsOf(db', v.fileId)| == |VersionsOf(db, v.fileId)| + 1
            && (forall id | id != v.fileId :: |VersionsOf(db', id)| == |VersionsOf(db, id)|)
  {
    var db' := db.(versions := db.versions + [v]);
    FilterConcat(db.versions, [v], OfFile(v.fileId));
    forall id | id != v.fileId ensures |VersionsOf(db', id)| == |VersionsOf(db, id)| {
      FilterConcat(db.versions, [v], OfFile(id));
    }
  }

  /** `FileRecord.current_version`: the version row whose id `current_version_id` holds. */
  function CurrentVersion(db: Db, f: FileRow): (r: Option<VersionRow>)
    ensures f.currentVersionId.None? ==> r.None?
    ensures r.Some? ==> r.value in db.versions && Some(r.value.id) == f.currentVersionId
    ensures r.Some? <==> exists v | v in db.versions :: Some(v.id) == f.currentVersionId
  {
    if f.currentVersionId.None? then None else FindVersion(db, f.currentVersionId.value)
  }

  /** `build_file_response`: the record, with size, content type and upload
      time taken from the current version. */
  datatype FileResponse = FileResponse(
    id: int,
    filename: string,
    contentType: Option<string>,
    size: int,
    category: string,
    uploadedAt: int,
    folderId: Option<int>,
    tags: seq<TagRow>,
    versionCount: nat,
    currentVersion: Option<VersionRow>)

  /** The derived properties fall back to 0 (size), nothing (content type,
      bucket, object name) and the record's creation time (upload time)
      when there is no current version. */
  function Response(db: Db, f: FileRow): (r: FileResponse)
    ensures r.currentVersion == CurrentVersion(db, f)
    ensures r.currentVersion.None? ==> r.size == 0 && r.contentType.None? && r.uploadedAt == f.createdAt
    ensures r.currentVersion.Some? ==>
              var v := r.currentVersion.value;
              r.size == v.size && r.contentType == Some(v.contentType) && r.uploadedAt == v.uploadedAt
    ensures r.versionCount == |VersionsOf(db, f.id)|
    ensures r.id == f.id && r.filename == f.filename && r.category == f.category &&
            r.folderId == f.folderId && r.tags == f.tags
  {
    var cur := CurrentVersion(db, f);
    FileResponse(
      f.id, f.filename,
      if cur.Some? then Some(cur.value.contentType) else None,
      if cur.Some? then cur.value.size else 0,
      f.category,
      if cur.Some? then cur.value.uploadedAt else f.createdAt,
      f.folderId, f.tags,
      |VersionsOf(db, f.id)|,
      cur)
  }

  /** `bucket_name` and `object_name`, which the response leaves out. */
  function StorageLocation(db: Db, f: FileRow): (r: Option<(string, string)>)
    ensures r.Some? <==> CurrentVersion(db, f).Some?
    ensures r.Some? ==> r.value == (CurrentVersion(db, f).value.bucketName, CurrentVersion(db, f).value.objectName)
  {
    match CurrentVersion(db, f)
    case None => None
    case Some(v) => Some((v.bucketName, v.objectName))
  }
}
