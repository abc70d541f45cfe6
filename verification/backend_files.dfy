/** The file endpoints of the backend (backend/app/routers/files.py):
  category detection, upload with duplicate detection and versioning,
  deleting and restoring versions, and tagging. Storage writes and the
  clock are inputs: `stored` says whether the object store accepted the
  bytes, `now` is the time stamp every row written by the call receives.
 */
module BackendFiles {
  import opened Common
  import Text
  import opened Backend
  import opened Sha1Sampling

  // ---------------------------------------------------------------------
  // Categories.

  const Categories: seq<string> := ["image", "video", "audio", "document", "archive", "other"]

  predicate DocumentMime(mime: string) {
    Text.StartsWith(mime, "text/") || Text.Contains(mime, "pdf") ||
    Text.Contains(mime, "msword") || Text.Contains(mime, "officedocument")
  }

  predicate ArchiveMime(mime: string) {
    Text.Contains(mime, "zip") || Text.Contains(mime, "tar") || Text.Contains(mime, "7z")
  }

  /** The category stored with a new record: the first rule that matches
      the content type, in the order media prefix, document, archive. */
  function Category(mime: string): (c: string)
    ensures c in Categories
  {
    if Text.StartsWith(mime, "image/") then "image"
    else if Text.StartsWith(mime, "video/") then "video"
    else if Text.StartsWith(mime, "audio/") then "audio"
    else if DocumentMime(mime) then "document"
    else if ArchiveMime(mime) then "archive"
    else "other"
  }

  predicate MediaMime(mime: string) {
    Text.StartsWith(mime, "image/") || Text.StartsWith(mime, "video/") || Text.StartsWith(mime, "audio/")
  }

  /** Each category in terms of the rules, later rules applying only when
      the earlier ones did not. */
  lemma CategoryRules(mime: string)
    ensures Category(mime) == "document" <==> !MediaMime(mime) && DocumentMime(mime)
    ensures Category(mime) == "archive" <==> !MediaMime(mime) && !DocumentMime(mime) && ArchiveMime(mime)
    ensures Category(mime) == "other" <==> !MediaMime(mime) && !DocumentMime(mime) && !ArchiveMime(mime)
    ensures MediaMime(mime) ==> Category(mime) == mime[..5]
  {
  }

  // ---------------------------------------------------------------------
  // Upload.

  datatype UploadRequest = UploadRequest(filename: string, mime: string, content: seq<Byte>, folderId: Option<int>)

  /** The record the upload attaches to: the first with the same name in
      the same folder (no folder matching no folder). */
  function SameName(db: Db, filename: string, folderId: Option<int>): Option<nat> {
    FirstIndex(db.files, (f: FileRow) => f.filename == filename && f.folderId == folderId)
  }

  /** Whether the upload repeats the content of the record's current
      version. */
  predicate IsDuplicate(db: Db, f: FileRow, hash: string)
    ensures IsDuplicate(db, f, hash) ==>
              exists v | v in db.versions :: Some(v.id) == f.currentVersionId && v.sha1 == Some(hash)
  {
    var cur := CurrentVersion(db, f);
    cur.Some? && cur.value.sha1 == Some(hash)
  }

  /** With unique version ids the check is exactly "the version the record
      points at has this hash". */
  lemma DuplicateIffCurrentHash(db: Db, f: FileRow, hash: string)
    requires UniqueVersionIds(db.versions)
    ensures IsDuplicate(db, f, hash) <==>
              exists v | v in db.versions :: Some(v.id) == f.currentVersionId && v.sha1 == Some(hash)
  {
    if v :| v in db.versions && Some(v.id) == f.currentVersionId && v.sha1 == Some(hash) {
      FindsUniqueVersion(db, v);
    }
  }

  /** The upload would be refused as a duplicate. */
  predicate Conflicts(db: Db, u: UploadRequest, sha1: Hasher) {
    var i := SameName(db, u.filename, u.folderId);
    i.Some? && IsDuplicate(db, db.files[i.value], CalculateSha1(u.content, sha1))
  }

  /** `upload_file`: 409 when the same name in the same folder already has
      this content as its current version; 500 when the object store
      refuses; otherwise a new version of the existing record, numbered one
      past its version count, or a new record with version 1. */
  function UploadFile(db: Db, u: UploadRequest, sha1: Hasher, uuid: string, stored: bool, now: int)
    : (r: Http<(Db, FileResponse)>)
    ensures r.Status? ==> r.code == 409 || r.code == 500
    ensures r == Status(409) <==> Conflicts(db, u, sha1)
    ensures r == Status(500) <==> !Conflicts(db, u, sha1) && !stored
    ensures r.Ok? <==> !Conflicts(db, u, sha1) && stored
  {
    var hash := CalculateSha1(u.content, sha1);
    var objectName := uuid + "-" + u.filename;
    var vid := NextId(VersionIds(db.versions));
    match SameName(db, u.filename, u.folderId)
    case Some(i) =>
      var f := db.files[i];
      if IsDuplicate(db, f, hash) then Status(409)
      else if !stored then Status(500)
      else
        var v := VersionRow(vid, f.id, |VersionsOf(db, f.id)| + 1, Some(hash), |u.content|, u.mime, Bucket, objectName, now);
        var f' := f.(currentVersionId := Some(vid));
        var db' := db.(files := db.files[i := f'], versions := db.versions + [v]);
        Ok((db', Response(db', f')))
    case None =>
      if !stored then Status(500)
      else
        var fid := NextId(FileIds(db.files));
        var v := VersionRow(vid, fid, 1, Some(hash), |u.content|, u.mime, Bucket, objectName, now);
        var f' := FileRow(fid, u.filename, Category(u.mime), u.folderId, now, Some(vid), []);
        var db' := db.(files := db.files + [f'], versions := db.versions + [v]);
        Ok((db', Response(db', f')))
  }

  /** Duplicate content under the same name and folder is refused, and that
      is the only way an upload gets 409. */
  lemma UploadConflict(db: Db, u: UploadRequest, sha1: Hasher, uuid: string, stored: bool, now: int)
    ensures var i := SameName(db, u.filename, u.folderId);
            UploadFile(db, u, sha1, uuid, stored, now) == Status(409) <==>
              i.Some? && IsDuplicate(db, db.files[i.value], CalculateSha1(u.content, sha1))
  {
  }

  /** A new version of an existing record: numbered one past the record's
      version count and made current; name, category, folder and tags are
      kept, every other record is untouched and no version is lost. */
  lemma UploadAddsVersion(db: Db, u: UploadRequest, sha1: Hasher, uuid: string, now: int)
    requires SameName(db, u.filename, u.folderId).Some?
    requires !IsDuplicate(db, db.files[SameName(db, u.filename, u.folderId).value], CalculateSha1(u.content, sha1))
    ensures UploadFile(db, u, sha1, uuid, true, now).Ok?
    ensures var i := SameName(db, u.filename, u.folderId).value;
            var f := db.files[i];
            var (db', resp) := UploadFile(db, u, sha1, uuid, true, now).value;
            && resp.id == f.id && resp.filename == f.filename && resp.category == f.category
            && resp.folderId == f.folderId && resp.tags == f.tags
            && resp.versionCount == |VersionsOf(db, f.id)| + 1
            && resp.currentVersion.Some?
            && resp.currentVersion.value.versionNumber == |VersionsOf(db, f.id)| + 1
            && resp.currentVersion.value.fileId == f.id
            && resp.size == |u.content| && resp.contentType == Some(u.mime)
            && db'.files == db.files[i := f.(currentVersionId := Some(resp.currentVersion.value.id))]
            && db'.versions == db.versions + [resp.currentVersion.value]
            && db'.folders == db.folders && db'.tags == db.tags
  {
    var i := SameName(db, u.filename, u.folderId).value;
    var f := db.files[i];
    var hash := CalculateSha1(u.content, sha1);
    var vid := NextId(VersionIds(db.versions));
    var v := VersionRow(vid, f.id, |VersionsOf(db, f.id)| + 1, Some(hash), |u.content|, u.mime, Bucket, uuid + "-" + u.filename, now);
    var f' := f.(currentVersionId := Some(vid));
    var db1 := db.(versions := db.versions + [v]);
    var db' := db1.(files := db.files[i := f']);
    assert UploadFile(db, u, sha1, uuid, true, now) == Ok((db', Response(db', f')));
    assert forall x | x in db.versions :: x.id < v.id by {
      forall x | x in db.versions ensures x.id < v.id {
        var k :| 0 <= k < |db.versions| && db.versions[k] == x;
        assert VersionIds(db.versions)[k] == x.id;
      }
    }
    AppendVersion(db, v);
    assert VersionsOf(db', f.id) == VersionsOf(db1, f.id);
    assert FindVersion(db', vid) == FindVersion(db1, vid);
  }

  /** A name not yet used in the folder gets a new record in the computed
      category, with a single current version numbered 1; the records
      already there stay as they were. */
  lemma UploadCreatesRecord(db: Db, u: UploadRequest, sha1: Hasher, uuid: string, now: int)
    requires VersionsOwned(db)
    requires SameName(db, u.filename, u.folderId).None?
    ensures UploadFile(db, u, sha1, uuid, true, now).Ok?
    ensures var (db', resp) := UploadFile(db, u, sha1, uuid, true, now).value;
            && resp.filename == u.filename && resp.folderId == u.folderId
            && resp.category == Category(u.mime) && resp.tags == []
            && resp.versionCount == 1
            && resp.currentVersion.Some? && resp.currentVersion.value.versionNumber == 1
            && resp.size == |u.content| && resp.contentType == Some(u.mime)
            && db'.files == db.files + [db'.files[|db.files|]]
            && db'.files[|db.files|] ==
                 FileRow(resp.id, u.filename, Category(u.mime), u.folderId, now, Some(resp.currentVersion.value.id), [])
            && db'.versions == db.versions + [resp.currentVersion.value]
            && db'.folders == db.folders && db'.tags == db.tags
            && (forall x | x in db.files :: x.id != resp.id)
  {
    var vid := NextId(VersionIds(db.versions));
    var fid := NextId(FileIds(db.files));
    var v := VersionRow(vid, fid, 1, Some(CalculateSha1(u.content, sha1)), |u.content|, u.mime, Bucket, uuid + "-" + u.filename, now);
    var f' := FileRow(fid, u.filename, Category(u.mime), u.folderId, now, Some(vid), []);
    var db' := db.(files := db.files + [f'], versions := db.versions + [v]);
    assert UploadFile(db, u, sha1, uuid, true, now) == Ok((db', Response(db', f')));
    NextIdsFresh(db);
    FirstVersionOfNewRecord(db, f', v);
  }

  /** Deduplication refuses what was just stored: once an upload succeeds,
      sending the same content under the same name into the same folder
      again answers 409, whatever the object store would do. */
  lemma ReuploadConflicts(db: Db, u: UploadRequest, sha1: Hasher, uuid: string, now: int,
                          uuid': string, stored': bool, now': int)
    requires UploadFile(db, u, sha1, uuid, true, now).Ok?
    ensures var db' := UploadFile(db, u, sha1, uuid, true, now).value.0;
            UploadFile(db', u, sha1, uuid', stored', now') == Status(409)
  {
    var db' := UploadFile(db, u, sha1, uuid, true, now).value.0;
    if SameName(db, u.filename, u.folderId).Some? {
      NewVersionConflicts(db, u, sha1, uuid, now);
    } else {
      NewRecordConflicts(db, u, sha1, uuid, now);
    }
    assert Conflicts(db', u, sha1);
  }

  lemma NewVersionConflicts(db: Db, u: UploadRequest, sha1: Hasher, uuid: string, now: int)
    requires UploadFile(db, u, sha1, uuid, true, now).Ok?
    requires SameName(db, u.filename, u.folderId).Some?
    ensures Conflicts(UploadFile(db, u, sha1, uuid, true, now).value.0, u, sha1)
  {
    var db' := UploadFile(db, u, sha1, uuid, true, now).value.0;
    var hash := CalculateSha1(u.content, sha1);
    var vid := NextId(VersionIds(db.versions));
    var i := SameName(db, u.filename, u.folderId).value;
    var f := db.files[i];
    var v := VersionRow(vid, f.id, |VersionsOf(db, f.id)| + 1, Some(hash), |u.content|, u.mime, Bucket, uuid + "-" + u.filename, now);
    NextIdsFresh(db);
    assert db' == db.(files := db.files[i := f.(currentVersionId := Some(vid))], versions := db.versions + [v]);
    RefindsUpload(db, db', u.filename, u.folderId, i, v);
  }

  lemma NewRecordConflicts(db: Db, u: UploadRequest, sha1: Hasher, uuid: string, now: int)
    requires UploadFile(db, u, sha1, uuid, true, now).Ok?
    requires SameName(db, u.filename, u.folderId).None?
    ensures Conflicts(UploadFile(db, u, sha1, uuid, true, now).value.0, u, sha1)
  {
    var db' := UploadFile(db, u, sha1, uuid, true, now).value.0;
    var hash := CalculateSha1(u.content, sha1);
    var vid := NextId(VersionIds(db.versions));
    var fid := NextId(FileIds(db.files));
    var v := VersionRow(vid, fid, 1, Some(hash), |u.content|, u.mime, Bucket, uuid + "-" + u.filename, now);
    var f' := FileRow(fid, u.filename, Category(u.mime), u.folderId, now, Some(vid), []);
    NextIdsFresh(db);
    assert db' == db.(files := db.files + [f'], versions := db.versions + [v]);
    RefindsUpload(db, db', u.filename, u.folderId, |db.files|, v);
  }

  /** After an upload stored version `v` for the record at position `j`,
      looking the name up again finds that record, and its current version
      is `v`. */
  lemma RefindsUpload(db: Db, db': Db, filename: string, folderId: Option<int>, j: nat, v: VersionRow)
    requires db'.versions == db.versions + [v] && v.sha1.Some?
    requires forall x | x in db.versions :: x.id < v.id
    requires j < |db'.files| && db'.files[j].currentVersionId == Some(v.id)
    requires db'.files[j].filename == filename && db'.files[j].folderId == folderId
    requires forall k :: 0 <= k < j ==> k < |db.files| && db'.files[k] == db.files[k]
    requires SameName(db, filename, folderId).Some? ==> SameName(db, filename, folderId).value == j
    ensures SameName(db', filename, folderId) == Some(j)
    ensures IsDuplicate(db', db'.files[j], v.sha1.value)
  {
    var a := SameName(db', filename, folderId);
    assert a.Some? && a.value <= j;
    if a.value < j {
      assert db'.files[a.value] == db.files[a.value];
    }
    AppendVersion(db, v);
    assert FindVersion(db', v.id) == FindVersion(db.(versions := db'.versions), v.id);
  }

  /** A new record with a fresh id and its first version: the version is
      current and the only one the record has. */
  lemma FirstVersionOfNewRecord(db: Db, f: FileRow, v: VersionRow)
    requires VersionsOwned(db)
    requires forall x | x in db.files :: x.id < f.id
    requires forall x | x in db.versions :: x.id < v.id
    requires v.fileId == f.id && f.currentVersionId == Some(v.id)
    ensures var db' := db.(files := db.files + [f], versions := db.versions + [v]);
            CurrentVersion(db', f) == Some(v) && |VersionsOf(db', f.id)| == 1
  {
    var db1 := db.(versions := db.versions + [v]);
    var db' := db1.(files := db.files + [f]);
    assert forall x | x in db.versions :: !OfFile(f.id)(x) by {
      forall x | x in db.versions ensures x.fileId != f.id {
        var g :| g in db.files && g.id == x.fileId;
      }
    }
    FilterNone(db.versions, OfFile(f.id));
    AppendVersion(db, v);
    assert VersionsOf(db', f.id) == VersionsOf(db1, f.id);
    assert FindVersion(db', v.id) == FindVersion(db1, v.id);
  }

  // ---------------------------------------------------------------------
  // Versions.

  /** Position of the given version among the file's own versions. */
  function OwnVersionIndex(db: Db, fileId: int, versionId: int): (r: Option<nat>)
    ensures r.Some? ==> r.value < |db.versions| && db.versions[r.value].id == versionId &&
                        db.versions[r.value].fileId == fileId
    ensures r.None? ==> forall v | v in db.versions :: !(v.id == versionId && v.fileId == fileId)
  {
    FirstIndex(db.versions, (v: VersionRow) => v.id == versionId && v.fileId == fileId)
  }

  /** The table without row `j`. */
  function DropVersionRow(db: Db, j: nat): Db
    requires j < |db.versions|
  {
    db.(versions := db.versions[..j] + db.versions[j + 1..])
  }

  function NotId(versionId: int): VersionRow -> bool {
    (v: VersionRow) => v.id != versionId
  }

  /** The file's versions other than the given one, in number order. */
  function Others(db: Db, fileId: int, versionId: int): seq<VersionRow> {
    Filter(VersionsOf(db, fileId), NotId(versionId))
  }

  /** `delete_version`: 404 for an unknown file, 400 while the file has at
      most one version, 404 for a version of another file. Deleting the
      current version first points the file at the last of its other
      versions in number order (an empty list there would fail with 500). */
  function DeleteVersion(db: Db, fileId: int, versionId: int): (r: Http<Db>)
    ensures FileIndex(db, fileId).None? ==> r == Status(404)
    ensures FileIndex(db, fileId).Some? && |VersionsOf(db, fileId)| <= 1 ==> r == Status(400)
    ensures (FileIndex(db, fileId).Some? && |VersionsOf(db, fileId)| > 1 &&
             OwnVersionIndex(db, fileId, versionId).None?) ==> r == Status(404)
  {
    match FileIndex(db, fileId)
    case None => Status(404)
    case Some(i) =>
      var f := db.files[i];
      var vs := VersionsOf(db, fileId);
      if |vs| <= 1 then Status(400)
      else match OwnVersionIndex(db, fileId, versionId)
        case None => Status(404)
        case Some(j) =>
          if f.currentVersionId == Some(versionId) then
            var others := Others(db, fileId, versionId);
            if others == [] then Status(500)
            else
              var f' := f.(currentVersionId := Some(others[|others| - 1].id));
              Ok(DropVersionRow(db, j).(files := db.files[i := f']))
          else Ok(DropVersionRow(db, j))
  }

  /** Removing row `j` from a table with unique ids removes exactly the
      rows with that id and keeps the ids unique. */
  lemma RemoveVersionRow(vs: seq<VersionRow>, j: nat)
    requires j < |vs| && UniqueVersionIds(vs)
    ensures var rest := vs[..j] + vs[j + 1..];
            && (forall v | v in vs :: v in rest <==> v.id != vs[j].id)
            && (forall v | v in rest :: v in vs)
            && UniqueVersionIds(rest)
  {
    RemovedRowMembers(vs, j);
    RemovedRowUnique(vs, j);
  }

  lemma RemovedRowMembers(vs: seq<VersionRow>, j: nat)
    requires j < |vs| && UniqueVersionIds(vs)
    ensures var rest := vs[..j] + vs[j + 1..];
            && (forall v | v in vs :: v in rest <==> v.id != vs[j].id)
            && (forall v | v in rest :: v in vs)
  {
    var rest := vs[..j] + vs[j + 1..];
    forall v | v in vs ensures v in rest <==> v.id != vs[j].id {
      var k :| 0 <= k < |vs| && vs[k] == v;
      if k < j { assert rest[k] == v; }
      else if k > j { assert rest[k - 1] == v; }
    }
  }

  lemma RemovedRowUnique(vs: seq<VersionRow>, j: nat)
    requires j < |vs| && UniqueVersionIds(vs)
    ensures UniqueVersionIds(vs[..j] + vs[j + 1..])
  {
    var rest := vs[..j] + vs[j + 1..];
    forall a, b | 0 <= a < b < |rest| ensures rest[a].id != rest[b].id {
      var a' := if a < j then a else a + 1;
      var b' := if b < j then b else b + 1;
      assert rest[a] == vs[a'] && rest[b] == vs[b'];
    }
  }

  /** ... and takes one version from that row's file. */
  lemma RemoveVersionRowCount(vs: seq<VersionRow>, j: nat)
    requires j < |vs|
    ensures |Filter(vs[..j] + vs[j + 1..], OfFile(vs[j].fileId))| == |Filter(vs, OfFile(vs[j].fileId))| - 1
  {
    assert vs == vs[..j] + [vs[j]] + vs[j + 1..];
    var p := OfFile(vs[j].fileId);
    FilterConcat(vs[..j] + [vs[j]], vs[j + 1..], p);
    FilterConcat(vs[..j], [vs[j]], p);
    FilterConcat(vs[..j], vs[j + 1..], p);
  }

  /** After the row goes, the file's versions are its other versions: one
      fewer than before, each with a different id from the deleted one. */
  lemma Survivors(db: Db, j: nat)
    requires j < |db.versions| && UniqueVersionIds(db.versions)
    ensures var fileId := db.versions[j].fileId;
            var left := VersionsOf(DropVersionRow(db, j), fileId);
            && |left| == |VersionsOf(db, fileId)| - 1
            && (forall u | u in left :: u in Others(db, fileId, db.versions[j].id))
  {
    RemoveVersionRow(db.versions, j);
    RemoveVersionRowCount(db.versions, j);
  }

  /** Deleting an existing version of a file with several succeeds: exactly
      that row goes, the file keeps at least one version, and no other file
      record changes; the file's own record changes only when the current
      version was the one deleted. */
  lemma DeleteVersionRemovesRow(db: Db, fileId: int, versionId: int)
    requires WellFormed(db)
    requires FileIndex(db, fileId).Some? && |VersionsOf(db, fileId)| > 1
    requires OwnVersionIndex(db, fileId, versionId).Some?
    ensures DeleteVersion(db, fileId, versionId).Ok?
    ensures var db' := DeleteVersion(db, fileId, versionId).value;
            var i := FileIndex(db, fileId).value;
            && (forall v | v in db.versions :: v in db'.versions <==> v.id != versionId)
            && (forall v | v in db'.versions :: v in db.versions)
            && UniqueVersionIds(db'.versions)
            && |VersionsOf(db', fileId)| == |VersionsOf(db, fileId)| - 1 >= 1
            && db'.folders == db.folders && db'.tags == db.tags
            && |db'.files| == |db.files|
            && db'.files[i] == db.files[i].(currentVersionId := db'.files[i].currentVersionId)
            && (forall k | 0 <= k < |db.files| && k != i :: db'.files[k] == db.files[k])
            && (db.files[i].currentVersionId != Some(versionId) ==> db'.files == db.files)
  {
    var i := FileIndex(db, fileId).value;
    var j := OwnVersionIndex(db, fileId, versionId).value;
    var f := db.files[i];
    var vs := VersionsOf(db, fileId);
    var dbr := DropVersionRow(db, j);
    RemoveVersionRow(db.versions, j);
    Survivors(db, j);
    var left := VersionsOf(dbr, fileId);
    assert left[0] in Others(db, fileId, versionId);
  }

  /** Among a file's versions other than the deleted one, the last has the
      highest number. */
  lemma LastOtherIsNewest(db: Db, fileId: int, versionId: int)
    requires Others(db, fileId, versionId) != []
    ensures var others := Others(db, fileId, versionId);
            forall u | u in others :: u.versionNumber <= others[|others| - 1].versionNumber
  {
    var others := Others(db, fileId, versionId);
    FilterSorted(VersionsOf(db, fileId), NotId(versionId), ByNumber());
    forall u | u in others ensures u.versionNumber <= others[|others| - 1].versionNumber {
      var k :| 0 <= k < |others| && others[k] == u;
      assert ByNumber()(others[k]) <= ByNumber()(others[|others| - 1]);
    }
  }

  /** When the file has another version besides row `j`, the last of its
      other versions survives the drop, and every survivor is one of them. */
  lemma OthersRemain(db: Db, j: nat)
    requires j < |db.versions| && UniqueVersionIds(db.versions)
    requires |VersionsOf(db, db.versions[j].fileId)| > 1
    ensures var fileId := db.versions[j].fileId;
            var others := Others(db, fileId, db.versions[j].id);
            && others != [] && others[|others| - 1] in VersionsOf(DropVersionRow(db, j), fileId)
            && (forall u | u in VersionsOf(DropVersionRow(db, j), fileId) :: u in others)
            && UniqueVersionIds(DropVersionRow(db, j).versions)
  {
    var fileId := db.versions[j].fileId;
    var others := Others(db, fileId, db.versions[j].id);
    Survivors(db, j);
    var left := VersionsOf(DropVersionRow(db, j), fileId);
    assert left[0] in others;
    var w := others[|others| - 1];
    assert w in others;
    assert w in db.versions && w.id != db.versions[j].id;
    RemoveVersionRow(db.versions, j);
  }

  /** Deleting the current version leaves the file pointing at the last
      of its other versions. */
  lemma DeleteCurrentResult(db: Db, fileId: int, versionId: int)
    requires UniqueVersionIds(db.versions)
    requires FileIndex(db, fileId).Some? && |VersionsOf(db, fileId)| > 1
    requires OwnVersionIndex(db, fileId, versionId).Some?
    requires db.files[FileIndex(db, fileId).value].currentVersionId == Some(versionId)
    ensures var i := FileIndex(db, fileId).value;
            var dbr := DropVersionRow(db, OwnVersionIndex(db, fileId, versionId).value);
            var others := Others(db, fileId, versionId);
            && others != []
            && DeleteVersion(db, fileId, versionId) ==
                 Ok(dbr.(files := db.files[i := db.files[i].(currentVersionId := Some(others[|others| - 1].id))]))
  {
    OthersRemain(db, OwnVersionIndex(db, fileId, versionId).value);
  }

  /** Pointing a file at a present row makes that row its current version;
      the version lists do not depend on the file table. */
  lemma Repointed(dbr: Db, files: seq<FileRow>, i: nat, w: VersionRow)
    requires UniqueVersionIds(dbr.versions) && w in dbr.versions && i < |files|
    ensures var db' := dbr.(files := files[i := files[i].(currentVersionId := Some(w.id))]);
            && CurrentVersion(db', db'.files[i]) == Some(w)
            && (forall fileId :: VersionsOf(db', fileId) == VersionsOf(dbr, fileId))
  {
    var db' := dbr.(files := files[i := files[i].(currentVersionId := Some(w.id))]);
    FindsUniqueVersion(dbr, w);
    assert FindVersion(db', w.id) == FindVersion(dbr, w.id);
  }

  /** After the drop, the file pointed at the last of its other versions
      has that version as current, and it is the highest-numbered one left. */
  lemma RepointedIsNewest(db: Db, fileId: int, versionId: int, j: nat, i: nat)
    requires j < |db.versions| && UniqueVersionIds(db.versions) && i < |db.files|
    requires db.versions[j].id == versionId && db.versions[j].fileId == fileId
    requires |VersionsOf(db, fileId)| > 1
    requires Others(db, fileId, versionId) != []
    ensures var others := Others(db, fileId, versionId);
            var w := others[|others| - 1];
            var db' := DropVersionRow(db, j).(files := db.files[i := db.files[i].(currentVersionId := Some(w.id))]);
            && CurrentVersion(db', db'.files[i]) == Some(w) && w in VersionsOf(db', fileId)
            && (forall u | u in VersionsOf(db', fileId) :: u.versionNumber <= w.versionNumber)
  {
    var others := Others(db, fileId, versionId);
    OthersRemain(db, j);
    LastOtherIsNewest(db, fileId, versionId);
    Repointed(DropVersionRow(db, j), db.files, i, others[|others| - 1]);
  }

  /** Deleting the current version points the file at its highest-numbered
      remaining version. */
  lemma DeleteVersionRepoints(db: Db, fileId: int, versionId: int)
    requires UniqueVersionIds(db.versions)
    requires FileIndex(db, fileId).Some? && |VersionsOf(db, fileId)| > 1
    requires OwnVersionIndex(db, fileId, versionId).Some?
    requires db.files[FileIndex(db, fileId).value].currentVersionId == Some(versionId)
    ensures DeleteVersion(db, fileId, versionId).Ok?
    ensures var db' := DeleteVersion(db, fileId, versionId).value;
            var cur := CurrentVersion(db', db'.files[FileIndex(db, fileId).value]);
            && cur.Some? && cur.value in VersionsOf(db', fileId)
            && (forall u | u in VersionsOf(db', fileId) :: u.versionNumber <= cur.value.versionNumber)
  {
    var i := FileIndex(db, fileId).value;
    var j := OwnVersionIndex(db, fileId, versionId).value;
    var others := Others(db, fileId, versionId);
    assert others != [] by {
      OthersRemain(db, j);
    }
    RepointedIsNewest(db, fileId, versionId, j, i);
    DeleteCurrentResult(db, fileId, versionId);
  }

  /** `restore_version`: 404 for an unknown file or a version of another
      file; otherwise the file points at that version. */
  function RestoreVersion(db: Db, fileId: int, versionId: int): (r: Http<(Db, FileResponse)>)
    ensures r.Status? <==> FileIndex(db, fileId).None? || OwnVersionIndex(db, fileId, versionId).None?
    ensures r.Status? ==> r.code == 404
  {
    match FileIndex(db, fileId)
    case None => Status(404)
    case Some(i) =>
      if OwnVersionIndex(db, fileId, versionId).None? then Status(404)
      else
        var f' := db.files[i].(currentVersionId := Some(versionId));
        var db' := db.(files := db.files[i := f']);
        Ok((db', Response(db', f')))
  }

  /** A restore points the file at the requested version of that same file
      and changes nothing else; restoring the current version changes
      nothing at all. */
  lemma RestoreEffect(db: Db, fileId: int, versionId: int)
    requires WellFormed(db)
    requires RestoreVersion(db, fileId, versionId).Ok?
    ensures var (db', resp) := RestoreVersion(db, fileId, versionId).value;
            var i := FileIndex(db, fileId).value;
            && resp.currentVersion.Some?
            && resp.currentVersion.value.id == versionId && resp.currentVersion.value.fileId == fileId
            && db'.versions == db.versions && db'.folders == db.folders && db'.tags == db.tags
            && db'.files == db.files[i := db.files[i].(currentVersionId := Some(versionId))]
            && (db.files[i].currentVersionId == Some(versionId) ==> db' == db)
  {
    var j := OwnVersionIndex(db, fileId, versionId).value;
    FindsUniqueVersion(db, db.versions[j]);
  }

  // ---------------------------------------------------------------------
  // Tags.

  /** The tag row with this name (`query(Tag).filter(Tag.name == name).first()`). */
  function TagIndex(db: Db, name: string): (r: Option<nat>)
    ensures r.Some? ==> r.value < |db.tags| && db.tags[r.value].name == name
    ensures r.None? ==> forall t | t in db.tags :: t.name != name
  {
    FirstIndex(db.tags, (t: TagRow) => t.name == name)
  }

  /** The tag an `add_tag` call attaches: the existing row of that name, or
      a new row with the next id. */
  function TagFor(db: Db, name: string): (r: (Db, TagRow))
    ensures r.1.name == name && r.1 in r.0.tags
    ensures r.0.files == db.files && r.0.versions == db.versions && r.0.folders == db.folders
  {
    match TagIndex(db, name)
    case Some(k) => (db, db.tags[k])
    case None =>
      var t := TagRow(NextId(TagIds(db.tags)), name);
      (db.(tags := db.tags + [t]), t)
  }

  /** `add_tag`: 404 for an unknown file; otherwise the tag of that name
      (created when missing) is appended to the file's tags unless it is
      already there. */
  function AddTag(db: Db, fileId: int, name: string): (r: Http<(Db, FileResponse)>)
    ensures r.Status? <==> FileIndex(db, fileId).None?
    ensures r.Status? ==> r.code == 404
  {
    match FileIndex(db, fileId)
    case None => Status(404)
    case Some(i) =>
      var (db1, tag) := TagFor(db, name);
      var f := db.files[i];
      var f' := if tag in f.tags then f else f.(tags := f.tags + [tag]);
      var db' := db1.(files := db.files[i := f']);
      Ok((db', Response(db', f')))
  }

  /** After `add_tag` the file carries a tag of that name, its other tags
      keep their order, the tag table gains a row only when the name was
      new, and only that file's record changes. */
  lemma AddTagEffect(db: Db, fileId: int, name: string)
    requires FileIndex(db, fileId).Some?
    ensures var i := FileIndex(db, fileId).value;
            var f := db.files[i];
            var (db', resp) := AddTag(db, fileId, name).value;
            var tag := TagFor(db, name).1;
            && tag.name == name && tag in db'.tags
            && resp.id == fileId && resp.tags == db'.files[i].tags
            && (tag in f.tags ==> db'.files[i] == f)
            && (tag !in f.tags ==> db'.files[i] == f.(tags := f.tags + [tag]))
            && (TagIndex(db, name).Some? ==> db'.tags == db.tags)
            && (TagIndex(db, name).None? ==> db'.tags == db.tags + [tag] &&
                                              forall t | t in db.tags :: t.id < tag.id)
            && |db'.files| == |db.files|
            && (forall k | 0 <= k < |db.files| && k != i :: db'.files[k] == db.files[k])
            && db'.versions == db.versions && db'.folders == db.folders
  {
    if TagIndex(db, name).None? {
      forall t | t in db.tags ensures t.id < NextId(TagIds(db.tags)) {
        var k :| 0 <= k < |db.tags| && db.tags[k] == t;
        assert TagIds(db.tags)[k] == t.id;
      }
    }
  }

  /** Once `add_tag` has looked a name up (or created it), looking the
      name up again finds the same tag. */
  lemma TagFoundAgain(db: Db, name: string, files: seq<FileRow>)
    ensures var (db1, tag) := TagFor(db, name);
            TagFor(db1.(files := files), name) == (db1.(files := files), tag)
  {
    var (db1, tag) := TagFor(db, name);
    var db2 := db1.(files := files);
    if TagIndex(db, name).None? {
      assert forall k :: 0 <= k < |db.tags| ==> db2.tags[k] == db.tags[k];
      assert TagIndex(db2, name) == Some(|db.tags|);
    }
  }

  /** Adding the same tag twice is the same as adding it once. */
  lemma AddTagIdempotent(db: Db, fileId: int, name: string)
    requires FileIndex(db, fileId).Some?
    ensures var db' := AddTag(db, fileId, name).value.0;
            AddTag(db', fileId, name) == AddTag(db, fileId, name)
  {
    var i := FileIndex(db, fileId).value;
    var (db1, tag) := TagFor(db, name);
    var f := db.files[i];
    var f' := if tag in f.tags then f else f.(tags := f.tags + [tag]);
    var db' := db1.(files := db.files[i := f']);
    assert AddTag(db, fileId, name) == Ok((db', Response(db', f')));
    FileIndexFrame(db, db');
    assert tag in f'.tags && db'.files[i := f'] == db'.files;
    TagFoundAgain(db, name, db'.files);
  }

  function TagNames(tags: seq<TagRow>): (r: seq<string>)
    ensures |r| == |tags| && forall k :: 0 <= k < |r| ==> r[k] == tags[k].name
  {
    seq(|tags|, k requires 0 <= k < |tags| => tags[k].name)
  }

  /** `remove_tag`: 404 for an unknown file; otherwise the tag of that name
      is detached when the file carries it, and the answer lists the file's
      remaining tag names. */
  function RemoveTag(db: Db, fileId: int, name: string): (r: Http<(Db, seq<string>)>)
    ensures r.Status? <==> FileIndex(db, fileId).None?
    ensures r.Status? ==> r.code == 404
  {
    match FileIndex(db, fileId)
    case None => Status(404)
    case Some(i) =>
      var f := db.files[i];
      match TagIndex(db, name)
      case None => Ok((db, TagNames(f.tags)))
      case Some(k) =>
        var tag := db.tags[k];
        if tag in f.tags then
          var f' := f.(tags := RemoveFirst(f.tags, tag));
          Ok((db.(files := db.files[i := f']), TagNames(f'.tags)))
        else Ok((db, TagNames(f.tags)))
  }

  /** `remove_tag` answers with the names of the tags the file keeps, and
      changes nothing but that file's tag list, which loses one entry
      exactly when the named tag was attached. */
  lemma RemoveTagEffect(db: Db, fileId: int, name: string)
    requires FileIndex(db, fileId).Some?
    ensures var i := FileIndex(db, fileId).value;
            var (db', names) := RemoveTag(db, fileId, name).value;
            && names == TagNames(db'.files[i].tags)
            && db'.files[i] == db.files[i].(tags := db'.files[i].tags)
            && |db'.files| == |db.files|
            && (forall k | 0 <= k < |db.files| && k != i :: db'.files[k] == db.files[k])
            && db'.versions == db.versions && db'.tags == db.tags && db'.folders == db.folders
            && (var attached := TagIndex(db, name).Some? && db.tags[TagIndex(db, name).value] in db.files[i].tags;
                && (attached ==> |db'.files[i].tags| == |db.files[i].tags| - 1)
                && (!attached ==> db' == db))
  {
  }

  /** Removing a tag the file carries once leaves it without that tag. */
  lemma RemoveTagDetaches(db: Db, fileId: int, name: string)
    requires FileIndex(db, fileId).Some?
    requires NoDup(db.files[FileIndex(db, fileId).value].tags)
    ensures var i := FileIndex(db, fileId).value;
            var db' := RemoveTag(db, fileId, name).value.0;
            && (forall t | t in db'.files[i].tags :: t in db.files[i].tags)
            && (TagIndex(db, name).Some? ==> db.tags[TagIndex(db, name).value] !in db'.files[i].tags)
  {
    var i := FileIndex(db, fileId).value;
    var f := db.files[i];
  }

  /** Adding a tag the file did not carry and then removing it gives the
      file its old tag list back. */
  lemma AddThenRemoveTag(db: Db, fileId: int, name: string)
    requires FileIndex(db, fileId).Some?
    requires forall t | t in db.files[FileIndex(db, fileId).value].tags :: t.name != name
    ensures var i := FileIndex(db, fileId).value;
            var db1 := AddTag(db, fileId, name).value.0;
            var r := RemoveTag(db1, fileId, name);
            && r.Ok? && r.value.0.files == db.files
            && r.value.1 == TagNames(db.files[i].tags)
  {
    var i := FileIndex(db, fileId).value;
    var (dbt, tag) := TagFor(db, name);
    var f := db.files[i];
    assert tag !in f.tags;
    var f' := f.(tags := f.tags + [tag]);
    var db1 := dbt.(files := db.files[i := f']);
    assert AddTag(db, fileId, name) == Ok((db1, Response(db1, f')));
    FileIndexFrame(db, db1);
    TagFoundAgain(db, name, db1.files);
    assert TagIndex(db1, name).Some? && db1.tags[TagIndex(db1, name).value] == tag;
    RemoveFirstAppended(f.tags, tag);
    assert db.files[i := f'][i := f] == db.files;
  }

  // ---------------------------------------------------------------------
  // The handlers keep the database well formed.

  lemma DeleteVersionKeepsWellFormed(db: Db, fileId: int, versionId: int)
    requires WellFormed(db) && DeleteVersion(db, fileId, versionId).Ok?
    ensures WellFormed(DeleteVersion(db, fileId, versionId).value)
  {
    var db' := DeleteVersion(db, fileId, versionId).value;
    var i := FileIndex(db, fileId).value;
    DeleteVersionRemovesRow(db, fileId, versionId);
    assert KeepsFileIds(db, db') by {
      forall k | 0 <= k < |db.files| ensures db'.files[k].id == db.files[k].id {
        if k != i {
          assert db'.files[k] == db.files[k];
        }
      }
    }
    RowsKeptWellFormed(db, db');
  }

  /** A table update that keeps the folders, the tags and the file ids, and
      only drops version rows while keeping their ids unique, keeps the
      database well formed. */
  lemma RowsKeptWellFormed(db: Db, db': Db)
    requires WellFormed(db) && KeepsFileIds(db, db') && |db'.files| == |db.files|
    requires db'.folders == db.folders && db'.tags == db.tags
    requires UniqueVersionIds(db'.versions) && forall v | v in db'.versions :: v in db.versions
    ensures WellFormed(db')
  {
    FilesRewritten(db, db');
  }

  lemma RestoreKeepsWellFormed(db: Db, fileId: int, versionId: int)
    requires WellFormed(db) && RestoreVersion(db, fileId, versionId).Ok?
    ensures WellFormed(RestoreVersion(db, fileId, versionId).value.0)
  {
    FilesRewritten(db, RestoreVersion(db, fileId, versionId).value.0);
  }

  lemma AddTagKeepsWellFormed(db: Db, fileId: int, name: string)
    requires WellFormed(db) && AddTag(db, fileId, name).Ok?
    ensures WellFormed(AddTag(db, fileId, name).value.0)
  {
    var db' := AddTag(db, fileId, name).value.0;
    AddTagEffect(db, fileId, name);
    FilesRewritten(db, db');
    if TagIndex(db, name).None? {
      var tag := TagFor(db, name).1;
      forall a, b | 0 <= a < b < |db'.tags| ensures db'.tags[a].id != db'.tags[b].id && db'.tags[a].name != db'.tags[b].name {
        if b == |db.tags| {
          assert db'.tags[a] == db.tags[a] && db.tags[a] in db.tags;
        } else {
          assert db'.tags[a] == db.tags[a] && db'.tags[b] == db.tags[b];
        }
      }
    }
  }

  lemma RemoveTagKeepsWellFormed(db: Db, fileId: int, name: string)
    requires WellFormed(db) && RemoveTag(db, fileId, name).Ok?
    ensures WellFormed(RemoveTag(db, fileId, name).value.0)
  {
    RemoveTagEffect(db, fileId, name);
    FilesRewritten(db, RemoveTag(db, fileId, name).value.0);
  }

  /** Ids the tables hand out are above every id in use. */
  lemma NextIdsFresh(db: Db)
    ensures forall v | v in db.versions :: v.id < NextId(VersionIds(db.versions))
    ensures forall f | f in db.files :: f.id < NextId(FileIds(db.files))
  {
    forall v | v in db.versions ensures v.id < NextId(VersionIds(db.versions)) {
      var k :| 0 <= k < |db.versions| && db.versions[k] == v;
      assert VersionIds(db.versions)[k] == v.id;
    }
    forall f | f in db.files ensures f.id < NextId(FileIds(db.files)) {
      var k :| 0 <= k < |db.files| && db.files[k] == f;
      assert FileIds(db.files)[k] == f.id;
    }
  }

  /** Appending a version row with a fresh id whose file is in the new
      file table keeps versions owned and their ids unique. */
  lemma AppendVersionOwned(db: Db, db': Db, v: VersionRow)
    requires WellFormed(db) && KeepsFileIds(db, db')
    requires db'.versions == db.versions + [v]
    requires forall x | x in db.versions :: x.id < v.id
    requires exists f | f in db'.files :: f.id == v.fileId
    ensures UniqueVersionIds(db'.versions) && VersionsOwned(db')
  {
    forall x | x in db'.versions ensures exists f | f in db'.files :: f.id == x.fileId {
      if x != v {
        var f :| f in db.files && f.id == x.fileId;
        var k :| 0 <= k < |db.files| && db.files[k] == f;
        assert db'.files[k] in db'.files;
      }
    }
    forall a, b | 0 <= a < b < |db'.versions| ensures db'.versions[a].id != db'.versions[b].id {
      assert db'.versions[a] == db.versions[a] && db.versions[a] in db.versions;
    }
  }

  lemma UploadKeepsWellFormed(db: Db, u: UploadRequest, sha1: Hasher, uuid: string, stored: bool, now: int)
    requires WellFormed(db) && UploadFile(db, u, sha1, uuid, stored, now).Ok?
    ensures WellFormed(UploadFile(db, u, sha1, uuid, stored, now).value.0)
  {
    NextIdsFresh(db);
    if SameName(db, u.filename, u.folderId).Some? {
      NewVersionKeepsWellFormed(db, u, sha1, uuid, now);
    } else {
      NewRecordKeepsWellFormed(db, u, sha1, uuid, now);
    }
  }

  lemma NewVersionKeepsWellFormed(db: Db, u: UploadRequest, sha1: Hasher, uuid: string, now: int)
    requires WellFormed(db) && SameName(db, u.filename, u.folderId).Some?
    requires forall v | v in db.versions :: v.id < NextId(VersionIds(db.versions))
    requires UploadFile(db, u, sha1, uuid, true, now).Ok?
    ensures WellFormed(UploadFile(db, u, sha1, uuid, true, now).value.0)
  {
    var i := SameName(db, u.filename, u.folderId).value;
    var vid := NextId(VersionIds(db.versions));
    var f := db.files[i];
    var v := VersionRow(vid, f.id, |VersionsOf(db, f.id)| + 1, Some(CalculateSha1(u.content, sha1)), |u.content|, u.mime, Bucket, uuid + "-" + u.filename, now);
    var db' := db.(files := db.files[i := f.(currentVersionId := Some(vid))], versions := db.versions + [v]);
    assert UploadFile(db, u, sha1, uuid, true, now).value.0 == db';
    assert db'.files[i] in db'.files;
    AppendVersionOwned(db, db', v);
    FilesRewritten(db, db'.(versions := db.versions));
  }

  lemma NewRecordKeepsWellFormed(db: Db, u: UploadRequest, sha1: Hasher, uuid: string, now: int)
    requires WellFormed(db) && SameName(db, u.filename, u.folderId).None?
    requires forall v | v in db.versions :: v.id < NextId(VersionIds(db.versions))
    requires forall f | f in db.files :: f.id < NextId(FileIds(db.files))
    requires UploadFile(db, u, sha1, uuid, true, now).Ok?
    ensures WellFormed(UploadFile(db, u, sha1, uuid, true, now).value.0)
  {
    var vid := NextId(VersionIds(db.versions));
    var fid := NextId(FileIds(db.files));
    var v := VersionRow(vid, fid, 1, Some(CalculateSha1(u.content, sha1)), |u.content|, u.mime, Bucket, uuid + "-" + u.filename, now);
    var f' := FileRow(fid, u.filename, Category(u.mime), u.folderId, now, Some(vid), []);
    assert UploadFile(db, u, sha1, uuid, true, now).value.0 == db.(files := db.files + [f'], versions := db.versions + [v]);
    AppendRecordKeepsWellFormed(db, f', v);
  }

  /** A new file row and its first version, both with fresh ids. */
  lemma AppendRecordKeepsWellFormed(db: Db, f': FileRow, v: VersionRow)
    requires WellFormed(db) && v.fileId == f'.id
    requires forall x | x in db.versions :: x.id < v.id
    requires forall x | x in db.files :: x.id < f'.id
    ensures WellFormed(db.(files := db.files + [f'], versions := db.versions + [v]))
  {
    var db' := db.(files := db.files + [f'], versions := db.versions + [v]);
    assert f' in db'.files;
    AppendVersionOwned(db, db', v);
    forall a, b | 0 <= a < b < |db'.files| ensures db'.files[a].id != db'.files[b].id {
      assert db'.files[a] == db.files[a] && db.files[a] in db.files;
    }
  }

  // ---------------------------------------------------------------------
  // Version numbers.

  /** A file with versions 1 and 2, the second current. */
  function TwoVersions(): Db {
    Db([], [FileRow(1, "a", "other", None, 0, Some(2), [])],
       [VersionRow(1, 1, 1, Some("x"), 0, "", Bucket, "o1", 0),
        VersionRow(2, 1, 2, Some("y"), 0, "", Bucket, "o2", 0)],
       [])
  }

  /** The same database after version 1 is deleted. */
  function OneLeft(): Db {
    TwoVersions().(versions := [TwoVersions().versions[1]])
  }

  lemma DeleteOldest()
    ensures DeleteVersion(TwoVersions(), 1, 1) == Ok(OneLeft())
  {
    TwoVersionsLookups();
    DeleteNonCurrent(TwoVersions(), 1, 1);
    assert DropVersionRow(TwoVersions(), 0) == OneLeft();
  }

  /** Deleting a version that is not the file's current one only drops its row. */
  lemma DeleteNonCurrent(db: Db, fileId: int, versionId: int)
    requires FileIndex(db, fileId).Some? && |VersionsOf(db, fileId)| > 1
    requires OwnVersionIndex(db, fileId, versionId).Some?
    requires db.files[FileIndex(db, fileId).value].currentVersionId != Some(versionId)
    ensures DeleteVersion(db, fileId, versionId) == Ok(DropVersionRow(db, OwnVersionIndex(db, fileId, versionId).value))
  {
  }

  /** In the two-version example, file 1 is row 0, version 1 is row 0, and
      the file has two versions. */
  lemma TwoVersionsLookups()
    ensures |VersionsOf(TwoVersions(), 1)| == 2
    ensures FileIndex(TwoVersions(), 1) == Some(0)
    ensures OwnVersionIndex(TwoVersions(), 1, 1) == Some(0)
  {
    var db := TwoVersions();
    assert Filter(db.versions, OfFile(1)) == db.versions;
    assert FileIndex(db, 1) == Some(0);
  }

  lemma UploadAfterDelete(u: UploadRequest, sha1: Hasher, uuid: string, now: int)
    requires u.filename == "a" && u.folderId.None?
    requires CalculateSha1(u.content, sha1) != "y"
    ensures var r := UploadFile(OneLeft(), u, sha1, uuid, true, now);
            && r.Ok? && |r.value.0.versions| == 2
            && r.value.0.versions[0] == OneLeft().versions[0]
            && r.value.0.versions[1].fileId == 1 && r.value.0.versions[1].versionNumber == 2
  {
    var db1 := OneLeft();
    var v2 := db1.versions[0];
    assert |VersionsOf(db1, 1)| == 1 by {
      assert Filter(db1.versions, OfFile(1)) == [v2];
    }
    assert SameName(db1, "a", None) == Some(0);
    assert !IsDuplicate(db1, db1.files[0], CalculateSha1(u.content, sha1)) by {
      assert FindVersion(db1, 2) == Some(v2);
    }
  }

  /** New versions are numbered by counting the file's versions, so after
      version 1 is deleted the next upload under the same name is numbered
      2 again: two versions of one file then carry the same number. */
  lemma VersionNumberReused(u: UploadRequest, sha1: Hasher, uuid: string, now: int)
    requires u.filename == "a" && u.folderId.None?
    requires CalculateSha1(u.content, sha1) != "y"
    ensures DeleteVersion(TwoVersions(), 1, 1).Ok?
    ensures var db1 := DeleteVersion(TwoVersions(), 1, 1).value;
            var r := UploadFile(db1, u, sha1, uuid, true, now);
            && r.Ok?
            && |r.value.0.versions| == 2
            && r.value.0.versions[0].fileId == r.value.0.versions[1].fileId == 1
            && r.value.0.versions[0].versionNumber == r.value.0.versions[1].versionNumber == 2
  {
    DeleteOldest();
    UploadAfterDelete(u, sha1, uuid, now);
  }
}
