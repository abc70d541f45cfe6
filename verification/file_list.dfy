/** The explorer's grid (frontend/src/components/FileList.tsx): the rows it
  builds from a folder's contents, their ids, the version badge, the size
  column and what a double click opens.
 */
module FileList {
  import opened Common
  import opened Api
  import Text

  /** A grid row: the item spread into it, the `rowId` that keys it, and
      its size column (forced to 0 for folders). */
  datatype Row = Row(rowId: string, item: Item, size: int)

  /** The row's `type` field. */
  function RowType(row: Row): string {
    if row.item.FolderItem? then "folder" else "file"
  }

  /** The row's `originalId`. */
  function OriginalId(row: Row): int {
    ItemId(row.item)
  }

  function FolderRowId(id: int): string { "folder_" + Text.IntToString(id) }
  function FileRowId(id: int): string { "file_" + Text.IntToString(id) }

  function FolderRow(f: FolderModel): Row { Row(FolderRowId(f.id), FolderItem(f), 0) }
  function FileRow(f: FileModel): Row { Row(FileRowId(f.id), FileItem(f), f.size) }

  /** `rows`: every folder, then every file, each group in the order given. */
  function Rows(folders: seq<FolderModel>, files: seq<FileModel>): (r: seq<Row>)
    ensures |r| == |folders| + |files|
    ensures forall k :: 0 <= k < |folders| ==>
              r[k].item == FolderItem(folders[k]) && RowType(r[k]) == "folder" && r[k].size == 0
    ensures forall k :: |folders| <= k < |r| ==>
              r[k].item == FileItem(files[k - |folders|]) && RowType(r[k]) == "file" &&
              r[k].size == files[k - |folders|].size
  {
    seq(|folders|, k requires 0 <= k < |folders| => FolderRow(folders[k]))
      + seq(|files|, k requires 0 <= k < |files| => FileRow(files[k]))
  }

  /** A folder row id and a file row id never coincide, whatever the ids. */
  lemma KindsNeverCollide(a: int, b: int)
    ensures FolderRowId(a) != FileRowId(b)
  {
    assert FolderRowId(a)[1] == 'o' && FileRowId(b)[1] == 'i';
  }

  lemma FolderRowIdInjective(a: int, b: int)
    ensures FolderRowId(a) == FolderRowId(b) ==> a == b
  {
    if FolderRowId(a) == FolderRowId(b) {
      assert FolderRowId(a)[7..] == Text.IntToString(a);
      assert FolderRowId(b)[7..] == Text.IntToString(b);
      Text.IntToStringInjective(a, b);
    }
  }

  lemma FileRowIdInjective(a: int, b: int)
    ensures FileRowId(a) == FileRowId(b) ==> a == b
  {
    if FileRowId(a) == FileRowId(b) {
      assert FileRowId(a)[5..] == Text.IntToString(a);
      assert FileRowId(b)[5..] == Text.IntToString(b);
      Text.IntToStringInjective(a, b);
    }
  }

  /** Row ids are unique as long as folder ids are unique among folders and
      file ids among files, even when a folder and a file share an id. */
  lemma RowIdsUnique(folders: seq<FolderModel>, files: seq<FileModel>)
    requires forall i, j :: 0 <= i < j < |folders| ==> folders[i].id != folders[j].id
    requires forall i, j :: 0 <= i < j < |files| ==> files[i].id != files[j].id
    ensures var r := Rows(folders, files);
            forall i, j :: 0 <= i < j < |r| ==> r[i].rowId != r[j].rowId
  {
    var r := Rows(folders, files);
    var n := |folders|;
    forall i, j | 0 <= i < j < |r| ensures r[i].rowId != r[j].rowId {
      if j < n {
        FolderRowIdInjective(folders[i].id, folders[j].id);
      } else if i < n {
        KindsNeverCollide(folders[i].id, files[j - n].id);
      } else {
        FileRowIdInjective(files[i - n].id, files[j - n].id);
      }
    }
  }

  /** `rows.find(r => r.rowId === rowId)`, which the context menu uses. */
  function Find(rows: seq<Row>, rowId: string): (r: Option<Row>)
    ensures r.Some? ==> r.value in rows && r.value.rowId == rowId
    ensures r.None? ==> forall k :: 0 <= k < |rows| ==> rows[k].rowId != rowId
  {
    if rows == [] then None
    else if rows[0].rowId == rowId then Some(rows[0])
    else Find(rows[1..], rowId)
  }

  /** With unique row ids, right-clicking a row finds that very row. */
  lemma {:induction false} FindsClickedRow(rows: seq<Row>, k: nat)
    requires k < |rows|
    requires forall i, j :: 0 <= i < j < |rows| ==> rows[i].rowId != rows[j].rowId
    ensures Find(rows, rows[k].rowId) == Some(rows[k])
  {
    if k > 0 {
      assert rows[0].rowId != rows[k].rowId;
      FindsClickedRow(rows[1..], k - 1);
    }
  }

  /** The name cell: `filename || name || ''`. */
  function DisplayName(row: Row): (name: string)
    ensures name == ItemName(row.item)
  {
    match row.item
    case FileItem(f) => f.filename
    case FolderItem(d) => d.name
  }

  /** The number on the version chip: the current version's number, or the
      version count when there is no current version or its number is 0
      (falsy). */
  function BadgeNumber(f: FileModel): int {
    if f.currentVersion.Some? && f.currentVersion.value.versionNumber != 0
    then f.currentVersion.value.versionNumber else f.versionCount
  }

  /** The version chip: shown only for files with more than one version,
      labelled `v` followed by the badge number. */
  function VersionBadge(row: Row): (badge: Option<string>)
    ensures badge.Some? <==> row.item.FileItem? && row.item.file.versionCount > 1
    ensures badge.Some? ==>
              (|badge.value| >= 2 && badge.value[0] == 'v' &&
               Text.ParseInt(badge.value[1..]) == Some(BadgeNumber(row.item.file)))
  {
    match row.item
    case FolderItem(_) => None
    case FileItem(f) =>
      if f.versionCount > 1 then
        var n := BadgeNumber(f);
        var chip := "v" + Text.IntToString(n);
        assert chip[1..] == Text.IntToString(n);
        Text.IntToStringRoundTrip(n);
        Some(chip)
      else None
  }

  /** The size column's formatter, integer branches only: '--' for a falsy
      size (missing or 0), the byte count below 1024; `None` stands for the
      fractional KB/MB labels, which are not modelled. */
  function SizeLabel(size: Option<int>): (shown: Option<string>)
    ensures size.None? || size.value == 0 ==> shown == Some("--")
    ensures size.Some? && size.value != 0 && size.value < 1024 ==> shown == Some(Text.ByteLabel(size.value))
    ensures size.Some? && size.value >= 1024 ==> shown.None?
  {
    if size.None? || size.value == 0 then Some("--")
    else if size.value < 1024 then Some(Text.ByteLabel(size.value))
    else None
  }

  /** Folder rows always show '--' in the size column. */
  lemma FolderSizeBlank(folders: seq<FolderModel>, files: seq<FileModel>, k: nat)
    requires k < |folders|
    ensures SizeLabel(Some(Rows(folders, files)[k].size)) == Some("--")
  {
  }

  datatype Open = OpenFolder(folderId: int) | OpenFile(file: FileModel)

  /** `onRowDoubleClick`: folders navigate by their original id, anything
      else opens the file. */
  function DoubleClick(row: Row): Open {
    match row.item
    case FolderItem(d) => OpenFolder(OriginalId(row))
    case FileItem(f) => OpenFile(f)
  }

  /** Double-clicking the k-th row opens the k-th folder or, past the
      folders, the matching file. */
  lemma DoubleClickOpensItem(folders: seq<FolderModel>, files: seq<FileModel>, k: nat)
    requires k < |folders| + |files|
    ensures var o := DoubleClick(Rows(folders, files)[k]);
            if k < |folders| then o == OpenFolder(folders[k].id)
            else o == OpenFile(files[k - |folders|])
  {
  }
}
