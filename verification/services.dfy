/** The request-building and response-shaping rules of the API client
  (frontend/src/api/services.ts) that the core depends on: the upload form,
  the progress percentage, the root-file filter and the folder-delete flag.
 */
module Services {
  import opened Common
  import opened Api
  import Text

  datatype FormField = FilePart(file: FileHandle) | TextPart(key: string, value: string)

  /** Multipart body of `fileApi.upload`: the file, then `folder_id` only when
      a destination folder is given. */
  function UploadForm(file: FileHandle, folderId: Option<int>): (form: seq<FormField>)
    ensures |form| >= 1 && form[0] == FilePart(file)
    ensures (exists k :: 0 <= k < |form| && form[k].TextPart? && form[k].key == "folder_id") <==> folderId.Some?
    ensures forall k :: 0 <= k < |form| && form[k].TextPart? ==>
              folderId.Some? && Text.ParseInt(form[k].value) == Some(folderId.value)
  {
    match folderId
    case None => [FilePart(file)]
    case Some(id) =>
      Text.IntToStringRoundTrip(id);
      var form := [FilePart(file), TextPart("folder_id", Text.IntToString(id))];
      assert form[1].TextPart? && form[1].key == "folder_id";
      [FilePart(file), TextPart("folder_id", Text.IntToString(id))]
  }

  /** `Math.round(loaded * 100 / total)`, where `Math.round` rounds halves
      upwards: floor(x + 1/2) with x = 100 * loaded / total. */
  function ProgressPercent(loaded: nat, total: nat): (p: int)
    requires total > 0
    ensures 2 * p * total - total <= 200 * loaded < 2 * p * total + total
    ensures loaded <= total ==> 0 <= p <= 100
  {
    PercentBounds(loaded, total);
    (200 * loaded + total) / (2 * total)
  }

  lemma PercentBounds(loaded: nat, total: nat)
    requires total > 0
    ensures var p := (200 * loaded + total) / (2 * total);
            && 2 * p * total - total <= 200 * loaded < 2 * p * total + total
            && (loaded <= total ==> 0 <= p <= 100)
  {
    var n := 200 * loaded + total;
    var d := 2 * total;
    var p := n / d;
    var r := n % d;
    assert n == p * d + r && 0 <= r < d;
    assert 2 * p * total == p * d;
    if loaded <= total {
      assert 0 <= p;
      assert (p - 101) * d < 0 by {
        assert n <= 201 * total;
        assert (p - 101) * d == p * d - 101 * d;
      }
      NegativeFactor(p - 101, d);
    }
  }

  /** The rounded percentage grows with the number of bytes sent. */
  lemma ProgressMonotone(loaded1: nat, loaded2: nat, total: nat)
    requires total > 0 && loaded1 <= loaded2
    ensures ProgressPercent(loaded1, total) <= ProgressPercent(loaded2, total)
  {
    var p1 := ProgressPercent(loaded1, total);
    var p2 := ProgressPercent(loaded2, total);
    var d := p1 - p2 - 1;
    assert d * total < 0 by {
      assert 2 * p1 * total - total < 2 * p2 * total + total;
      assert d * total == p1 * total - p2 * total - total;
    }
    NegativeFactor(d, total);
  }

  lemma NegativeFactor(d: int, t: int)
    requires t > 0 && d * t < 0
    ensures d < 0
  {
  }

  /** One `onUploadProgress` event: the callback runs with the percentage
      only when the total is known and non-zero and a callback was given. */
  function ProgressReport(loaded: nat, total: Option<nat>, hasCallback: bool): (r: Option<int>)
    ensures r.Some? <==> hasCallback && total.Some? && total.value > 0
    ensures r.Some? && loaded <= total.value ==> 0 <= r.value <= 100
  {
    if total.Some? && total.value > 0 && hasCallback then Some(ProgressPercent(loaded, total.value)) else None
  }

  /** `getRootFiles`: the searched files that live in no folder. */
  function RootFiles(files: seq<FileModel>): (r: seq<FileModel>)
    ensures forall f :: f in r <==> f in files && f.folderId.None?
    ensures |r| <= |files|
  {
    if files == [] then []
    else if files[0].folderId.None? then [files[0]] + RootFiles(files[1..])
    else RootFiles(files[1..])
  }

  /** The filter keeps the original order: filtering a concatenation is the
      concatenation of the filtered parts. */
  lemma {:induction false} RootFilesConcat(a: seq<FileModel>, b: seq<FileModel>)
    ensures RootFiles(a + b) == RootFiles(a) + RootFiles(b)
  {
    if a == [] {
      assert a + b == b;
    } else {
      assert (a + b)[1..] == a[1..] + b;
      RootFilesConcat(a[1..], b);
    }
  }

  datatype DeleteFolderRequest = DeleteFolderRequest(folderId: int, recursive: bool)

  /** `folderApi.delete(id, recursive = false)`. */
  function DeleteFolder(folderId: int, recursive: Option<bool>): (req: DeleteFolderRequest)
    ensures req.folderId == folderId
    ensures req.recursive <==> recursive == Some(true)
  {
    DeleteFolderRequest(folderId, recursive.GetOr(false))
  }
}
