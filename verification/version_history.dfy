/** The version history dialog
  (frontend/src/components/VersionHistoryPanel.tsx): the listed versions,
  newest first, the per-version controls and the restore/delete handlers.
 */
module VersionHistory {
  import opened Common
  import opened Api
  import Text

  // ---------------------------------------------------------------------
  // Ordering.

  /** Descending by version number. */
  predicate Descending(vs: seq<FileVersion>) {
    forall i, j :: 0 <= i < j < |vs| ==> vs[i].versionNumber >= vs[j].versionNumber
  }

  /** `data.sort((a, b) => b.version_number - a.version_number)`: the same
      versions, newest number first. */
  function SortDescending(vs: seq<FileVersion>): (r: seq<FileVersion>)
    ensures multiset(r) == multiset(vs)
    ensures Descending(r)
  {
    SortBy(vs, (v: FileVersion) => -v.versionNumber)
  }

  // ---------------------------------------------------------------------
  // The panel.

  datatype Severity = Success | Error

  /** What the snackbar says, as far as the model tells messages apart. */
  datatype Notice = LoadFailed | CannotDeleteLast | Deleted(versionNumber: int)
                  | Restored(versionNumber: int) | Failed

  datatype Panel = Panel(versions: seq<FileVersion>, loading: bool, notice: Option<Notice>)

  function NoticeSeverity(n: Notice): Severity {
    match n
    case Deleted(_) => Success
    case Restored(_) => Success
    case _ => Error
  }

  /** `fetchVersions`, with the listing's outcome: the versions are stored
      newest first; a failure keeps the old list and reports an error. */
  function FetchVersions(p: Panel, file: Option<FileModel>, answer: Fetched<seq<FileVersion>>): (r: Panel)
    ensures file.None? ==> r == p
    ensures file.Some? && answer.Resolved? ==>
              !r.loading && Descending(r.versions) && multiset(r.versions) == multiset(answer.data) &&
              r.notice == p.notice
    ensures file.Some? && answer.Rejected? ==>
              r == p.(loading := false, notice := Some(LoadFailed))
  {
    if file.None? then p
    else match answer
      case Resolved(data) => p.(versions := SortDescending(data), loading := false)
      case Rejected => p.(loading := false, notice := Some(LoadFailed))
  }

  /** `isCurrentVersion`: the version the file currently points to. */
  predicate IsCurrent(file: FileModel, v: FileVersion) {
    file.currentVersion.Some? && file.currentVersion.value.id == v.id
  }

  /** The controls shown beside one version: download always; restore and
      delete only for versions other than the current one, delete greyed
      out when at most one version is listed. */
  datatype Controls = Controls(download: bool, restore: bool, delete: Option<bool>)

  function ControlsFor(p: Panel, file: FileModel, v: FileVersion): (c: Controls)
    ensures c.download
    ensures c.restore <==> !IsCurrent(file, v)
    ensures c.delete.Some? <==> !IsCurrent(file, v)
    ensures c.delete.Some? ==> (c.delete.value <==> |p.versions| <= 1)
  {
    if IsCurrent(file, v) then Controls(true, false, None)
    else Controls(true, true, Some(|p.versions| <= 1))
  }

  datatype Request = DeleteVersion(fileId: int, versionId: int) | RestoreVersion(fileId: int, versionId: int)

  /** `handleDelete`: refused without a request when at most one version is
      listed; otherwise the request is sent, and on success the list is
      fetched again (`refetched` is that fetch's outcome). */
  function HandleDelete(p: Panel, file: Option<FileModel>, v: FileVersion, succeeded: bool,
                        refetched: Fetched<seq<FileVersion>>): (r: (Panel, Option<Request>))
    ensures file.None? ==> r == (p, None)
    ensures file.Some? && |p.versions| <= 1 ==> r == (p.(notice := Some(CannotDeleteLast)), None)
    ensures file.Some? && |p.versions| > 1 ==>
              r.1 == Some(DeleteVersion(file.value.id, v.id)) &&
              (succeeded ==> r.0 == FetchVersions(p.(notice := Some(Deleted(v.versionNumber))), file, refetched)) &&
              (!succeeded ==> r.0 == p.(notice := Some(Failed)))
  {
    if file.None? then (p, None)
    else if |p.versions| <= 1 then (p.(notice := Some(CannotDeleteLast)), None)
    else
      var req := Some(DeleteVersion(file.value.id, v.id));
      if succeeded then (FetchVersions(p.(notice := Some(Deleted(v.versionNumber))), file, refetched), req)
      else (p.(notice := Some(Failed)), req)
  }

  /** `handleRestore`: the request is always sent; on success the returned
      file goes to `onVersionRestored` and the list is fetched again. */
  function HandleRestore(p: Panel, file: Option<FileModel>, v: FileVersion, answer: Fetched<FileModel>,
                         refetched: Fetched<seq<FileVersion>>): (r: (Panel, Option<Request>, Option<FileModel>))
    ensures file.None? ==> r == (p, None, None)
    ensures file.Some? ==> r.1 == Some(RestoreVersion(file.value.id, v.id))
    ensures file.Some? ==> (r.2.Some? <==> answer.Resolved?)
    ensures file.Some? && answer.Resolved? ==>
              r.2 == Some(answer.data) &&
              r.0 == FetchVersions(p.(notice := Some(Restored(v.versionNumber))), file, refetched)
    ensures file.Some? && answer.Rejected? ==> r.0 == p.(notice := Some(Failed))
  {
    if file.None? then (p, None, None)
    else
      var req := Some(RestoreVersion(file.value.id, v.id));
      match answer
      case Resolved(updated) =>
        (FetchVersions(p.(notice := Some(Restored(v.versionNumber))), file, refetched), req, Some(updated))
      case Rejected => (p.(notice := Some(Failed)), req, None)
  }

  /** A restore the server accepts, followed by a listing that loads, shows
      exactly the listed versions, newest first, and hands the updated file
      on; if the listing fails, the old list stays with the load error. */
  lemma RestoreShowsRefetched(p: Panel, file: FileModel, v: FileVersion, updated: FileModel,
                              refetched: Fetched<seq<FileVersion>>)
    ensures var (p', req, passed) := HandleRestore(p, Some(file), v, Resolved(updated), refetched);
            && req == Some(RestoreVersion(file.id, v.id))
            && passed == Some(updated)
            && !p'.loading
            && (refetched.Resolved? ==>
                  multiset(p'.versions) == multiset(refetched.data) && Descending(p'.versions) &&
                  p'.notice == Some(Restored(v.versionNumber)))
            && (refetched.Rejected? ==> p'.versions == p.versions && p'.notice == Some(LoadFailed))
  {
  }

  /** A restore the server refuses leaves the list as it was and hands
      nothing on. */
  lemma RejectedRestoreKeepsList(p: Panel, file: FileModel, v: FileVersion, refetched: Fetched<seq<FileVersion>>)
    ensures var (p', req, passed) := HandleRestore(p, Some(file), v, Rejected, refetched);
            && req == Some(RestoreVersion(file.id, v.id))
            && passed.None?
            && p'.versions == p.versions && p'.loading == p.loading
            && p'.notice == Some(Failed)
  {
  }

  /** The last listed version can never be deleted from the panel: its
      button is greyed out, and the handler refuses without a request. */
  lemma LastVersionProtected(p: Panel, file: FileModel, v: FileVersion, succeeded: bool,
                             refetched: Fetched<seq<FileVersion>>)
    requires |p.versions| <= 1
    ensures var c := ControlsFor(p, file, v); c.delete.None? || c.delete.value
    ensures HandleDelete(p, Some(file), v, succeeded, refetched).1.None?
  {
  }

  /** `formatSize`, integer branch: `None` stands for the fractional KB/MB
      labels, which are not modelled. */
  function FormatSize(bytes: int): (shown: Option<string>)
    ensures bytes < 1024 <==> shown.Some?
    ensures shown.Some? ==> var s := shown.value;
              |s| >= 3 && s[|s| - 2..] == " B" && Text.ParseInt(s[..|s| - 2]) == Some(bytes)
  {
    if bytes < 1024 then
      Text.ByteLabelRoundTrip(bytes);
      Some(Text.ByteLabel(bytes))
    else None
  }
}
