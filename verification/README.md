# DMS document manager — a Dafny model of its core

DMS is a small document-management application. A FastAPI backend keeps
folders, file records, file versions and tags in SQL tables and stores the
bytes in an object store. A React frontend browses the folder hierarchy,
uploads files through a queue and manages version history. This project
models the parts of both sides that carry the application's logic, and
proves what they promise.

**Backend.**
- `Backend` holds the tables as sequences of rows in row-id order. It also
  holds the relationships the routers read: a file's versions in number
  order, and its current version.
- `BackendFiles` covers upload with SHA-1 duplicate detection and
  versioning, deleting and restoring versions, and tags.
- `BackendFolders` covers creating and listing folders, folder contents, and
  recursive folder deletion.
- `Sha1Sampling` is the sampled fingerprint of large uploads.

Every handler is a pure function from a database to an HTTP status or a new
database, so "the handler keeps the database well formed" is a lemma. The
object store, the clock and the UUID are inputs.

**Frontend.**
- `FileStore` is the zustand store.
- `FileExplorer` covers the explorer page: folder loading, the breadcrumb
  walk, and the menu, delete, create and rename handlers.
- `FileList` covers the grid rows, their ids, labels and badges.
- `ContextMenu` covers the context menu's entries.
- `Breadcrumbs` covers links and routes.
- `FolderTree` is the lazily loaded side tree.
- `UploadPage` covers the upload page's hierarchical folder picker.
- `UploadZone` is the drag-and-drop counter.
- `UploadManager` is the sequential upload queue. Its drain pass is a method
  with a loop, and the outcome of each upload request is an input.
- `VersionHistory` covers the version panel.
- `RenameDialog` is the rename dialog.
- `Services` covers the API request shapes and upload progress.
- `I18n` covers language selection.
- `Text` models the JavaScript string operations the components use.

Server answers are inputs. Where an answer arrives after an `await`, the
model takes the events that can happen meanwhile as inputs too.

## Model

| member | source | states |
|---|---|---|
| Backend.NextId | backend/app/models.py:50 | an inserted row gets a positive integer primary key above every id already in its table, so it never collides with an existing row |
| Backend.VersionsOf | backend/app/models.py:62 | `FileRecord.versions` holds exactly the version rows of that file, no others and none missing, ordered by version number |
| Backend.FileIndex | backend/app/routers/files.py:259-261 | the lookup by id finds the first file row with that id, and finds nothing only when no row has it |
| Backend.FindFolder | backend/app/routers/folders.py:83-85 | the folder lookup returns a folder row with the requested id, or nothing when no such row exists |
| Backend.FindVersion | backend/app/models.py:65 | the version lookup returns a version row with the requested id, or nothing when no such row exists |
| Backend.CurrentVersion | backend/app/models.py:57-65 | the current version is the version row whose id the file points to: there is one exactly when some version row carries that id, and none when the file points nowhere |
| Backend.Response | backend/app/routers/files.py:19-32 | the response carries the record's own fields, its version count and its current version; size, content type and upload time come from the current version, falling back to 0, none and the record's creation time (models.py:68-86) |
| Backend.StorageLocation | backend/app/models.py:76-82 | a file has a bucket and an object name exactly when it has a current version, and they are that version's |
| Backend.AppendVersion | backend/app/routers/files.py:88-98 | adding a version row with a fresh id makes it findable and gives its file exactly one more version, every other file none |
| BackendFiles.Category | backend/app/routers/files.py:48-61 | the stored category is always one of image, video, audio, document, archive and other |
| BackendFiles.IsDuplicate | backend/app/routers/files.py:71 | an upload counts as a duplicate only when the record points at a version row carrying the same SHA-1 |
| BackendFiles.DuplicateIffCurrentHash | backend/app/routers/files.py:69-71 | with unique version ids, the duplicate check holds exactly when the version the record points at carries that SHA-1 |
| BackendFiles.UploadFile | backend/app/routers/files.py:35-145 | an upload answers 409 exactly for duplicate content under the same name and folder, 500 exactly when it is not a duplicate and the object store refused it, and succeeds otherwise |
| BackendFiles.CategoryRules | backend/app/routers/files.py:50-61 | a media prefix gives its own category; otherwise document when a document rule matches; otherwise archive when an archive rule matches; otherwise other, each in both directions |
| BackendFiles.UploadConflict | backend/app/routers/files.py:63-75 | an upload answers 409 exactly when a record with the same name in the same folder has a current version with the same SHA-1 |
| BackendFiles.UploadAddsVersion | backend/app/routers/files.py:77-105 | a new upload under an existing name adds one version numbered one past the record's version count and makes it current; the record's name, category, folder and tags stay, other records stay, the versions table gains exactly that row, and the folder and tag tables are untouched |
| BackendFiles.UploadCreatesRecord | backend/app/routers/files.py:107-145 | an upload under a new name appends exactly one record: a fresh id, the uploaded name and folder, the detected category, no tags, and as current version the single new version, numbered 1; the versions table gains exactly that row, and the folder and tag tables are untouched |
| BackendFiles.FirstVersionOfNewRecord | backend/app/routers/files.py:127-143 | the first version of a new record is its current version and the only version it has |
| BackendFiles.ReuploadConflicts | backend/app/routers/files.py:63-75 | once an upload succeeds, sending the same content under the same name into the same folder again answers 409, whether the record was new or got a new version |
| BackendFiles.UploadKeepsWellFormed | backend/app/routers/files.py:35-145 | a successful upload keeps ids unique, every version owned by a record and the folder hierarchy intact |
| BackendFiles.OwnVersionIndex | backend/app/routers/files.py:266-272 | the version lookup finds a row with that id belonging to that file, or reports that no row matches both |
| BackendFiles.DeleteVersion | backend/app/routers/files.py:256-291 | deleting a version answers 404 for an unknown file, 400 when the file has at most one version, and 404 for a version that is not the file's |
| BackendFiles.DeleteVersionRemovesRow | backend/app/routers/files.py:274-291 | a permitted delete removes exactly the rows with that version id, leaves the file at least one version, and changes no other file; the file's own record changes only when its current version was deleted |
| BackendFiles.DeleteVersionRepoints | backend/app/routers/files.py:274-279 | deleting the current version leaves the file pointing at a version it still has, the highest-numbered one remaining |
| BackendFiles.DeleteCurrentResult | backend/app/routers/files.py:275-278 | the current version's deletion repoints the file at the last of its other versions in list order |
| BackendFiles.LastOtherIsNewest | backend/app/routers/files.py:277 | because the version list is in number order (models.py:62), the last of the other versions has the highest number among them |
| BackendFiles.DeleteVersionKeepsWellFormed | backend/app/routers/files.py:256-291 | a permitted version delete keeps the database well formed |
| BackendFiles.VersionNumberReused | backend/app/routers/files.py:78 | numbering by version count reuses numbers: after version 1 of a two-version file is deleted, the next upload is numbered 2 again, so two versions of one file carry the same number |
| BackendFiles.RestoreVersion | backend/app/routers/files.py:294-307 | a restore fails exactly for an unknown file or a version of another file, and then with 404 |
| BackendFiles.RestoreEffect | backend/app/routers/files.py:309-313 | a restore points the file at that version and changes nothing else; restoring the current version changes nothing at all |
| BackendFiles.RestoreKeepsWellFormed | backend/app/routers/files.py:294-313 | a restore keeps the database well formed |
| BackendFiles.TagIndex | backend/app/routers/files.py:352 | the tag lookup by name finds a tag with that name, and finds none only when no tag has it |
| BackendFiles.TagFor | backend/app/routers/files.py:351-356 | the tag to attach has the requested name and is in the tag table afterwards; only the tag table may change |
| BackendFiles.AddTag | backend/app/routers/files.py:345-349 | tagging answers 404 exactly when the file is unknown |
| BackendFiles.AddTagEffect | backend/app/routers/files.py:351-363 | the file ends up with a tag of that name, appended only when it was not already attached; the tag table grows by one fresh row only for a new name; no other record changes |
| BackendFiles.AddTagIdempotent | backend/app/routers/files.py:358-360 | adding the same tag a second time changes nothing and gives the same answer |
| BackendFiles.RemoveTag | backend/app/routers/files.py:366-370 | untagging answers 404 exactly when the file is unknown |
| BackendFiles.RemoveTagEffect | backend/app/routers/files.py:372-377 | the answer lists the names of the file's remaining tags; the file loses one tag exactly when the named tag was attached, and otherwise nothing changes |
| BackendFiles.RemoveTagDetaches | backend/app/routers/files.py:373-374 | after the removal the file no longer carries the named tag and gained none |
| BackendFiles.AddThenRemoveTag | backend/app/routers/files.py:345-377 | adding a new tag and then removing it restores the file table and answers with the original tag names |
| BackendFiles.AddTagKeepsWellFormed | backend/app/routers/files.py:345-363 | tagging keeps tag ids and names unique and the database well formed |
| BackendFiles.RemoveTagKeepsWellFormed | backend/app/routers/files.py:366-377 | untagging keeps the database well formed |
| BackendFolders.ListFolders | backend/app/routers/folders.py:24-29 | the listing holds exactly the folders whose parent is the requested one; no parent means the top level |
| BackendFolders.FilesIn | backend/app/routers/folders.py:37-46 | the file listing holds exactly the files of the requested folder; no folder means the root |
| BackendFolders.CreateFolder | backend/app/routers/folders.py:11-22 | creating a folder fails with 404 exactly when a truthy parent id names no folder |
| BackendFolders.CreateFolderEffect | backend/app/routers/folders.py:18-22 | the new folder has the given name and parent and a fresh id; it appears last in its parent's listing, and every other listing and table is unchanged |
| BackendFolders.CreateFolderKeepsWellFormed | backend/app/routers/folders.py:11-22 | folder creation keeps the database well formed |
| BackendFolders.GetFolderContents | backend/app/routers/folders.py:31-54 | id 0 is the virtual root "Root" listing the top level; any other id answers 404 when unknown and otherwise lists exactly that folder's subfolders and files |
| BackendFolders.ZeroParentIsHidden | backend/app/routers/folders.py:13-16 | a folder created with parent id 0 passes the falsy parent check, is stored, yet appears in no folder's contents, the root's included |
| BackendFolders.InsideIsSubtrees | backend/app/routers/folders.py:76-78 | the folders strictly inside a folder are its children together with everything inside each child |
| BackendFolders.DeleteContents | backend/app/routers/folders.py:56-79 | the recursive deletion only removes folder rows and keeps the hierarchy intact |
| BackendFolders.DeleteContentsPrunes | backend/app/routers/folders.py:56-79 | deleting a folder's contents removes exactly the folders inside it, the files in the folder or below, and their versions |
| BackendFolders.DeleteSubfoldersPrunes | backend/app/routers/folders.py:76-79 | deleting the listed subfolders one after another removes exactly their subtrees, whichever order they come in |
| BackendFolders.SubtreeGone | backend/app/routers/folders.py:77-79 | deleting a subfolder's contents and then the subfolder removes exactly that subtree |
| BackendFolders.DeleteFolder | backend/app/routers/folders.py:81-101 | deleting a folder answers 404 for an unknown folder and 400 for a non-empty folder without the recursive flag, and succeeds otherwise |
| BackendFolders.DeleteFolderRemovesSubtree | backend/app/routers/folders.py:81-101 | a successful folder delete removes exactly the folder, everything inside it, their files and those files' versions, and nothing else |
| BackendFolders.RecursiveFlagMatters | backend/app/routers/folders.py:91-97 | the recursive flag makes no difference for an empty folder, and for a non-empty one it decides between 400 and deletion |
| BackendFolders.DeleteFolderKeepsWellFormed | backend/app/routers/folders.py:81-101 | a folder delete keeps the database well formed; in particular no version is left without its file |
| Sha1Sampling.CalculateSha1 | backend/app/utils.py:25-45 | contents up to 10 MiB are hashed whole; larger contents are hashed through their sample |
| Sha1Sampling.Sampled | backend/app/utils.py:30-43 | the sample of a large content is its first 1 MiB, then the 1 MiB starting at half its size less 512 KiB, then its last 1 MiB, then the ASCII digits of its size |
| Sha1Sampling.WindowsInside | backend/app/utils.py:32-40 | above the threshold the first, middle and last windows lie inside the content, in order, without overlap |
| Sha1Sampling.SizeBytes | backend/app/utils.py:43 | the size is fed as the ASCII digits of its decimal rendering |
| Sha1Sampling.SameSamplesSameDigest | backend/app/utils.py:29-45 | two large contents of equal size that agree on the three windows get the same fingerprint, whatever they hold elsewhere |
| Sha1Sampling.BlindSpot | backend/app/utils.py:29-45 | for any hash function there are two different contents with the same fingerprint, so a changed large upload can be refused as a duplicate |
| Services.UploadForm | frontend/src/api/services.ts:23-28 | the upload form starts with the file and has a `folder_id` field exactly when a folder is given; its text reads back as that folder id |
| Services.ProgressPercent | frontend/src/api/services.ts:35 | the progress is loaded/total as a percentage rounded to the nearest integer, halves up, and lies in 0..100 while loaded does not exceed total |
| Services.ProgressMonotone | frontend/src/api/services.ts:33-37 | more bytes loaded never shows less progress |
| Services.ProgressReport | frontend/src/api/services.ts:33-37 | progress is reported only when the total is known and non-zero and a callback is present |
| Services.RootFiles | frontend/src/api/services.ts:53-57 | the root files are exactly the searched files without a folder |
| Services.RootFilesConcat | frontend/src/api/services.ts:56 | the filter keeps relative order: filtering a concatenation is concatenating the filtered parts |
| Services.DeleteFolder | frontend/src/api/services.ts:17-19 | the request goes to the given folder and is recursive only when `true` is passed; the default is not recursive |
| I18n.SavedLanguage | frontend/src/i18n.ts:15-26 | the chosen language is always a supported one, and a supported saved choice wins |
| I18n.BrowserDecides | frontend/src/i18n.ts:20-25 | without a valid saved choice, English is chosen exactly for non-Chinese browser languages, and Traditional Chinese exactly for Chinese ones mentioning TW or HK |
| I18n.ChoiceSticks | frontend/src/i18n.ts:15-19 | once saved, the chosen language is chosen again whatever the browser later reports |
| I18n.FallbackSupported | frontend/src/i18n.ts:8-12 | the fallback language (line 33) is one of the loaded resources |
| FileStore.Initial | frontend/src/store/fileStore.ts:17-22 | the store starts at the root with only the Home crumb, nothing selected and a zero refresh counter |
| FileStore.SetCurrentFolder | frontend/src/store/fileStore.ts:24 | setting the folder records the id and the folder record, a missing record as none, and keeps every other field |
| FileStore.SetBreadcrumbs | frontend/src/store/fileStore.ts:25 | setting crumbs replaces only the crumbs |
| FileStore.SetSelectedItems | frontend/src/store/fileStore.ts:26 | setting the selection replaces only the selection |
| FileStore.TriggerRefresh | frontend/src/store/fileStore.ts:27 | a refresh request increments only the refresh counter |
| FileStore.RefreshCountsTriggers | frontend/src/store/fileStore.ts:24-27 | over any sequence of store actions the counter grows by exactly the number of refresh requests and never decreases |
| Api.ItemName | frontend/src/pages/FileExplorer.tsx:174-180 | an item's name is the file name for a file and the folder name for a folder |
| ContextMenu.Offered | frontend/src/components/FileContextMenu.tsx:37-95 | create-folder always comes first; download, share, info and versions appear for files and only for files; rename and delete appear exactly when an item is selected; the empty area offers only create-folder |
| ContextMenu.Shown | frontend/src/components/FileContextMenu.tsx:26-30 | the menu is open exactly when a position is set and then shows the offered entries |
| ContextMenu.AnchorOpensEmptyAreaMenu | frontend/src/components/FileContextMenu.tsx:27 | right-clicking the empty area at any position, the origin included, opens the menu with only the create-folder entry, since any position object is truthy |
| Breadcrumbs.LinkOpensCrumb | frontend/src/components/Breadcrumbs.tsx:11-36 | a crumb's link and its click handler lead to the same path, and the explorer reads that path back as the crumb's folder, Home as the root 0 |
| Breadcrumbs.Href | frontend/src/components/Breadcrumbs.tsx:35 | a crumb's link is a `/files` path, carrying a folder parameter exactly when the crumb has an id |
| Breadcrumbs.ClickTarget | frontend/src/components/Breadcrumbs.tsx:11-19 | the click handler navigates to the same path as the link |
| Breadcrumbs.UrlFolder | frontend/src/pages/FileExplorer.tsx:90 | no folder parameter opens the root 0, and a parameter starting with a digit opens a non-negative folder id |
| Breadcrumbs.CacheKeyInjective | frontend/src/components/Breadcrumbs.tsx:47 | crumbs with different folder ids get different React keys, and Home's `home` key differs from every folder's; two crumbs for the same folder share a key |
| Breadcrumbs.Render | frontend/src/components/Breadcrumbs.tsx:24-41 | one element per crumb in order, the last plain text and every earlier one a link that opens its crumb's folder |
| FileList.Rows | frontend/src/components/FileList.tsx:23-26 | the grid lists every folder first, as size 0, then every file with its size, each group in the given order |
| FileList.KindsNeverCollide | frontend/src/components/FileList.tsx:22-25 | a folder row id never equals a file row id, whatever the numeric ids |
| FileList.FolderRowIdInjective | frontend/src/components/FileList.tsx:24 | distinct folder ids give distinct row ids |
| FileList.FileRowIdInjective | frontend/src/components/FileList.tsx:25 | distinct file ids give distinct row ids |
| FileList.RowIdsUnique | frontend/src/components/FileList.tsx:23-26 | when folder ids and file ids are each unique, all row ids of the grid are unique (line 88 keys rows by them) |
| FileList.Find | frontend/src/components/FileList.tsx:103 | the row lookup returns a row with the requested id, or nothing when none has it |
| FileList.FindsClickedRow | frontend/src/components/FileList.tsx:100-106 | with unique row ids, right-clicking a row finds that very row |
| FileList.DisplayName | frontend/src/components/FileList.tsx:44 | the name column shows the file name for files and the folder name for folders |
| FileList.VersionBadge | frontend/src/components/FileList.tsx:45-58 | a badge appears exactly for files with more than one version, and reads "v" followed by the current version's number, or the count when there is none |
| FileList.SizeLabel | frontend/src/components/FileList.tsx:68-73 | a missing or zero size shows "--", and a size below 1024 shows as bytes |
| FileList.FolderSizeBlank | frontend/src/components/FileList.tsx:24 | folder rows always show "--" as their size |
| FileList.DoubleClickOpensItem | frontend/src/components/FileList.tsx:91-96 | double-clicking a folder row opens that folder's id, and double-clicking a file row opens that file |
| RenameDialog.CurrentName | frontend/src/components/RenameDialog.tsx:28-29 | the current name is the item's name, or empty without an item |
| RenameDialog.Opened | frontend/src/components/RenameDialog.tsx:31-35 | opening the dialog on an item fills in its current name; otherwise the dialog is unchanged |
| RenameDialog.EnabledIffSubmittable | frontend/src/components/RenameDialog.tsx:94 | the rename button is enabled exactly when nothing is loading and a submit would go through |
| RenameDialog.Submit | frontend/src/components/RenameDialog.tsx:37-48 | a blank or unchanged name does nothing; otherwise the trimmed, non-empty name is sent, and the dialog closes exactly when the rename succeeded |
| RenameDialog.UnchangedNameIsNoop | frontend/src/components/RenameDialog.tsx:31-38 | submitting right after opening sends nothing |
| RenameDialog.TrailingSpaceResubmitsSameName | frontend/src/components/RenameDialog.tsx:38-41 | for any current name that is not blank, typing it with a trailing space passes the unchanged-name guard and sends the trimmed name, so an unchanged name is sent again; for a blank name the submit stays blocked |
| UploadZone.Step | frontend/src/components/UploadZone.tsx:10-42 | drag-over changes nothing; a drop resets the zone and hands over its files exactly when there are some; the highlight stays in step with the counter |
| UploadZone.Run | frontend/src/components/UploadZone.tsx:10-42 | a run of events keeps the highlight in step with the counter and hands over at most one batch per event |
| UploadZone.RunFromIdle | frontend/src/components/UploadZone.tsx:10-42 | from rest, the counter is the enters minus leaves since the last drop, the zone is highlighted exactly when it is positive, and the batches handed over are the non-empty drops in order |
| UploadZone.OverIsInert | frontend/src/components/UploadZone.tsx:28-31 | a drag-over event never changes anything |
| UploadZone.DropResets | frontend/src/components/UploadZone.tsx:33-37 | after any drop the zone is back at rest |
| UploadManager.Enqueue | frontend/src/components/UploadManager.tsx:32-37 | new files are appended after the existing items as pending, at progress 0, in the given order |
| UploadManager.PatchAt | frontend/src/components/UploadManager.tsx:66-82 | an update by index changes only that index, and nothing when the index no longer exists |
| UploadManager.Clear | frontend/src/components/UploadManager.tsx:127 | clearing empties the list but keeps the processed and completed index sets |
| UploadManager.Scan | frontend/src/components/UploadManager.tsx:55-63 | the scan picks the lowest pending index that is neither processing nor completed, and picks nothing exactly when there is none |
| UploadManager.QuietAwait | frontend/src/components/UploadManager.tsx:68-75 | with no enqueue or clear during an upload, progress reports leave every other item alone and keep that item's status |
| UploadManager.QuietAttempt | frontend/src/components/UploadManager.tsx:66-86 | with no enqueue or clear meanwhile, an attempt leaves other items alone and settles its own as completed at 100 or as failed |
| UploadManager.RunAttempt | frontend/src/components/UploadManager.tsx:66-86 | whatever happens during the await, if the item's index still exists afterwards it is settled: completed at 100 or failed with 'Failed' |
| UploadManager.SettleShrinks | frontend/src/components/UploadManager.tsx:78-83 | settling an index removes exactly it from the indices still to upload |
| UploadManager.Iterate | frontend/src/components/UploadManager.tsx:52-89 | one round of the outer loop keeps the pass invariant and uploads one more eligible index, or stops when none is left |
| UploadManager.DrainPass | frontend/src/components/UploadManager.tsx:48-97 | a pass uploads every eligible index once, lowest first, one at a time, into the current folder; every one is remembered as completed; the refresh fires once, exactly when an upload succeeded or one was owed; without interference the list shows each outcome |
| UploadManager.OnUploadsChanged | frontend/src/components/UploadManager.tsx:48-102 | a pass starts exactly when some item is pending; it uploads every eligible item once, lowest index first, into the store's current folder, and remembers them as completed; the store's refresh counter goes up by one exactly when a refresh is owed, and nothing else in the store changes |
| UploadManager.PassTraceShape | frontend/src/components/UploadManager.tsx:65-87 | each request is started and then settled before the next one starts |
| UploadManager.OneInFlight | frontend/src/components/UploadManager.tsx:87 | at every point of an alternating trace, at most one upload is in flight |
| UploadManager.PassTraceAlternates | frontend/src/components/UploadManager.tsx:87 | a pass's start and settle events strictly alternate |
| UploadManager.ReusedIndexSkipped | frontend/src/components/UploadManager.tsx:43-59 | after the list is cleared, a new file landing on an index completed earlier stays pending and is never uploaded, because the completed set is not reset |
| VersionHistory.SortDescending | frontend/src/components/VersionHistoryPanel.tsx:64-65 | the sorted list is a permutation of the versions, in descending version number |
| VersionHistory.FetchVersions | frontend/src/components/VersionHistoryPanel.tsx:59-72 | a successful fetch shows the versions newest first; a failed one keeps the list and shows an error; either way loading ends; without a file nothing happens |
| VersionHistory.ControlsFor | frontend/src/components/VersionHistoryPanel.tsx:231-253 | every version can be downloaded; restore and delete appear exactly for non-current versions (line 128-130); delete is disabled exactly when at most one version is listed |
| VersionHistory.HandleDelete | frontend/src/components/VersionHistoryPanel.tsx:96-120 | with at most one listed version nothing is sent and an error is shown; otherwise the delete is sent, and success refetches while failure shows an error |
| VersionHistory.HandleRestore | frontend/src/components/VersionHistoryPanel.tsx:79-94 | the restore is sent for that version; the updated file is passed on exactly when it succeeded, then the list is refetched; failure shows an error |
| VersionHistory.RestoreShowsRefetched | frontend/src/components/VersionHistoryPanel.tsx:79-94 | an accepted restore hands the updated file on; when the listing then loads, the panel shows exactly the listed versions, newest first, and when it fails the old list stays with the load error |
| VersionHistory.RejectedRestoreKeepsList | frontend/src/components/VersionHistoryPanel.tsx:90-93 | a refused restore leaves the list as it was, hands nothing on and shows an error |
| VersionHistory.LastVersionProtected | frontend/src/components/VersionHistoryPanel.tsx:99-106 | with one listed version the delete control is hidden or disabled (line 247), and a delete sends no request |
| VersionHistory.FormatSize | frontend/src/components/VersionHistoryPanel.tsx:122-123 | sizes below 1024 render as the number followed by " B", which reads back as that number |
| FolderTree.UpdateNodes | frontend/src/components/FolderTree.tsx:140-150 | an update by folder id keeps every node's folder and the shape of the list |
| FolderTree.UpdateMissing | frontend/src/components/FolderTree.tsx:140-150 | updating an id that is nowhere in the tree changes nothing |
| FolderTree.ToggleTwice | frontend/src/components/FolderTree.tsx:152-157 | toggling the same folder twice restores the tree |
| FolderTree.UpdateAt | frontend/src/components/FolderTree.tsx:140-150 | along a path with no earlier match, the update reaches the node at the end of the path, or keeps its fields when it has another id |
| FolderTree.Click | frontend/src/components/FolderTree.tsx:39-45 | clicking a node keeps every top-level folder in place, and changes nothing when the node is not in the tree; LoadCycleSucceeds and CollapseKeepsChildren state its effect on the node |
| FolderTree.SettleLoad | frontend/src/components/FolderTree.tsx:159-187 | settling a child listing keeps every top-level folder in place, and changes nothing when the folder is no longer in the tree; LoadCycleSucceeds and LoadCycleFails state its effect on the node |
| FolderTree.ClickMarks | frontend/src/components/FolderTree.tsx:39-45 | clicking a collapsed node with no cached children marks it loading and expands it before any listing settles |
| FolderTree.SettleAt | frontend/src/components/FolderTree.tsx:159-187 | a settled listing reaches its node: success installs the listed folders as fresh children, expanded and idle, and failure only clears the spinner |
| FolderTree.Reload | frontend/src/components/FolderTree.tsx:114-138 | a root load ends with the spinner down; success replaces the roots by fresh nodes of the listed folders, and failure keeps the old roots |
| FolderTree.Rows | frontend/src/components/FolderTree.tsx:87-103 | the forest renders at least one row per top-level node; RowsCover, RowsSplit and CollapsedNodeOneRow say which rows and where |
| FolderTree.BeginRootLoad | frontend/src/components/FolderTree.tsx:115-119 | a root load shows the spinner only on the first load |
| FolderTree.FinishRootLoad | frontend/src/components/FolderTree.tsx:121-135 | when the root load settles the spinner goes; success replaces the roots by collapsed, childless nodes of the listed folders; failure keeps the roots |
| FolderTree.SpinnerOnlyOnce | frontend/src/components/FolderTree.tsx:112-134 | after the first load, a refresh never shows the spinner |
| FolderTree.RefreshDiscardsExpansion | frontend/src/components/FolderTree.tsx:114-138 | a refresh rebuilds the roots from the listing, collapsed and without children, dropping whatever was expanded |
| FolderTree.LoadCycleSucceeds | frontend/src/components/FolderTree.tsx:159-179 | expanding an unloaded folder whose listing succeeds leaves it expanded, not loading, with the listed folders as children |
| FolderTree.LoadCycleFails | frontend/src/components/FolderTree.tsx:180-185 | when the listing fails, the folder still ends expanded, as the toggle set it, not loading, and without children |
| FolderTree.CollapseKeepsChildren | frontend/src/components/FolderTree.tsx:39-45 | a collapsed folder with children is not fetched again, and collapsing then expanding it restores the tree |
| FolderTree.RowsFlat | frontend/src/components/FolderTree.tsx:87-103 | with nothing expanded, the tree shows one row per root at the starting level |
| FolderTree.RowsLevels | frontend/src/components/FolderTree.tsx:87-103 | no row lies above the starting level, and the first row is the first node at that level |
| FolderTree.RowsCover | frontend/src/components/FolderTree.tsx:87-103 | every node of the forest gets its own row at the starting level |
| FolderTree.RowsConcat | frontend/src/components/FolderTree.tsx:87-103 | sibling forests render one after the other |
| FolderTree.RowsSplit | frontend/src/components/FolderTree.tsx:87-103 | depth first: a node's row comes after the rows of its earlier siblings, then come its children's rows one level deeper, when it is expanded and has children, then the later siblings |
| FolderTree.CollapsedNodeOneRow | frontend/src/components/FolderTree.tsx:87 | a node that is collapsed or has no children contributes exactly its own row |
| UploadPage.FlattenConcat | frontend/src/pages/Upload.tsx:40-47 | sibling folders are flattened one after another in listing order |
| UploadPage.Flatten | frontend/src/pages/Upload.tsx:35-54 | each listed folder contributes at least its own entry; FlattenSplit, FlattenLevels and TopLevelIsListing give the order and levels |
| UploadPage.BuildFolderList | frontend/src/pages/Upload.tsx:34-58 | a failed top-level listing gives an empty picker; otherwise every listed folder has an entry |
| UploadPage.FlattenSplit | frontend/src/pages/Upload.tsx:35-54 | the picker is in pre-order: each folder comes after its earlier siblings' entries and before its own descendants, which come before its later siblings |
| UploadPage.FailureOmitsOnlyDescendants | frontend/src/pages/Upload.tsx:50-53 | a failed listing under one folder drops only that folder's descendants; the folder and all siblings remain |
| UploadPage.FlattenLevels | frontend/src/pages/Upload.tsx:41-45 | no entry lies above the starting level, the first is at it, and each entry is at most one level deeper than the previous one |
| UploadPage.TopLevelIsListing | frontend/src/pages/Upload.tsx:37-42 | the entries at the starting level are exactly the listed folders, in listing order |
| UploadPage.DisplayName | frontend/src/pages/Upload.tsx:112-115 | a name is indented by two spaces per level and carries the branch marker exactly below the top level |
| UploadPage.SelectRoundTrip | frontend/src/pages/Upload.tsx:128-130 | choosing the value the picker shows for a selection yields that selection again, the root included |
| UploadPage.ChooseDestination | frontend/src/pages/Upload.tsx:64-67 | a picked destination becomes both the page's selection and the store's current folder |
| UploadPage.Mount | frontend/src/pages/Upload.tsx:23-67 | opening the page starts at the root and points the store's current folder at the root as well, builds the picker from the top-level listing, and starts with the dialog closed and empty |
| UploadPage.StepKeepsMirrored | frontend/src/pages/Upload.tsx:65-67 | a pick, a folder creation or a refresh keeps the store's current folder equal to the picker's selection |
| UploadPage.MirroredFromMount | frontend/src/pages/Upload.tsx:65-67 | from mount on, whatever happens on the page, uploads go to the folder the picker shows |
| UploadPage.FilesChosen | frontend/src/pages/Upload.tsx:74-88 | dropped or browsed files are queued exactly when there is at least one |
| UploadPage.HandleCreateFolder | frontend/src/pages/Upload.tsx:94-110 | a blank name sends nothing; otherwise the trimmed name is sent under the chosen parent, and success closes and resets the dialog and rebuilds the picker |
| FileExplorer.WalkIsChain | frontend/src/pages/FileExplorer.tsx:55-71 | the breadcrumb loop puts the ancestors, nearest last, in front of the path it started with |
| FileExplorer.Walk | frontend/src/pages/FileExplorer.tsx:58-67 | the loop only puts crumbs in front: what it started with stays at the end; WalkIsChain says which crumbs come first |
| FileExplorer.BuildBreadcrumbPath | frontend/src/pages/FileExplorer.tsx:55-71 | the path starts at Home and ends at the folder itself |
| FileExplorer.ChainShape | frontend/src/pages/FileExplorer.tsx:58-67 | the ancestor chain links each folder to its parent's answer, and stops at a folder without parent or at the first failed request |
| FileExplorer.BreadcrumbPathShape | frontend/src/pages/FileExplorer.tsx:55-71 | the breadcrumb path is Home, then the ancestor chain, then the folder itself |
| FileExplorer.FetchContents | frontend/src/pages/FileExplorer.tsx:77-119 | loading always ends; the skeleton shows exactly on the first load or a folder change; fetching never touches the refresh counter or the selection |
| FileExplorer.FetchFailureKeepsState | frontend/src/pages/FileExplorer.tsx:105-115 | an unparsable or failing folder leaves store, files and folders as they were and shows an error |
| FileExplorer.RootHasHomeOnly | frontend/src/pages/FileExplorer.tsx:90-98 | without a folder parameter the page shows the root listing, with Home as the only crumb and no current folder |
| FileExplorer.FolderHasFullPath | frontend/src/pages/FileExplorer.tsx:99-104 | a folder page records the folder as current and shows Home, its ancestors and itself as crumbs |
| FileExplorer.RefreshWithoutSkeleton | frontend/src/pages/FileExplorer.tsx:79-86 | fetching the same folder again does not show the skeleton |
| FileExplorer.HandleAction | frontend/src/pages/FileExplorer.tsx:182-203 | every action closes the menu; an action that does not apply to the item only closes it; only a download of a file sends a download |
| FileExplorer.OfferedIffHandled | frontend/src/pages/FileExplorer.tsx:182-203 | the menu offers an action exactly when the handler acts on it for that item (FileContextMenu.tsx:37-95) |
| FileExplorer.HandleCreateFolder | frontend/src/pages/FileExplorer.tsx:240-261 | a blank name sends nothing; otherwise the trimmed name is sent under the current folder, and success refreshes, closes and clears the dialog while failure keeps it |
| FileExplorer.HandleConfirmDelete | frontend/src/pages/FileExplorer.tsx:205-232 | without an item nothing happens; otherwise a file delete or a folder delete with the recursive choice is sent, success refreshes, and either way the dialog closes and resets |
| FileExplorer.HandleRename | frontend/src/pages/FileExplorer.tsx:263-289 | a file rename sends the new name and succeeds with the request; a folder rename sends nothing yet reports success and refreshes |
| FileExplorer.RenameThroughDialog | frontend/src/pages/FileExplorer.tsx:263-289 | through the rename dialog, the trimmed name is handed over; a folder rename sends nothing yet always closes the dialog and refreshes once, and a file rename sends the request and closes the dialog and refreshes exactly when it succeeded |
| Text.Trim | frontend/src/components/RenameDialog.tsx:38-41 | `trim()` returns the middle of the string between a white-space prefix and a white-space suffix, and the result neither starts nor ends with white space |
| Text.TrimEmptyIffAllSpace | frontend/src/components/RenameDialog.tsx:38 | the trimmed name is empty exactly when the name is all white space |
| Text.TrimIdempotent | frontend/src/pages/Upload.tsx:95-98 | trimming twice is trimming once |
| Text.Repeat | frontend/src/pages/Upload.tsx:113 | repeating a string n times gives n times its length, with the string's characters in order, over and over |
| Text.IntToStringRoundTrip | frontend/src/pages/Upload.tsx:128-130 | `Number` reads back what `String` rendered for an integer |
| Text.IntToString | frontend/src/pages/Upload.tsx:128 | an integer renders as decimal digits, led by a minus sign exactly when it is negative |
| Text.ParseInt | frontend/src/pages/Upload.tsx:130 | `Number` accepts only an optionally negated run of decimal digits, and a negative result needs the minus sign |
| Text.ParseIntPrefix | frontend/src/pages/FileExplorer.tsx:90 | `parseInt` yields a number only when the text holds a digit, and text starting with a digit reads as a non-negative number |
| Text.ParseIntPrefixRendered | frontend/src/pages/FileExplorer.tsx:90 | `parseInt` reads back what a template literal rendered for an integer |
| Text.IntToStringInjective | frontend/src/components/FileList.tsx:24-25 | distinct integers render as distinct strings |
| Text.ByteLabelRoundTrip | frontend/src/components/FileList.tsx:70 | the byte label is the number followed by " B" and reads back as that number |

## Left out

- Search. `search_files` and the search bar are not modelled; `RootFiles` takes the search answer as its input.
- `delete_file`, `update_file_metadata`, the download endpoints, `share_file`, `list_versions` and the history listing. They are outside this core. Their requests appear only as request values the frontend sends.
- Authentication, user records and the statistics endpoint. They do not affect the modelled behaviour.
- Storage I/O.
  - The object store is a boolean input: whether the upload was accepted.
  - Deletions from the store are not modelled, since the code ignores their failures.
  - `BUCKET_NAME` is the default `dms-files`; the environment override is not modelled.
- The clock, UUIDs and SHA-1. `now` is one time stamp per request. The UUID is a string input. SHA-1 is an arbitrary function parameter, so the 40-hex-digit length of a digest is not modelled.
- BackendFiles.UploadFile: an upload without a content type is not modelled. There `mime.startswith` raises and the server answers 500. The model takes the content type as a string.
- `calculate_sha1` is always called with `len(content)` as its size. The model takes the size from the content.
- FileList.SizeLabel: sizes of 1024 bytes and more get no label in the model, because the KB and MB branches format floating-point numbers with `toFixed(1)`.
- VersionHistory.FormatSize: the same, for sizes of 1024 bytes and more.
- `parseInt` and `Number`: only decimal integers are modelled.
- Text.ParseIntPrefix: `parseInt` is modelled as leading white space, an optional sign and the longest run of decimal digits, ignoring what follows; text without such digits reads as not a number. So "3.5" reads as 3 and "1e3" as 1, as in JavaScript. The `0x` prefix is not modelled: the model reads "0x1A" as 0, where `parseInt` without a radix reads hexadecimal 26. Through Breadcrumbs.UrlFolder, the URL `/files/0x1A` therefore opens the root in the model and folder 26 in the program.
- Text.ParseInt: `Number` is modelled as an optional minus sign followed by decimal digits. It gives no number for "+5", the empty string, text with surrounding white space, fractions, exponents or hexadecimal, where `Number` gives a number (5 and 0 for the first two). Only values the folder picker renders reach it (frontend/src/pages/Upload.tsx:127-129): the decimal rendering of an id, or the empty value, which is handled before the call.
- Sort stability. `SortDescending` and the version-number ordering are stated as permutations in order, not as a particular stable arrangement of equal numbers.
- Concurrency.
  - React's batching and re-render timing are not modelled.
  - Two upload passes interleaving is not modelled: one pass runs at a time, over a snapshot.
  - Events during an `await` are an explicit input list.
  - The explorer's breadcrumb walk uses a rank function that bounds the parent chain; a cyclic server answer is outside the model.
- Presentation: styles, icons, translations of messages, snackbar timing, dialogs' open and close animations.
- Timeouts and request cancellation. Every request either resolves or rejects.
- The backend tables' storage order. Rows are kept in insertion order. The `file_tags` association keeps a file's tags in attachment order.
- `Backend.WellFormed` is an assumption about the tables, namely unique ids, owned versions and parents older than their children. Every modelled handler is proved to preserve it. `BackendFolders.DeleteFolder` requires the parent ordering so that its recursion terminates, as `delete_folder_contents` does on any real hierarchy.
- FolderTree.LoadCycleFails: on a failed listing the folder stays expanded with no children. This follows the code, where the toggle runs right after the load starts; it does not follow the reading that the folder stays collapsed.
- BackendFiles.VersionNumberReused: version numbers are modelled as written, one past the count of versions. The lemma shows that this can number two versions of one file the same.
