/** Record shapes exchanged between the frontend and the REST backend
  (frontend/src/types/api.ts), plus the browser's file handle.
 */
module Api {
  import opened Common

  /** A browser `File`: only what the upload path reads from it. */
  datatype FileHandle = FileHandle(name: string, size: nat, mime: string)

  datatype Tag = Tag(id: int, name: string)

  datatype FolderModel = FolderModel(id: int, name: string, parentId: Option<int>)

  datatype FileVersion = FileVersion(
    id: int,
    versionNumber: int,
    sha1: Option<string>,
    size: int,
    contentType: string,
    uploadedAt: string)

  datatype FileModel = FileModel(
    id: int,
    filename: string,
    contentType: string,
    size: int,
    category: string,
    uploadedAt: string,
    folderId: Option<int>,
    tags: seq<Tag>,
    versionCount: int,
    currentVersion: Option<FileVersion>)

  datatype FolderContents = FolderContents(
    id: int,
    name: string,
    parentId: Option<int>,
    subFolders: seq<FolderModel>,
    files: seq<FileModel>)

  /** A row of the explorer: either a file or a folder. The source tells the
      two apart by the presence of a `filename` property, which only files
      carry; here that is the constructor. */
  datatype Item = FileItem(file: FileModel) | FolderItem(folder: FolderModel)

  /** `isFile(item)`, i.e. `'filename' in item`. */
  predicate IsFile(item: Item) {
    item.FileItem?
  }

  /** `getItemName(item)`: the file name for files, the folder name otherwise. */
  function ItemName(item: Item): (name: string)
    ensures IsFile(item) ==> name == item.file.filename
    ensures !IsFile(item) ==> name == item.folder.name
  {
    match item
    case FileItem(f) => f.filename
    case FolderItem(d) => d.name
  }

  function ItemId(item: Item): int {
    match item
    case FileItem(f) => f.id
    case FolderItem(d) => d.id
  }
}
