/** The rename dialog (frontend/src/components/RenameDialog.tsx): the name
  it starts from, when submitting does anything, and when it closes.
 */
module RenameDialog {
  import opened Common
  import opened Api
  import Text

  /** The text field and the in-flight flag. */
  datatype Dialog = Dialog(newName: string, loading: bool)

  const Closed := Dialog("", false)

  /** `currentName`: the file name of a file, the name of a folder, '' with
      no item. */
  function CurrentName(item: Option<Item>): (name: string)
    ensures item.None? ==> name == ""
    ensures item.Some? ==> name == ItemName(item.value)
  {
    match item
    case None => ""
    case Some(FileItem(f)) => f.filename
    case Some(FolderItem(d)) => d.name
  }

  /** The effect on `open`/`item`: an open dialog with an item starts from
      the item's current name; otherwise the field keeps its text. */
  function Opened(d: Dialog, open: bool, item: Option<Item>): (r: Dialog)
    ensures open && item.Some? ==> r.newName == CurrentName(item) && r.loading == d.loading
    ensures !(open && item.Some?) ==> r == d
  {
    if open && item.Some? then d.(newName := CurrentName(item)) else d
  }

  /** The guard shared by `handleSubmit` and the Enter key: something other
      than white space was typed, and the text differs from the current
      name as typed (not after trimming). */
  predicate Submittable(d: Dialog, current: string) {
    !Text.AllSpace(d.newName) && d.newName != current
  }

  /** The Rename button's `disabled`. */
  predicate Disabled(d: Dialog, current: string) {
    d.loading || Text.Trim(d.newName) == [] || d.newName == current
  }

  /** The button is enabled exactly when nothing is in flight and the guard
      lets a submit through. */
  lemma EnabledIffSubmittable(d: Dialog, current: string)
    ensures !Disabled(d, current) <==> !d.loading && Submittable(d, current)
  {
    Text.TrimEmptyIffAllSpace(d.newName);
  }

  /** What a submit did: the name handed to `onRename` (if it was called)
      and whether `onClose` was called. */
  datatype Submitted = Submitted(dialog: Dialog, renamedTo: Option<string>, closed: bool)

  /** `handleSubmit`, with `resolved` the outcome of `onRename`: a blocked
      submit does nothing; otherwise the trimmed name is handed over, the
      dialog closes only when that resolved, and loading ends either way. */
  function Submit(d: Dialog, current: string, resolved: bool): (r: Submitted)
    ensures !Submittable(d, current) ==> r == Submitted(d, None, false)
    ensures Submittable(d, current) ==>
              && r.renamedTo == Some(Text.Trim(d.newName))
              && r.renamedTo.value != []
              && (r.closed <==> resolved)
              && r.dialog == d.(loading := false)
  {
    if !Submittable(d, current) then Submitted(d, None, false)
    else
      Text.TrimEmptyIffAllSpace(d.newName);
      Submitted(d.(loading := false), Some(Text.Trim(d.newName)), resolved)
  }

  /** Opening on an item and submitting straight away renames nothing. */
  lemma UnchangedNameIsNoop(d: Dialog, item: Item, resolved: bool)
    ensures var d' := Opened(d, true, Some(item));
            Submit(d', CurrentName(Some(item)), resolved).renamedTo.None?
  {
  }

  /** The guard compares the untrimmed text, so a trailing space added to
      any current name that is not blank still calls `onRename`, with the
      trimmed name; a blank name stays blocked. */
  lemma TrailingSpaceResubmitsSameName(name: string, resolved: bool)
    ensures !Text.AllSpace(name) ==>
              Submit(Dialog(name + " ", false), name, resolved).renamedTo == Some(Text.Trim(name))
    ensures Text.AllSpace(name) ==>
              Submit(Dialog(name + " ", false), name, resolved).renamedTo.None?
  {
    var typed := name + " ";
    if Text.AllSpace(name) {
      assert Text.AllSpace(typed) by {
        forall i | 0 <= i < |typed| ensures Text.IsSpace(typed[i]) {
          if i < |name| { assert typed[i] == name[i]; }
        }
      }
    } else {
      var j :| 0 <= j < |name| && !Text.IsSpace(name[j]);
      assert typed[j] == name[j];
      assert |typed| != |name|;
      Text.TrimTrailingSpace(name);
    }
  }
}
