/** The shared explorer store (frontend/src/store/fileStore.ts): current
  folder, breadcrumb trail, selection, and the refresh counter whose every
  increment asks subscribed views to refetch.
 */
module FileStore {
  import opened Common
  import opened Api

  datatype Crumb = Crumb(id: Option<int>, name: string)

  /** The synthetic first breadcrumb. */
  const Home: Crumb := Crumb(None, "Home")

  datatype Store = Store(
    currentFolderId: Option<int>,
    currentFolder: Option<FolderModel>,
    breadcrumbs: seq<Crumb>,
    selectedItems: seq<Item>,
    refreshTrigger: nat)

  function Initial(): (s: Store)
    ensures s.currentFolderId == None && s.currentFolder == None
    ensures s.breadcrumbs == [Home] && s.selectedItems == []
    ensures s.refreshTrigger == 0
  {
    Store(None, None, [Home], [], 0)
  }

  /** `setCurrentFolder(id, folder?)`: an omitted folder stores null. */
  function SetCurrentFolder(s: Store, id: Option<int>, folder: Option<FolderModel>): (r: Store)
    ensures r.currentFolderId == id && r.currentFolder == folder
    ensures r.breadcrumbs == s.breadcrumbs && r.selectedItems == s.selectedItems
    ensures r.refreshTrigger == s.refreshTrigger
  {
    s.(currentFolderId := id, currentFolder := folder)
  }

  /** `setBreadcrumbs(crumbs)`: wholesale replacement of the trail. */
  function SetBreadcrumbs(s: Store, crumbs: seq<Crumb>): (r: Store)
    ensures r.breadcrumbs == crumbs
    ensures r.(breadcrumbs := s.breadcrumbs) == s
  {
    s.(breadcrumbs := crumbs)
  }

  function SetSelectedItems(s: Store, items: seq<Item>): (r: Store)
    ensures r.selectedItems == items
    ensures r.(selectedItems := s.selectedItems) == s
  {
    s.(selectedItems := items)
  }

  /** `triggerRefresh()`: bump the counter by one, nothing else. */
  function TriggerRefresh(s: Store): (r: Store)
    ensures r.refreshTrigger == s.refreshTrigger + 1
    ensures r.(refreshTrigger := s.refreshTrigger) == s
  {
    s.(refreshTrigger := s.refreshTrigger + 1)
  }

  /** Every setter the store exposes. */
  datatype Action =
    | SetCurrent(id: Option<int>, folder: Option<FolderModel>)
    | SetCrumbs(crumbs: seq<Crumb>)
    | SetSelected(items: seq<Item>)
    | Trigger

  function Apply(s: Store, a: Action): Store {
    match a
    case SetCurrent(id, f) => SetCurrentFolder(s, id, f)
    case SetCrumbs(c) => SetBreadcrumbs(s, c)
    case SetSelected(items) => SetSelectedItems(s, items)
    case Trigger => TriggerRefresh(s)
  }

  function Run(s: Store, actions: seq<Action>): Store
    decreases |actions|
  {
    if actions == [] then s else Run(Apply(s, actions[0]), actions[1..])
  }

  function Triggers(actions: seq<Action>): nat {
    if actions == [] then 0 else (if actions[0].Trigger? then 1 else 0) + Triggers(actions[1..])
  }

  /** Only `triggerRefresh` writes the counter: after any run of setters the
      counter has grown by exactly the number of triggers, so it never
      decreases. */
  lemma {:induction false} RefreshCountsTriggers(s: Store, actions: seq<Action>)
    ensures Run(s, actions).refreshTrigger == s.refreshTrigger + Triggers(actions)
    ensures Run(s, actions).refreshTrigger >= s.refreshTrigger
    decreases |actions|
  {
    if actions != [] {
      RefreshCountsTriggers(Apply(s, actions[0]), actions[1..]);
    }
  }
}
