# GitObserverClient core, modelled in Dafny

GitObserverClient is an Android client for browsing GitHub. A user searches
for an account, picks one of its repositories, and browses the repository's
files as an expandable tree. It can also download the repository as a zip
archive. This project models the logic behind that screen and proves
properties of it:

- **The tree browser (`GitHierarchy`).** Every `RepositoryContentData` node
  lives in one arena, the class `ContentNodes.ContentHeap`. A node reference
  is an index into it. The arena keeps each node's serialised record, its
  child list and its display `level`. `GitHierarchy` keeps:
  - its root list;
  - the flat pre-order view (`flatStructure`) the list on screen shows;
  - the index from `sha` to node (`fastAccessMap`), in which a later node
    wins.
- **What is proved about the tree.** `remap` and `flatStructured` rebuild
  the view and the levels. Expanding a leaf splices its new children into
  the view right after it. Collapsing a node cuts exactly its former
  descendants out of the view. The view never repeats a node. Every listed
  node's level is its root's level plus its depth below that root, so every
  row on screen is indented by its depth. `find` resolves a node to the last
  listed node with the same `sha`.
- **The repository layer (`Repo`).** Each remote outcome becomes a
  `GOResult`:
  - a 2xx body gives a success;
  - any other code gives the error `Code: <n>`;
  - an `HttpException` or any other throwable is caught;
  - `body()!!` on a missing body gives `General exception: null`.
- **Sorting a listing.** A directory listing is sorted by kind with a
  stable sort. Proved: the result is a permutation, it is sorted, and it is
  exactly the directories, then the files, then the rest, each group in
  listing order.
- **Helpers (`Utils`).**
  - The result constructors.
  - The click throttle.
  - The keyed cancel-and-replace job registry.
  - The archive file name. Proved: the time stamp can be read back from the
    name, whatever `_` the owner or repository names contain.
- **The interceptor (`AuthInterceptor`).** It adds `Authorization: Bearer
  <token>` unless the request opts out or the token is empty.
- **The screen state (`UIModel`).** The search, the repository list, the
  content list and its loaders, and the download status handler. Each
  node's `loadingState`, the spinner of its row, is kept by the screen
  model as a map from node to status. A node without an entry is `Idle`,
  the state every node is created with.

The Kotlin integer types (`Int`, `Long`) are modelled as unbounded `int`.
Every value the code handles (HTTP codes, clock readings, sizes) stays far
from their limits.

Behaviours of the code that the model keeps as written:

- **Fetch results.** `UIModel` assigns a whole `GOResult` where a list is
  expected (UIModel.kt lines 115, 135, 154 and 183). The model passes the
  listing the fetch delivered, that is, the result's `data`.
- **Failed fetches.** An error result is not shown as a message anywhere in
  `UIModel`. The model therefore has no error path there.
- **A row that no longer resolves.** When `expandContent` fetches for a
  node that `find` does not resolve, `addNestedContent` returns the empty
  list (GitHierarchy.kt:24), and that empty list is what the screen shows
  (UIModel.kt:183-185). The whole content list goes blank.
- **Whose spinner runs.** The spinner is set on the row's own node
  (UIModel.kt:173 and 187), not on the node `find` resolves it to.

## Model

| member | source | states |
|---|---|---|
| Pojo.EmptyDefaults | app/src/main/java/io/iskopasi/githubobserverclient/pojo/UserData.kt:45-61 | the empty account, repository and entry are "empty"; an entry defaults to size -1, kind Unknown and no path; each `isEmpty` holds exactly when the identifying field is "" |
| Utils.AsOk | app/src/main/java/io/iskopasi/githubobserverclient/utils/Utils.kt:64 | a success carries the value, status OK and no error text |
| Utils.AsError | app/src/main/java/io/iskopasi/githubobserverclient/utils/Utils.kt:66 | an error has status Error, no data and the given text |
| Utils.ResultsTagged | app/src/main/java/io/iskopasi/githubobserverclient/pojo/GOResult.kt:9-19 | both constructors give well-tagged results, each gives back what it carries, and a success never equals an error |
| Utils.Throttle | app/src/main/java/io/iskopasi/githubobserverclient/utils/Utils.kt:51-61 | a click goes through iff more than `delay` ms passed since the last accepted click; only then is the clock recorded |
| Utils.ClickThrottle.ClickDelay | app/src/main/java/io/iskopasi/githubobserverclient/utils/Utils.kt:52-61 | the outcome and the new `lastClickTime` are those of `Throttle` on the old record |
| Utils.ThrottleWindow | app/src/main/java/io/iskopasi/githubobserverclient/utils/Utils.kt:51-61 | after an accepted click, a click within `delay` of it is dropped and keeps the record; a later one goes through |
| Utils.JobRegistry.InvokeDelayed | app/src/main/java/io/iskopasi/githubobserverclient/utils/Utils.kt:35-48 | the job under the key, if any, is cancelled and replaced by a job never seen before; no other key changes; at most one live job per key, none of them cancelled |
| Utils.FileName | app/src/main/java/io/iskopasi/githubobserverclient/utils/Utils.kt:93 | the name is the owner, `_`, the repository name, `_`, then the clock text and the extension at the end, with the summed length |
| Utils.StampOfFileName | app/src/main/java/io/iskopasi/githubobserverclient/utils/Utils.kt:90-94 | the clock reading is recovered from the file name, whatever the owner and repository names hold |
| Decimal.NatText | app/src/main/java/io/iskopasi/githubobserverclient/repo/Repo.kt:88 | the decimal text of a number: digits only, no leading zero, one digit exactly below 10 |
| Decimal.IntText | app/src/main/java/io/iskopasi/githubobserverclient/repo/Repo.kt:88 | the text of an integer starts with `-` exactly when it is negative |
| Decimal.ReadIntText | app/src/main/java/io/iskopasi/githubobserverclient/repo/Repo.kt:88 | reading the text of an integer gives the integer back, so distinct codes give distinct `Code:` texts |
| Repo.Caught | app/src/main/java/io/iskopasi/githubobserverclient/repo/Repo.kt:20-26 | an `HttpException` becomes `Network exception: <message>` and any other throwable `General exception: <message>`, with `null` for a missing message |
| Repo.ToGOResult | app/src/main/java/io/iskopasi/githubobserverclient/repo/Repo.kt:84-89 | a 2xx body is a success, a missing 2xx body raises, any other code is the error `Code: <code>` |
| Repo.Fetch | app/src/main/java/io/iskopasi/githubobserverclient/repo/Repo.kt:17-39 | `searchUser` and `getRepositories`: always well tagged; each outcome of the call mapped as above |
| Repo.InsertByKind | app/src/main/java/io/iskopasi/githubobserverclient/repo/Repo.kt:49 | inserting adds exactly the one entry |
| Repo.SortByKindCorrect | app/src/main/java/io/iskopasi/githubobserverclient/repo/Repo.kt:49 | the sorted listing is a permutation, ordered by kind, and equals the directories, then the files, then the rest, each in listing order |
| Repo.SortKeepsKinds | app/src/main/java/io/iskopasi/githubobserverclient/repo/Repo.kt:49 | for each kind, the entries of that kind keep their order (the sort is stable) |
| Repo.GetRepositoryContent | app/src/main/java/io/iskopasi/githubobserverclient/repo/Repo.kt:41-61 | a 2xx listing sorted by kind as a success, `Code: <code>` otherwise, and caught faults; always well tagged |
| Repo.DownloadZip | app/src/main/java/io/iskopasi/githubobserverclient/repo/Repo.kt:63-81 | with a body and a successful copy, the new file's name; without a body, `General exception: failed to download: <repo>`; faults caught; always well tagged |
| Auth.HeaderValue | app/src/main/java/io/iskopasi/githubobserverclient/utils/AuthInterceptor.kt:12 | the value of the last field with the name, compared without case, or none exactly when no field has it |
| Auth.Forwarded | app/src/main/java/io/iskopasi/githubobserverclient/utils/AuthInterceptor.kt:12-18 | the forwarded request keeps every original field in order |
| Auth.AuthInterceptor.constructor | app/src/main/java/io/iskopasi/githubobserverclient/utils/AuthInterceptor.kt:7 | the token starts as `3205.team_token` |
| Auth.AuthInterceptor.Intercept | app/src/main/java/io/iskopasi/githubobserverclient/utils/AuthInterceptor.kt:9-21 | the chain proceeds with the request the current token makes: `Authorization` lookups find `Bearer <token>` unless the request opts out or the token is empty, in which case it goes on unchanged |
| Auth.InterceptAuthorizes | app/src/main/java/io/iskopasi/githubobserverclient/utils/AuthInterceptor.kt:12-17 | without opt-out and with a token, exactly one `Authorization: Bearer <token>` field is added; lookups find it, and other lookups are unaffected |
| Auth.InterceptPassesThrough | app/src/main/java/io/iskopasi/githubobserverclient/utils/AuthInterceptor.kt:12-17 | the request goes on unchanged iff it opts out or the token is empty |
| ContentNodes.ContentHeap.Alloc | app/src/main/java/io/iskopasi/githubobserverclient/pojo/UserData.kt:45-56 | deserialised entries become new nodes with no children, level 0 and fresh ids past every existing node; nothing else changes |
| ContentNodes.ContentHeap.Attach | app/src/main/java/io/iskopasi/githubobserverclient/utils/GitHierarchy.kt:29 | an empty child list receives the new nodes; the tree stays a tree |
| ContentNodes.ContentHeap.Clear | app/src/main/java/io/iskopasi/githubobserverclient/utils/GitHierarchy.kt:31 | a child list becomes empty and nothing else changes |
| ContentNodes.ContentHeap.FlatStructured | app/src/main/java/io/iskopasi/githubobserverclient/pojo/UserData.kt:63-75 | the node's descendants in pre-order; a direct child's level becomes `lvl` and each further nesting step adds one; no other level changes |
| ContentTree.OrderNoDup | app/src/main/java/io/iskopasi/githubobserverclient/pojo/UserData.kt:63-75 | in a tree, the pre-order listing never repeats a node |
| ContentTree.OrderAncestry | app/src/main/java/io/iskopasi/githubobserverclient/pojo/UserData.kt:63-75 | every node in the listing of some ids descends from one of those ids |
| ContentTree.OrderReplace | app/src/main/java/io/iskopasi/githubobserverclient/pojo/UserData.kt:63-75 | changing one node's child list changes the listing only in the block after that node |
| Hierarchy.AssociateDomain | app/src/main/java/io/iskopasi/githubobserverclient/utils/GitHierarchy.kt:39 | the index maps exactly the listed `sha`s, each to a listed node carrying it |
| Hierarchy.AssociateAppend | app/src/main/java/io/iskopasi/githubobserverclient/utils/GitHierarchy.kt:39 | indexing a list in two parts: entries of the later part win |
| Hierarchy.AssociateLast | app/src/main/java/io/iskopasi/githubobserverclient/utils/GitHierarchy.kt:39 | indexing a list that ends with a node maps that node's `sha` to it, whatever came before |
| Hierarchy.AssociateKeepsLast | app/src/main/java/io/iskopasi/githubobserverclient/utils/GitHierarchy.kt:39 | the node the index keeps for a `sha` is listed, and no node listed after it carries that `sha` |
| Hierarchy.LastWins | app/src/main/java/io/iskopasi/githubobserverclient/utils/GitHierarchy.kt:39 | a listed node that no later listed node shares its `sha` with is the one the index holds under that `sha` |
| Hierarchy.GitHierarchy.constructor | app/src/main/java/io/iskopasi/githubobserverclient/utils/GitHierarchy.kt:9-11 | `init` runs `remap`, so a new hierarchy is consistent; the roots keep their levels |
| Hierarchy.GitHierarchy.Remap | app/src/main/java/io/iskopasi/githubobserverclient/utils/GitHierarchy.kt:37-53 | the view is each root followed by its descendants in pre-order, never repeating a node; the index is rebuilt from it; levels follow depth below the roots; the roots and unlisted nodes keep their levels |
| Hierarchy.RootStep | app/src/main/java/io/iskopasi/githubobserverclient/utils/GitHierarchy.kt:47-50 | one root more: the view grows by the root and its subtree, and levels still follow depth |
| Hierarchy.GitHierarchy.Find | app/src/main/java/io/iskopasi/githubobserverclient/utils/GitHierarchy.kt:13-15 | resolves to a listed node with the same `sha` iff one is listed, and then to the last listed one: no node listed after it carries that `sha` |
| Hierarchy.GitHierarchy.HasContent | app/src/main/java/io/iskopasi/githubobserverclient/utils/GitHierarchy.kt:55-61 | true iff the node resolves and the view lists a child of the resolved node |
| Hierarchy.GitHierarchy.AddNestedContent | app/src/main/java/io/iskopasi/githubobserverclient/utils/GitHierarchy.kt:18-35 | an unresolved node changes nothing and gives `[]`; a leaf adopts new nodes, which appear right after it in the view; a node with children loses them, and exactly its former descendants leave the view; the roots keep their levels |
| Hierarchy.GitHierarchy.Expand | app/src/main/java/io/iskopasi/githubobserverclient/utils/GitHierarchy.kt:28-29 | the new nodes are spliced into the view right after the leaf; nothing else in the view moves; the roots keep their levels |
| Hierarchy.GitHierarchy.Collapse | app/src/main/java/io/iskopasi/githubobserverclient/utils/GitHierarchy.kt:30-31 | the node's former descendants are cut out of the view and no longer appear in it; nothing else moves; the roots keep their levels |
| Hierarchy.GitHierarchy.RemoveContentForNode | app/src/main/java/io/iskopasi/githubobserverclient/utils/GitHierarchy.kt:63-70 | as collapse; afterwards the node still resolves to the same node and has no content; an unresolved node changes nothing and gives `[]`; the roots keep their levels |
| Hierarchy.ExpandSplice | app/src/main/java/io/iskopasi/githubobserverclient/utils/GitHierarchy.kt:28-29 | giving a listed leaf new leaf children inserts exactly them right after it in the listing |
| Hierarchy.CollapseSplice | app/src/main/java/io/iskopasi/githubobserverclient/utils/GitHierarchy.kt:30-31 | emptying a listed node's children removes exactly its subtree listing right after it |
| Hierarchy.CollapseKeepsFind | app/src/main/java/io/iskopasi/githubobserverclient/utils/GitHierarchy.kt:63-69 | cutting out a block after the node `find` resolved to keeps `find` resolving to that node |
| Hierarchy.FromListing | app/src/main/java/io/iskopasi/githubobserverclient/models/UIModel.kt:154 | a hierarchy over a fresh listing: one new root per entry, at level 0, and the view is exactly the roots |
| UI.EmptyBrowser | app/src/main/java/io/iskopasi/githubobserverclient/models/UIModel.kt:41 | a new arena and a consistent hierarchy over no roots, with an empty view |
| UI.UIModel.constructor | app/src/main/java/io/iskopasi/githubobserverclient/models/UIModel.kt:41-50 | every list empty, no account or repository, every status and spinner Idle, an empty arena and a hierarchy over no roots |
| UI.ShownLevels | app/src/main/java/io/iskopasi/githubobserverclient/pojo/UserData.kt:63-75 | every row on screen has as its level the number of steps from its node up to its root |
| UI.UIModel.ClearUserSearchResults | app/src/main/java/io/iskopasi/githubobserverclient/models/UIModel.kt:121-123 | the search results are empty |
| UI.UIModel.SearchUser | app/src/main/java/io/iskopasi/githubobserverclient/models/UIModel.kt:102-119 | an empty query clears the results and leaves the status; any other shows the accounts found and ends Idle |
| UI.UIModel.RequestRepositories | app/src/main/java/io/iskopasi/githubobserverclient/models/UIModel.kt:125-139 | without an account nothing changes; otherwise the repositories are shown and the loader ends Idle |
| UI.UIModel.SelectUser | app/src/main/java/io/iskopasi/githubobserverclient/models/UIModel.kt:84-93 | forgets the repository, makes the account current, clears the search and lists its repositories; nothing else changes |
| UI.UIModel.RequestInitialRepositoryContent | app/src/main/java/io/iskopasi/githubobserverclient/models/UIModel.kt:141-159 | without an account or repository nothing changes; otherwise a new hierarchy over the fresh listing replaces the old one, its roots are shown with no spinner entry (so `Idle`, as new nodes start) and the loader ends Idle; every spinner belongs to a node already made |
| UI.UIModel.SelectRepository | app/src/main/java/io/iskopasi/githubobserverclient/models/UIModel.kt:95-100 | a repository with the selected name changes nothing; any other is selected; without an account or with an empty repository the hierarchy, view and loader stay; otherwise the fresh listing is appended to the arena and exactly its roots are shown, none with a spinner entry; the account, lists, statuses, messages and spinners never change |
| UI.UIModel.ExpandContent | app/src/main/java/io/iskopasi/githubobserverclient/models/UIModel.kt:161-188 | without an account or repository nothing changes; a node with content is collapsed: the resolved node's child list is emptied and exactly its former subtree is cut from the shown view, with no fetch and no spinner change; otherwise, when the row resolves, the fetched children become new nodes, without spinner entries, under the resolved leaf and are spliced into the shown view right after it; when it does not resolve, the shown list is empty and the arena and the hierarchy are unchanged; the row's spinner ends Idle with every other spinner as before |
| UI.UIModel.ToggleRow | app/src/main/java/io/iskopasi/githubobserverclient/models/UIModel.kt:165-187 | past the guards of `expandContent`: a row with content is collapsed (its resolved node's subtree cut from the shown view, no spinner change); any other has the fetched children added under its resolved leaf and spliced in after it, or shows the empty list with the arena and hierarchy unchanged when it does not resolve; its spinner then ends Idle |
| UI.UIModel.CollapseRow | app/src/main/java/io/iskopasi/githubobserverclient/models/UIModel.kt:166-170 | the resolved node's child list is emptied, exactly its former subtree is cut from the shown view, the node keeps resolving and has no content, and no node is added |
| UI.UIModel.FetchLeaf | app/src/main/java/io/iskopasi/githubobserverclient/models/UIModel.kt:172-187 | for a row without content: the resolved leaf adopts the fetched children as new nodes without a spinner entry, spliced into the shown view right after it; an unresolved row shows the empty list and leaves the arena and the hierarchy unchanged; the row's spinner ends Idle |
| UI.UIModel.FetchRow | app/src/main/java/io/iskopasi/githubobserverclient/models/UIModel.kt:172-187 | the result of `addNestedContent` is shown: a resolved leaf gains the fetched children, without spinner entries, right after it, a resolved node with children loses its subtree, an unresolved row shows the empty list and leaves the arena and the hierarchy unchanged; the row's spinner runs during the fetch and ends Idle, every other spinner as before |
| UI.UIModel.OnServiceMessage | app/src/main/java/io/iskopasi/githubobserverclient/models/UIModel.kt:64-81 | `Idle` and `Loading` set the download status; `Error` emits the message and sets Idle; anything else changes nothing |
| UI.UIModel.ShowError | app/src/main/java/io/iskopasi/githubobserverclient/models/UIModel.kt:218 | the text is appended to the messages as an error message, and nothing else changes |

## Left out

- Coroutines are not modelled. `bg`, `ui`, `viewModelScope`, dispatchers and
  the interleaving of concurrent steps are absent: each step runs to its end
  before the next starts. `bg`'s swallowing of exceptions is not modelled
  either.
- Network, clock and file system access are not modelled directly. Fetched
  listings, HTTP outcomes (`Call`), clock readings (`now`, `later`,
  `millis`) and the archive copy's failure are parameters. The Downloads
  directory, `FileOutputStream` and the archive bytes are left out.
- `scheduleNewTask`: the delay and the block a job runs are not modelled. A
  job is an id, and cancelling it records the id as cancelled.
- `openDownloadsFolder`, `openFile` and `startDownloadService` are left
  out. They start Android activities or services. The download
  service itself is left out except for the messages it sends back.
- Jetpack Compose `State` objects are plain fields. The UI that renders them
  is left out.
- Logging (`printStackTrace`, `String.e`) is left out.
- Retrofit, Gson and Hilt wiring is left out. Listings arrive already
  deserialised as `ContentRecord`s whose kind is one of `dir`, `file` and
  `unknown`. Gson turns any other kind string into `null`, and
  `sortedBy` (through `compareValues`) puts `null` kinds before the
  directories. The model has no `null` kind.
- Repo.Call: admits a response outside 2xx that still carries a body, which
  Retrofit never produces. `DownloadZip` would treat it as a success, as the
  code would.
- Auth.SameName: compares names with ASCII case folding only. Full Unicode
  case folding is left out.
- Auth.AuthInterceptor.Intercept: models the request handed to
  `chain.proceed`, not the response it returns.
- `Int` and `Long` widths are not modelled. The clock reading, HTTP codes
  and sizes are unbounded integers.
- Failed fetches in `UIModel` are left out. `UIModel` stores the fetch's
  `data`, and an error result's text is never shown.
- Loading states that are set and then reset within one step are not
  modelled in the contracts. `searchStatus`, `repoLoaderStatus` and
  `contentLoaderStatus` are stated only at the end of the step.
- Hierarchy.GitHierarchy.RemoveContentForNode: states that the former
  descendants are no longer in the view, not that `find` misses them. A
  node still listed elsewhere may share their `sha`.
- Nested children arrive as fresh node objects. This is how the deserialiser
  delivers them, so the model does not consider re-attaching existing nodes.
