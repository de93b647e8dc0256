/** `UIModel`: the screen state of the client and the steps that change it.
    Each step runs to its end before the next starts. Where a step fetches
    from the network, the listing it receives is a parameter: the source hands
    a whole `GOResult` where a plain list is expected (UIModel.kt lines 115,
    135, 154 and 183), and the model takes that result's `data`. */
module UI {
  import opened Pojo
  import opened ContentTree
  import opened ContentNodes
  import opened Hierarchy

  /** The names of the three download states, as the download service sends
      them. */
  const IdleName := "Idle"
  const LoadingName := "Loading"
  const ErrorName := "Error"

  /** A new arena with a hierarchy over no roots, as the screen starts. */
  method EmptyBrowser() returns (heap: ContentHeap, h: GitHierarchy)
    ensures fresh(heap) && fresh(h) && h.heap == heap && h.Valid()
    ensures heap.records == [] && heap.content == []
    ensures h.data == [] && h.flatStructure == []
  {
    heap := new ContentHeap();
    h := new GitHierarchy(heap, []);
  }

  /** Spinner on, then off: the row ends `Idle` and every other row keeps its
      spinner. */
  lemma SpinnerStops(before: map<nat, SearchStatus>, d: nat)
    ensures before[d := Loading][d := Idle] == before[d := Idle]
  {
  }

  /** Every row on screen is indented by its depth: its level counts the
      steps from the node up to the root of its repository listing. */
  lemma ShownLevels(m: UIModel, y: nat)
    requires m.Valid() && y in m.hierarchy.flatStructure
    ensures y < |m.heap.level| && m.heap.level[y] == Distance(m.heap.parent, y, -1)
  {
    var h := m.hierarchy;
    var top := Top(m.heap.parent, y, -1);
    OrderAncestry(m.heap.content, m.heap.parent, -1, h.data, y);
    var i :| 0 <= i < |h.data| && h.data[i] == top;
    assert m.heap.level[top] == 0;
  }

  class UIModel {
    /** Every content node the client has deserialised. */
    const heap: ContentHeap
    var hierarchy: GitHierarchy
    var userDataList: seq<UserData>
    var repoDataList: seq<RepositoryData>
    /** The rows on screen: the roots of a fresh listing, then the view after
        each expand or collapse. */
    var selectedRepoContentList: seq<nat>
    var currentUser: UserData
    var selectedRepo: RepositoryData
    var searchStatus: SearchStatus
    var repoLoaderStatus: SearchStatus
    var contentLoaderStatus: SearchStatus
    var dlStatus: SearchStatus
    /** Messages emitted for the user, oldest first. */
    var messages: seq<MessageObject>
    /** Each node's `loadingState`, the spinner of its row. A node without an
        entry shows `Idle`, the state every node is created with. */
    var spinners: map<nat, SearchStatus>

    /** The hierarchy lives in the client's arena, and its roots sit at level
        0, as freshly deserialised nodes do. Spinners belong to nodes already
        made, so a node made later starts without one, that is `Idle`. */
    ghost predicate Valid()
      reads this, heap, hierarchy
    {
      && hierarchy.heap == heap && hierarchy.Valid()
      && (forall i :: 0 <= i < |hierarchy.data| ==> hierarchy.data[i] < |heap.level| && heap.level[hierarchy.data[i]] == 0)
      && (forall k :: k in spinners ==> k < |heap.records|)
    }

    /** Every list empty, no account or repository, every status `Idle`, and
        a hierarchy over no roots. */
    constructor()
      ensures Valid() && fresh(heap) && fresh(hierarchy)
      ensures heap.records == [] && heap.content == []
      ensures hierarchy.data == [] && hierarchy.flatStructure == []
      ensures userDataList == [] && repoDataList == [] && selectedRepoContentList == []
      ensures currentUser == EmptyUser && selectedRepo == EmptyRepository
      ensures searchStatus == Idle && repoLoaderStatus == Idle && contentLoaderStatus == Idle && dlStatus == Idle
      ensures messages == [] && spinners == map[]
    {
      userDataList, repoDataList, selectedRepoContentList := [], [], [];
      currentUser, selectedRepo := EmptyUser, EmptyRepository;
      searchStatus, repoLoaderStatus, contentLoaderStatus, dlStatus := Idle, Idle, Idle, Idle;
      messages := [];
      spinners := map[];
      var h, g := EmptyBrowser();
      heap := h;
      hierarchy := g;
    }

    /** `clearUserSearchResults`. */
    method ClearUserSearchResults()
      modifies this`userDataList
      ensures userDataList == []
    {
      userDataList := [];
    }

    /** `searchUser(user)`: an empty query only clears the results; any other
        shows the accounts `found` for it and leaves the search idle. */
    method SearchUser(user: string, found: seq<UserData>)
      modifies this`userDataList, this`searchStatus
      ensures |user| == 0 ==> userDataList == [] && searchStatus == old(searchStatus)
      ensures |user| > 0 ==> userDataList == found && searchStatus == Idle
    {
      if |user| == 0 {
        userDataList := [];
        return;
      }
      searchStatus := Loading;
      userDataList := found;
      searchStatus := Idle;
    }

    /** `requestRepositories`: without an account nothing happens; otherwise
        the account's repositories `repos` are shown and the loader is idle. */
    method RequestRepositories(repos: seq<RepositoryData>)
      modifies this`repoDataList, this`repoLoaderStatus
      ensures UserIsEmpty(currentUser) ==> unchanged(this)
      ensures !UserIsEmpty(currentUser) ==> repoDataList == repos && repoLoaderStatus == Idle
    {
      if UserIsEmpty(currentUser) {
        return;
      }
      repoLoaderStatus := Loading;
      repoDataList := repos;
      repoLoaderStatus := Idle;
    }

    /** `selectUser(u)`: forgets the selected repository, makes `u` current,
        clears the search results and lists `u`'s repositories. */
    method SelectUser(u: UserData, repos: seq<RepositoryData>)
      modifies this
      ensures selectedRepo == EmptyRepository && currentUser == u && userDataList == []
      ensures UserIsEmpty(u) ==> repoDataList == old(repoDataList) && repoLoaderStatus == old(repoLoaderStatus)
      ensures !UserIsEmpty(u) ==> repoDataList == repos && repoLoaderStatus == Idle
      ensures hierarchy == old(hierarchy) && selectedRepoContentList == old(selectedRepoContentList)
      ensures searchStatus == old(searchStatus) && contentLoaderStatus == old(contentLoaderStatus)
      ensures dlStatus == old(dlStatus) && messages == old(messages) && spinners == old(spinners)
    {
      selectedRepo := EmptyRepository;
      currentUser := u;
      ClearUserSearchResults();
      RequestRepositories(repos);
    }

    /** `requestInitialRepositoryContent`: without an account or a repository
        nothing happens. Otherwise nodes are made for the top-level `listing`,
        a new hierarchy over them replaces the old one, its roots are shown and
        the loader is idle. The new roots are leaves, so the view is exactly
        the roots. */
    method RequestInitialRepositoryContent(listing: seq<ContentRecord>)
      requires Valid()
      modifies this`hierarchy, this`selectedRepoContentList, this`contentLoaderStatus, heap
      ensures Valid()
      ensures UserIsEmpty(currentUser) || RepositoryIsEmpty(selectedRepo) ==>
                unchanged(this) && unchanged(heap)
      ensures !UserIsEmpty(currentUser) && !RepositoryIsEmpty(selectedRepo) ==>
                && fresh(hierarchy)
                && hierarchy.data == IdRange(old(|heap.records|), |listing|)
                && heap.records == old(heap.records) + listing
                && hierarchy.flatStructure == hierarchy.data
                && selectedRepoContentList == hierarchy.data
                && (forall k :: k in hierarchy.data ==> k !in spinners)
                && contentLoaderStatus == Idle
      ensures currentUser == old(currentUser) && selectedRepo == old(selectedRepo)
      ensures userDataList == old(userDataList) && repoDataList == old(repoDataList)
      ensures searchStatus == old(searchStatus) && repoLoaderStatus == old(repoLoaderStatus)
      ensures dlStatus == old(dlStatus) && messages == old(messages) && spinners == old(spinners)
    {
      if UserIsEmpty(currentUser) {
        return;
      }
      if RepositoryIsEmpty(selectedRepo) {
        return;
      }
      contentLoaderStatus := Loading;
      hierarchy := FromListing(heap, listing);
      selectedRepoContentList := hierarchy.data;
      contentLoaderStatus := Idle;
    }

    /** `selectRepository(r)`: a repository with the name of the selected one
        changes nothing; any other becomes selected and its top-level
        `listing` is loaded. */
    method SelectRepository(r: RepositoryData, listing: seq<ContentRecord>)
      requires Valid()
      modifies this`selectedRepo, this`hierarchy, this`selectedRepoContentList, this`contentLoaderStatus, heap
      ensures Valid()
      ensures r.name == old(selectedRepo.name) ==> unchanged(this) && unchanged(heap)
      ensures r.name != old(selectedRepo.name) ==>
                && selectedRepo == r
                && (UserIsEmpty(currentUser) || RepositoryIsEmpty(r) ==>
                      && hierarchy == old(hierarchy) && unchanged(heap)
                      && selectedRepoContentList == old(selectedRepoContentList)
                      && contentLoaderStatus == old(contentLoaderStatus))
                && (!UserIsEmpty(currentUser) && !RepositoryIsEmpty(r) ==>
                      && fresh(hierarchy)
                      && hierarchy.data == IdRange(old(|heap.records|), |listing|)
                      && heap.records == old(heap.records) + listing
                      && hierarchy.flatStructure == hierarchy.data
                      && selectedRepoContentList == hierarchy.data
                      && (forall k :: k in hierarchy.data ==> k !in spinners)
                      && contentLoaderStatus == Idle)
      ensures currentUser == old(currentUser)
      ensures userDataList == old(userDataList) && repoDataList == old(repoDataList)
      ensures searchStatus == old(searchStatus) && repoLoaderStatus == old(repoLoaderStatus)
      ensures dlStatus == old(dlStatus) && messages == old(messages) && spinners == old(spinners)
    {
      if selectedRepo.name != r.name {
        selectedRepo := r;
        RequestInitialRepositoryContent(listing);
      }
    }

    /** `expandContent(d)` for the node `d` of a row. Without an account or a
        repository nothing happens. When the node `d` resolves to shows
        children, they are collapsed and the new view is shown; otherwise the
        children `listing` are fetched and added. */
    method ExpandContent(d: nat, listing: seq<ContentRecord>)
      requires Valid() && d < |heap.records|
      modifies this`selectedRepoContentList, this`spinners, heap, hierarchy
      ensures Valid() && hierarchy == old(hierarchy)
      ensures UserIsEmpty(currentUser) || RepositoryIsEmpty(selectedRepo) ==>
                unchanged(this) && unchanged(heap) && unchanged(hierarchy)
      ensures !UserIsEmpty(currentUser) && !RepositoryIsEmpty(selectedRepo) && old(hierarchy.HasContent(d)) ==>
                var x := old(hierarchy.Find(d)).value;
                && selectedRepoContentList == hierarchy.flatStructure
                && heap.records == old(heap.records)
                && heap.content == old(heap.content)[x := []]
                && Spliced(old(hierarchy.flatStructure), selectedRepoContentList, x, old(Order(heap.content, x, heap.content[x])), [])
                && spinners == old(spinners)
                && hierarchy.Find(d) == old(hierarchy.Find(d))
                && !hierarchy.HasContent(d)
      ensures !UserIsEmpty(currentUser) && !RepositoryIsEmpty(selectedRepo) && !old(hierarchy.HasContent(d)) ==>
                && (old(hierarchy.Find(d)).None? ==> selectedRepoContentList == [] && unchanged(heap) && unchanged(hierarchy))
                && (old(hierarchy.Find(d)).Some? ==>
                      var x := old(hierarchy.Find(d)).value;
                      var made := IdRange(old(|heap.records|), |listing|);
                      && selectedRepoContentList == hierarchy.flatStructure
                      && heap.records == old(heap.records) + listing
                      && heap.content == (old(heap.content) + NoChildren(|listing|))[x := made]
                      && Spliced(old(hierarchy.flatStructure), selectedRepoContentList, x, [], made)
                      && (forall k :: k in made ==> k !in spinners))
                && spinners == old(spinners)[d := Idle]
      ensures currentUser == old(currentUser) && selectedRepo == old(selectedRepo)
      ensures userDataList == old(userDataList) && repoDataList == old(repoDataList)
      ensures searchStatus == old(searchStatus) && repoLoaderStatus == old(repoLoaderStatus)
      ensures contentLoaderStatus == old(contentLoaderStatus)
      ensures dlStatus == old(dlStatus) && messages == old(messages)
    {
      if UserIsEmpty(currentUser) {
        return;
      }
      if RepositoryIsEmpty(selectedRepo) {
        return;
      }
      ToggleRow(d, listing);
    }

    /** `expandContent` past its guards: a row whose node shows children is
        collapsed, any other has its children fetched and added. */
    method ToggleRow(d: nat, listing: seq<ContentRecord>)
      requires Valid() && d < |heap.records|
      modifies this`selectedRepoContentList, this`spinners, heap, hierarchy
      ensures Valid() && hierarchy == old(hierarchy)
      ensures old(hierarchy.HasContent(d)) ==>
                var x := old(hierarchy.Find(d)).value;
                && selectedRepoContentList == hierarchy.flatStructure
                && heap.records == old(heap.records)
                && heap.content == old(heap.content)[x := []]
                && Spliced(old(hierarchy.flatStructure), selectedRepoContentList, x, old(Order(heap.content, x, heap.content[x])), [])
                && spinners == old(spinners)
                && hierarchy.Find(d) == old(hierarchy.Find(d))
                && !hierarchy.HasContent(d)
      ensures !old(hierarchy.HasContent(d)) ==>
                && (old(hierarchy.Find(d)).None? ==> selectedRepoContentList == [] && unchanged(heap) && unchanged(hierarchy))
                && (old(hierarchy.Find(d)).Some? ==>
                      var x := old(hierarchy.Find(d)).value;
                      var made := IdRange(old(|heap.records|), |listing|);
                      && selectedRepoContentList == hierarchy.flatStructure
                      && heap.records == old(heap.records) + listing
                      && heap.content == (old(heap.content) + NoChildren(|listing|))[x := made]
                      && Spliced(old(hierarchy.flatStructure), selectedRepoContentList, x, [], made)
                      && (forall k :: k in made ==> k !in spinners))
                && spinners == old(spinners)[d := Idle]
    {
      if hierarchy.HasContent(d) {
        CollapseRow(d);
      } else {
        FetchLeaf(d, listing);
      }
    }

    /** The fetching branch of `expandContent` as it is reached: `d` shows no
        children, so the node it resolves to is a leaf and gains the fetched
        `listing` as its children. */
    method FetchLeaf(d: nat, listing: seq<ContentRecord>)
      requires Valid() && d < |heap.records| && !hierarchy.HasContent(d)
      modifies this`selectedRepoContentList, this`spinners, heap, hierarchy
      ensures Valid()
      ensures old(hierarchy.Find(d)).None? ==> selectedRepoContentList == [] && unchanged(heap) && unchanged(hierarchy)
      ensures old(hierarchy.Find(d)).Some? ==>
                var x := old(hierarchy.Find(d)).value;
                var made := IdRange(old(|heap.records|), |listing|);
                && selectedRepoContentList == hierarchy.flatStructure
                && heap.records == old(heap.records) + listing
                && heap.content == (old(heap.content) + NoChildren(|listing|))[x := made]
                && Spliced(old(hierarchy.flatStructure), selectedRepoContentList, x, [], made)
                && (forall k :: k in made ==> k !in spinners)
      ensures spinners == old(spinners)[d := Idle]
    {
      var found := hierarchy.Find(d);
      if found.Some? {
        ShownChildren(heap.content, heap.parent, hierarchy.data, found.value);
      }
      FetchRow(d, listing);
    }

    /** The collapsing branch of `expandContent`: no fetch, and the spinner of
        `d` is left alone. */
    method CollapseRow(d: nat)
      requires Valid() && d < |heap.records| && hierarchy.HasContent(d)
      modifies this`selectedRepoContentList, heap, hierarchy
      ensures Valid()
      ensures selectedRepoContentList == hierarchy.flatStructure
      ensures heap.records == old(heap.records)
      ensures hierarchy.Find(d) == old(hierarchy.Find(d)) && !hierarchy.HasContent(d)
      ensures var x := old(hierarchy.Find(d)).value;
              && heap.content == old(heap.content)[x := []]
              && Spliced(old(hierarchy.flatStructure), selectedRepoContentList, x, old(Order(heap.content, x, heap.content[x])), [])
    {
      var flat := hierarchy.RemoveContentForNode(d);
      selectedRepoContentList := flat;
    }

    /** The fetching branch of `expandContent`: the spinner of `d` runs while
        its children `listing` are fetched, `addNestedContent` toggles the node
        `d` resolves to and its result is shown (the empty list when `d`
        resolves to no node), then the spinner stops. */
    method FetchRow(d: nat, listing: seq<ContentRecord>)
      requires Valid() && d < |heap.records|
      modifies this`selectedRepoContentList, this`spinners, heap, hierarchy
      ensures Valid()
      ensures old(hierarchy.Find(d)).None? ==> selectedRepoContentList == [] && unchanged(heap) && unchanged(hierarchy)
      ensures old(hierarchy.Find(d)).Some? ==>
                var x := old(hierarchy.Find(d)).value;
                && selectedRepoContentList == hierarchy.flatStructure
                && (old(heap.content[x]) == [] ==>
                      var made := IdRange(old(|heap.records|), |listing|);
                      && heap.records == old(heap.records) + listing
                      && heap.content == (old(heap.content) + NoChildren(|listing|))[x := made]
                      && Spliced(old(hierarchy.flatStructure), selectedRepoContentList, x, [], made)
                      && (forall k :: k in made ==> k !in spinners))
                && (old(heap.content[x]) != [] ==>
                      && heap.records == old(heap.records)
                      && heap.content == old(heap.content)[x := []]
                      && Spliced(old(hierarchy.flatStructure), selectedRepoContentList, x, old(Order(heap.content, x, heap.content[x])), []))
      ensures spinners == old(spinners)[d := Idle]
    {
      ghost var before := spinners;
      spinners := spinners[d := Loading];
      var flat := hierarchy.AddNestedContent(d, listing);
      selectedRepoContentList := flat;
      spinners := spinners[d := Idle];
      SpinnerStops(before, d);
    }

    /** The download status handler: `Idle` and `Loading` set the download
        status; `Error` emits `obj` as an error message and sets it to `Idle`;
        any other message changes nothing. */
    method OnServiceMessage(data: string, obj: string)
      modifies this`dlStatus, this`messages
      ensures data == IdleName ==> dlStatus == Idle && messages == old(messages)
      ensures data == LoadingName ==> dlStatus == Loading && messages == old(messages)
      ensures data == ErrorName ==> dlStatus == Idle && messages == old(messages) + [MessageObject(MessageType.Error, obj)]
      ensures data !in {IdleName, LoadingName, ErrorName} ==> dlStatus == old(dlStatus) && messages == old(messages)
    {
      if data == IdleName {
        dlStatus := Idle;
      } else if data == LoadingName {
        dlStatus := Loading;
      } else if data == ErrorName {
        messages := messages + [MessageObject(MessageType.Error, obj)];
        dlStatus := Idle;
      }
    }

    /** `showError`: `e` is emitted as an error message; nothing else
        changes. */
    method ShowError(e: string)
      modifies this`messages
      ensures messages == old(messages) + [MessageObject(MessageType.Error, e)]
    {
      messages := messages + [MessageObject(MessageType.Error, e)];
    }
  }
}
