/** `GitHierarchy`: the root list of a repository listing, the flat
    depth-annotated view the browser shows, and the `sha` index over that view. */
module Hierarchy {
  import opened Pojo
  import opened ContentTree
  import opened ContentNodes

  // ---------------------------------------------------------------------------
  // The `sha` index

  /** `flat.associate { it.sha to it }`: each listed node under its `sha`, a
      later node replacing an earlier one with the same `sha`. */
  function Associate(recs: seq<ContentRecord>, flat: seq<nat>): map<string, nat>
    decreases |flat|
  {
    if flat == [] then map[]
    else
      var x := flat[|flat| - 1];
      var m0 := Associate(recs, flat[..|flat| - 1]);
      if x < |recs| then m0[recs[x].sha := x] else m0
  }

  /** The index holds a node of the list under every `sha` the list shows,
      and nothing else. */
  lemma {:induction false} AssociateDomain(recs: seq<ContentRecord>, flat: seq<nat>)
    ensures var m := Associate(recs, flat);
            && (forall k :: k in m ==> m[k] in flat && m[k] < |recs| && recs[m[k]].sha == k)
            && (forall y :: y in flat && y < |recs| ==> recs[y].sha in m)
    decreases |flat|
  {
    if flat != [] {
      var x := flat[|flat| - 1];
      AssociateDomain(recs, flat[..|flat| - 1]);
      assert flat == flat[..|flat| - 1] + [x];
    }
  }

  /** A later node wins: the node the index keeps under a `sha` carries it,
      and no node after it in the list does. */
  lemma {:induction false} AssociateKeepsLast(recs: seq<ContentRecord>, flat: seq<nat>, key: string)
    requires key in Associate(recs, flat)
    ensures exists k :: 0 <= k < |flat| && flat[k] == Associate(recs, flat)[key]
                        && forall j :: k < j < |flat| && flat[j] < |recs| ==> recs[flat[j]].sha != key
    decreases |flat|
  {
    var pre := flat[..|flat| - 1];
    var x := flat[|flat| - 1];
    if !(x < |recs| && recs[x].sha == key) {
      AssociateKeepsLast(recs, pre, key);
      var k :| 0 <= k < |pre| && pre[k] == Associate(recs, pre)[key]
               && forall j :: k < j < |pre| && pre[j] < |recs| ==> recs[pre[j]].sha != key;
      assert flat[k] == pre[k];
      forall j | k < j < |flat| && flat[j] < |recs| ensures recs[flat[j]].sha != key {
        if j < |pre| {
          assert flat[j] == pre[j];
        }
      }
    } else {
      assert flat[|flat| - 1] == Associate(recs, flat)[key];
    }
  }

  lemma IndexBounds(s: seq<nat>, n: nat)
    requires forall y :: y in s ==> y < n
    ensures forall j :: 0 <= j < |s| ==> s[j] < n
  {
    forall j | 0 <= j < |s| ensures s[j] < n {
      assert s[j] in s;
    }
  }

  /** Conversely, the last node of the list carrying a `sha` is the one the
      index keeps under it. */
  lemma {:induction false} LastWins(recs: seq<ContentRecord>, flat: seq<nat>, i: nat)
    requires i < |flat| && flat[i] < |recs|
    requires forall j :: i < j < |flat| && flat[j] < |recs| ==> recs[flat[j]].sha != recs[flat[i]].sha
    ensures recs[flat[i]].sha in Associate(recs, flat)
    ensures Associate(recs, flat)[recs[flat[i]].sha] == flat[i]
    decreases |flat|
  {
    if i < |flat| - 1 {
      var pre := flat[..|flat| - 1];
      assert pre[i] == flat[i];
      LastWins(recs, pre, i);
    }
  }

  /** Indexing a list in two pieces: the second piece's entries win. */
  lemma {:induction false} AssociateAppend(recs: seq<ContentRecord>, s: seq<nat>, t: seq<nat>)
    ensures Associate(recs, s + t) == Associate(recs, s) + Associate(recs, t)
    decreases |t|
  {
    if t == [] {
      assert s + t == s;
    } else {
      var t' := t[..|t| - 1];
      var last := t[|t| - 1];
      assert (s + t)[..|s + t| - 1] == s + t';
      assert (s + t)[|s + t| - 1] == last;
      AssociateAppend(recs, s, t');
      if last < |recs| {
        UnionUpdate(Associate(recs, s), Associate(recs, t'), recs[last].sha, last);
      }
    }
  }

  lemma UnionUpdate(a: map<string, nat>, b: map<string, nat>, k: string, v: nat)
    ensures (a + b)[k := v] == a + b[k := v]
  {
  }

  /** The last node of a list is what the index keeps under its `sha`. */
  lemma AssociateLast(recs: seq<ContentRecord>, s: seq<nat>, x: nat)
    requires x < |recs|
    ensures Associate(recs, s + [x])[recs[x].sha] == x
  {
    assert (s + [x])[..|s + [x]| - 1] == s;
  }

  // ---------------------------------------------------------------------------
  // Levels of the flat view

  /** Every listed node's level is the level of the root it hangs from plus its
      nesting depth below that root (0 for the root itself). */
  ghost predicate LevelsFollowDepth(level: seq<int>, parent: seq<int>, flat: seq<nat>) {
    forall y :: y in flat ==>
      && y < |level|
      && 0 <= Top(parent, y, -1) < |level|
      && level[y] == level[Top(parent, y, -1)] + Distance(parent, y, -1)
  }

  /** One root more in `remap`'s loop: the root, then the walk below it, which
      writes levels only below that root. */
  lemma RootStep(c: seq<seq<nat>>, parent: seq<int>, roots: seq<nat>, i: nat,
                 level: seq<int>, level': seq<int>, prefix: seq<nat>, sub: seq<nat>)
    requires TreeShaped(c, parent) && ChildrenOf(parent, -1, roots) && NoDup(roots)
    requires i < |roots| && |level| == |c| && |level'| == |c|
    requires prefix == Order(c, -1, roots[..i]) && LevelsFollowDepth(level, parent, prefix)
    requires sub == Order(c, roots[i], c[roots[i]])
    requires forall y :: y in sub ==> y < |level'| && level'[y] == level[roots[i]] + 1 + Distance(parent, y, roots[i])
    requires forall y :: 0 <= y < |level| && y !in sub ==> level'[y] == level[y]
    ensures Order(c, -1, roots[..i + 1]) == prefix + [roots[i]] + sub
    ensures LevelsFollowDepth(level', parent, prefix + [roots[i]] + sub)
  {
    var root := roots[i];
    assert Above(c, -1, roots);
    OrderStep(c, -1, roots, i);
    assert root !in roots[..i] by {
      forall j | 0 <= j < i ensures roots[..i][j] != root {
        assert roots[..i][j] == roots[j];
      }
    }
    assert ChildrenOf(parent, -1, roots[..i]);
    OrderBounds(c, root, c[root]);
    OrderBounds(c, -1, roots[..i]);
    forall y | y in prefix + [root] + sub
      ensures y < |level'| && 0 <= Top(parent, y, -1) < |level'|
      ensures level'[y] == level'[Top(parent, y, -1)] + Distance(parent, y, -1)
    {
      if y in sub {
        OrderAncestry(c, parent, root, c[root], y);
        ChainLift(parent, y, root, -1);
      } else if y in prefix {
        OrderAncestry(c, parent, -1, roots[..i], y);
        var t := Top(parent, y, -1);
        if t in sub {
          OrderAncestry(c, parent, root, c[root], t);
          ChainLift(parent, t, root, -1);
          assert false;
        }
      }
    }
  }

  // ---------------------------------------------------------------------------
  // Shape of an update of the flat view

  /** `t` is `s` with the block `removed` right after `x` replaced by `inserted`. */
  ghost predicate Spliced(s: seq<nat>, t: seq<nat>, x: nat, removed: seq<nat>, inserted: seq<nat>) {
    exists before, after ::
      s == before + [x] + removed + after && t == before + [x] + inserted + after
  }

  class GitHierarchy {
    /** The nodes every `RepositoryContentData` object of this client lives in. */
    const heap: ContentHeap
    /** `data`: the root list, never changed. */
    const data: seq<nat>
    var flatStructure: seq<nat>
    var fastAccessMap: map<string, nat>

    /** The roots are distinct parentless nodes of the arena. */
    ghost predicate RootsValid()
      reads heap
    {
      heap.Valid() && NoDup(data) && ChildrenOf(heap.parent, -1, data)
    }

    ghost predicate Valid()
      reads this, heap
    {
      && RootsValid()
      && flatStructure == Order(heap.content, -1, data)
      && NoDup(flatStructure)
      && fastAccessMap == Associate(heap.records, flatStructure)
      && LevelsFollowDepth(heap.level, heap.parent, flatStructure)
    }

    /** `GitHierarchy(data)`: the `init` block runs `remap`. */
    constructor(heap: ContentHeap, data: seq<nat>)
      requires heap.Valid() && NoDup(data) && ChildrenOf(heap.parent, -1, data)
      modifies heap`level
      ensures this.heap == heap && this.data == data
      ensures Valid()
      ensures forall i :: 0 <= i < |data| ==> data[i] < |old(heap.level)| && heap.level[data[i]] == old(heap.level)[data[i]]
    {
      this.heap := heap;
      this.data := data;
      new;
      var _ := Remap();
    }

    /** `remap`: rebuilds the flat view root by root (each root, then
        `root.flatStructured(root.level + 1)`) and re-indexes it. Only levels
        of listed nodes change, and roots keep theirs. */
    method Remap() returns (r: seq<nat>)
      requires RootsValid()
      modifies this`flatStructure, this`fastAccessMap, heap`level
      ensures Valid() && r == flatStructure
      ensures forall y :: 0 <= y < |heap.level| && (y !in flatStructure || y in data) ==> heap.level[y] == old(heap.level)[y]
    {
      var newList := [];
      var i := 0;
      while i < |data|
        invariant 0 <= i <= |data|
        invariant RootsValid()
        invariant newList == Order(heap.content, -1, data[..i])
        invariant LevelsFollowDepth(heap.level, heap.parent, newList)
        invariant forall y :: 0 <= y < |heap.level| && (y !in newList || y in data) ==> heap.level[y] == old(heap.level)[y]
      {
        var root := data[i];
        ghost var before := heap.level;
        var sub := heap.FlatStructured(root, heap.level[root] + 1);
        RootStep(heap.content, heap.parent, data, i, before, heap.level, newList, sub);
        RootsKeepLevels(heap.content, heap.parent, root, sub, data);
        newList := newList + [root] + sub;
        i := i + 1;
      }
      assert data[..i] == data;
      OrderNoDup(heap.content, heap.parent, -1, data);
      flatStructure := newList;
      fastAccessMap := Associate(heap.records, newList);
      r := newList;
    }

    /** `find`: the node of the view that carries `n`'s `sha`, the last one
        when several do, or none when no node of the view carries it. */
    function Find(n: nat): (r: Option<nat>)
      reads this, heap
      requires Valid() && n < |heap.records|
      ensures forall j :: 0 <= j < |flatStructure| ==> flatStructure[j] < |heap.records|
      ensures r.Some? <==> exists y :: y in flatStructure && heap.records[y].sha == heap.records[n].sha
      ensures r.Some? ==> r.value in flatStructure && heap.records[r.value].sha == heap.records[n].sha
      ensures r.Some? ==> exists k :: 0 <= k < |flatStructure| && flatStructure[k] == r.value
                                      && forall j :: k < j < |flatStructure| ==> heap.records[flatStructure[j]].sha != heap.records[n].sha
    {
      OrderBounds(heap.content, -1, data);
      IndexBounds(flatStructure, |heap.records|);
      AssociateDomain(heap.records, flatStructure);
      var key := heap.records[n].sha;
      if key in fastAccessMap then
        AssociateKeepsLast(heap.records, flatStructure, key);
        Some(fastAccessMap[key])
      else None
    }

    /** `hasContent`: the node `n` resolves to shows children in the view. */
    function HasContent(n: nat): (b: bool)
      reads this, heap
      requires Valid() && n < |heap.records|
      ensures b <==> Find(n).Some? && exists z :: z in flatStructure && z < |heap.parent| && heap.parent[z] == Find(n).value
    {
      var f := Find(n);
      if f == None then false
      else
        ShownChildren(heap.content, heap.parent, data, f.value);
        heap.content[f.value] != []
    }

    /** `addNestedContent`: toggles the node `node` resolves to. With no
        children it adopts new nodes made from `nested`, which then follow it
        at once in the view; with children it loses them, as on collapse. An
        unresolved node gives an empty list and changes nothing. */
    method AddNestedContent(node: nat, nested: seq<ContentRecord>) returns (r: seq<nat>)
      requires Valid() && node < |heap.records|
      modifies this, heap
      ensures Valid()
      ensures old(Find(node)).None? ==> r == [] && unchanged(this) && unchanged(heap)
      ensures forall i :: 0 <= i < |data| ==> data[i] < |old(heap.level)| && heap.level[data[i]] == old(heap.level)[data[i]]
      ensures old(Find(node)).Some? ==>
        var x := old(Find(node)).value;
        && r == flatStructure
        && (old(heap.content[x]) == [] ==>
              var made := IdRange(old(|heap.records|), |nested|);
              && heap.records == old(heap.records) + nested
              && heap.content == (old(heap.content) + NoChildren(|nested|))[x := made]
              && Spliced(old(flatStructure), flatStructure, x, [], made))
        && (old(heap.content[x]) != [] ==>
              && heap.records == old(heap.records)
              && heap.content == old(heap.content)[x := []]
              && Spliced(old(flatStructure), flatStructure, x, old(Order(heap.content, x, heap.content[x])), []))
    {
      var found := Find(node);
      if found.None? {
        return [];
      }
      var x := found.value;
      if heap.content[x] == [] {
        r := Expand(x, nested);
      } else {
        r := Collapse(x);
      }
    }

    /** The expanding branch of `addNestedContent` on a shown leaf `x`. */
    method Expand(x: nat, nested: seq<ContentRecord>) returns (r: seq<nat>)
      requires Valid() && x in flatStructure && x < |heap.content| && heap.content[x] == []
      modifies this, heap
      ensures Valid() && r == flatStructure
      ensures heap.records == old(heap.records) + nested
      ensures heap.content == (old(heap.content) + NoChildren(|nested|))[x := IdRange(old(|heap.records|), |nested|)]
      ensures Spliced(old(flatStructure), flatStructure, x, [], IdRange(old(|heap.records|), |nested|))
      ensures forall i :: 0 <= i < |data| ==> data[i] < |old(heap.level)| && heap.level[data[i]] == old(heap.level)[data[i]]
    {
      assert Above(heap.content, -1, data);
      ExpandSplice(heap.content, data, x, |nested|);
      var ids := heap.Alloc(nested, x);
      heap.Attach(x, ids);
      r := Remap();
    }

    /** The collapsing branch of `addNestedContent`, and `removeContentForNode`,
        on a shown node `x`. */
    method Collapse(x: nat) returns (r: seq<nat>)
      requires Valid() && x in flatStructure && x < |heap.content|
      modifies this, heap
      ensures Valid() && r == flatStructure
      ensures heap.records == old(heap.records)
      ensures heap.content == old(heap.content)[x := []]
      ensures Spliced(old(flatStructure), flatStructure, x, old(Order(heap.content, x, heap.content[x])), [])
      ensures forall y :: y in old(Order(heap.content, x, heap.content[x])) ==> y !in flatStructure
      ensures forall i :: 0 <= i < |data| ==> data[i] < |old(heap.level)| && heap.level[data[i]] == old(heap.level)[data[i]]
    {
      CollapseSplice(heap.content, data, x);
      heap.Clear(x);
      r := Remap();
    }

    /** `removeContentForNode`: collapses the node `node` resolves to. Its
        former descendants leave the view, the node itself stays in it and
        `find` still resolves to it; an unresolved node gives an empty list and
        changes nothing. */
    method RemoveContentForNode(node: nat) returns (r: seq<nat>)
      requires Valid() && node < |heap.records|
      modifies this, heap
      ensures Valid()
      ensures old(Find(node)).None? ==> r == [] && unchanged(this) && unchanged(heap)
      ensures old(Find(node)).Some? ==>
        var x := old(Find(node)).value;
        && r == flatStructure
        && heap.records == old(heap.records)
        && heap.content == old(heap.content)[x := []]
        && Spliced(old(flatStructure), flatStructure, x, old(Order(heap.content, x, heap.content[x])), [])
        && (forall y :: y in old(Order(heap.content, x, heap.content[x])) ==> y !in flatStructure)
        && Find(node) == Some(x)
        && !HasContent(node)
      ensures forall i :: 0 <= i < |data| ==> data[i] < |old(heap.level)| && heap.level[data[i]] == old(heap.level)[data[i]]
    {
      var found := Find(node);
      if found.None? {
        return [];
      }
      var x := found.value;
      ghost var shown := flatStructure;
      ghost var below := Order(heap.content, x, heap.content[x]);
      r := Collapse(x);
      CollapseKeepsFind(heap.records, shown, flatStructure, x, below, heap.records[node].sha);
    }
  }

  /** `GitHierarchy(result)` over a freshly deserialised top-level listing:
      one new parentless node per entry, and a hierarchy over them. New nodes
      have no children, so the view is exactly the roots. */
  method FromListing(heap: ContentHeap, listing: seq<ContentRecord>) returns (h: GitHierarchy)
    requires heap.Valid()
    modifies heap
    ensures fresh(h) && h.heap == heap && h.Valid()
    ensures h.data == IdRange(old(|heap.records|), |listing|)
    ensures h.flatStructure == h.data
    ensures heap.records == old(heap.records) + listing
    ensures forall i :: 0 <= i < |h.data| ==> h.data[i] < |heap.level| && heap.level[h.data[i]] == 0
  {
    var ids := heap.Alloc(listing, -1);
    OrderOfLeaves(heap.content, -1, ids);
    h := new GitHierarchy(heap, ids);
  }

  /** Expanding a shown leaf `x` with `n` new nodes puts them right after `x`
      in the view and moves nothing else. */
  lemma ExpandSplice(c: seq<seq<nat>>, roots: seq<nat>, x: nat, n: nat)
    requires Forward(c) && Above(c, -1, roots) && NoDup(Order(c, -1, roots))
    requires x in Order(c, -1, roots) && x < |c| && c[x] == []
    ensures var made := IdRange(|c|, n);
            Spliced(Order(c, -1, roots), Order((c + NoChildren(n))[x := made], -1, roots), x, [], made)
  {
    var made := IdRange(|c|, n);
    var c1 := c + NoChildren(n);
    OrderGrow(c, NoChildren(n), -1, roots);
    assert x < |c1| && c1[x] == [];
    var before, after := OrderReplace(c1, x, made, -1, roots);
    assert Order(c1[x := made], x, made) == made by {
      assert Above(c1[x := made], x, made);
      assert forall k :: 0 <= k < |made| ==> c1[x := made][made[k]] == [];
      OrderOfLeaves(c1[x := made], x, made);
    }
    assert Order(c1, x, c1[x]) == [];
    assert Order(c, -1, roots) == before + [x] + [] + after;
    assert Order(c1[x := made], -1, roots) == before + [x] + made + after;
  }

  /** Collapsing a shown node `x` drops exactly the block of its descendants
      that follows it in the view, and none of them stays in the view. */
  lemma CollapseSplice(c: seq<seq<nat>>, roots: seq<nat>, x: nat)
    requires NoDup(Order(c, -1, roots)) && x in Order(c, -1, roots) && x < |c|
    ensures Spliced(Order(c, -1, roots), Order(c[x := []], -1, roots), x, Order(c, x, c[x]), [])
    ensures forall y :: y in Order(c, x, c[x]) ==> y !in Order(c[x := []], -1, roots)
  {
    var before, after := OrderReplace(c, x, [], -1, roots);
    assert Order(c[x := []], x, []) == [];
    assert before + [x] + [] + after == before + [x] + after;
    CollapseHides(before, x, Order(c, x, c[x]), after);
  }

  /** A walk below root `root` leaves every root's level alone. */
  lemma RootsKeepLevels(c: seq<seq<nat>>, parent: seq<int>, root: nat, sub: seq<nat>, roots: seq<nat>)
    requires TreeShaped(c, parent) && root < |c| && sub == Order(c, root, c[root])
    requires ChildrenOf(parent, -1, roots)
    ensures forall y :: y in roots ==> y !in sub
  {
    forall y | y in roots && y in sub ensures false {
      OrderAncestry(c, parent, root, c[root], y);
    }
  }

  /** A node of the view has children iff some node of the view names it as
      parent. */
  lemma ShownChildren(c: seq<seq<nat>>, parent: seq<int>, roots: seq<nat>, x: nat)
    requires TreeShaped(c, parent) && ChildrenOf(parent, -1, roots)
    requires x in Order(c, -1, roots)
    ensures x < |c|
    ensures c[x] != [] <==> exists z :: z in Order(c, -1, roots) && z < |parent| && parent[z] == x
  {
    assert Above(c, -1, roots);
    OrderBounds(c, -1, roots);
    if c[x] != [] {
      OrderClosed(c, -1, roots, x, c[x][0]);
    }
    if z :| z in Order(c, -1, roots) && z < |parent| && parent[z] == x {
      OrderOrigin(c, -1, roots, z);
      assert z !in roots by {
        forall k | 0 <= k < |roots| ensures roots[k] != z {
        }
      }
      if z !in roots {
        var w :| w in Order(c, -1, roots) && w < |c| && z in c[w];
        var j :| 0 <= j < |c[w]| && c[w][j] == z;
        assert w == x;
      }
    }
  }

  /** Collapsing keeps `find` on the collapsed node: it was the last node of the
      view with its `sha`, and the nodes after it are the same as before. */
  lemma CollapseKeepsFind(recs: seq<ContentRecord>, o: seq<nat>, o': seq<nat>, x: nat, mid: seq<nat>, k: string)
    requires Spliced(o, o', x, mid, []) && NoDup(o)
    requires x < |recs| && recs[x].sha == k
    requires k in Associate(recs, o) && Associate(recs, o)[k] == x
    ensures k in Associate(recs, o') && Associate(recs, o')[k] == x
  {
    var before, after :| o == before + [x] + mid + after && o' == before + [x] + [] + after;
    LastKeepsFind(recs, o, o', before, x, mid, after, k);
  }

  /** Dropping a block right after the last node with `sha` `k` keeps that
      node under `k`. */
  lemma LastKeepsFind(recs: seq<ContentRecord>, o: seq<nat>, o': seq<nat>,
                      before: seq<nat>, x: nat, mid: seq<nat>, after: seq<nat>, k: string)
    requires o == before + [x] + mid + after && o' == before + [x] + [] + after
    requires x < |recs| && recs[x].sha == k && NoDup(o)
    requires k in Associate(recs, o) && Associate(recs, o)[k] == x
    ensures k in Associate(recs, o') && Associate(recs, o')[k] == x
  {
    DropEmpty(before + [x], after);
    NoDupSplit(before + [x] + mid, after);
    NoDupSplit(before + [x], mid);
    AssociateAppend(recs, before + [x] + mid, after);
    AssociateAppend(recs, before + [x], mid);
    AssociateAppend(recs, before + [x], after);
    AssociateLast(recs, before, x);
    AssociateDomain(recs, after);
    AssociateDomain(recs, mid);
    if k in Associate(recs, after) {
      assert false;
    }
    if k in Associate(recs, mid) {
      assert false;
    }
  }

  lemma DropEmpty(a: seq<nat>, b: seq<nat>)
    ensures a + [] + b == a + b
  {
    assert a + [] == a;
  }

  /** Nodes of the removed block do not come back in the collapsed view. */
  lemma CollapseHides(before: seq<nat>, x: nat, mid: seq<nat>, after: seq<nat>)
    requires NoDup(before + [x] + mid + after)
    ensures forall y :: y in mid ==> y !in before + [x] + after
  {
    NoDupSplit(before + [x] + mid, after);
    NoDupSplit(before + [x], mid);
  }
}
