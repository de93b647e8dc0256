/** The mutable part of `RepositoryContentData`: every node object the client
    has deserialised lives in one arena, and a node reference is its index.
    The serialised fields are `records[i]`; the runtime fields are the child
    list `content[i]` and the display `level[i]`. A node's spinner
    (`loadingState`) is screen state and lives in the screen model. */
module ContentNodes {
  import opened Pojo
  import opened ContentTree

  /** The ids `base`, `base + 1`, ..., `base + n - 1`. */
  function IdRange(base: nat, n: nat): (ids: seq<nat>)
    ensures |ids| == n && forall k :: 0 <= k < n ==> ids[k] == base + k
  {
    seq(n, k => base + k)
  }

  /** `n` empty child lists. */
  function NoChildren(n: nat): (r: seq<seq<nat>>)
    ensures |r| == n && forall k :: 0 <= k < n ==> r[k] == []
  {
    seq(n, _ => [])
  }

  class ContentHeap {
    var records: seq<ContentRecord>
    var content: seq<seq<nat>>
    var level: seq<int>
    /** The node whose child list holds each node; -1 for none. */
    ghost var parent: seq<int>

    ghost predicate Valid()
      reads this
    {
      && |content| == |records|
      && |level| == |records|
      && TreeShaped(content, parent)
    }

    constructor()
      ensures Valid()
      ensures records == [] && content == [] && level == [] && parent == []
    {
      records, content, level := [], [], [];
      parent := [];
    }

    /** Creates one node per record, as the deserialiser creates each
        `RepositoryContentData`: no children and level 0. The new
        nodes are meant for `owner`'s child list (-1: for a root list). */
    method Alloc(recs: seq<ContentRecord>, owner: int) returns (ids: seq<nat>)
      requires Valid() && -1 <= owner < |content|
      modifies this
      ensures Valid()
      ensures |ids| == |recs| && NoDup(ids) && ChildrenOf(parent, owner, ids)
      ensures ids == IdRange(|old(records)|, |recs|)
      ensures records == old(records) + recs
      ensures content == old(content) + NoChildren(|recs|)
      ensures level == old(level) + seq(|recs|, _ => 0)
      ensures parent == old(parent) + seq(|recs|, _ => owner)
    {
      ids := IdRange(|records|, |recs|);
      records := records + recs;
      content := content + NoChildren(|recs|);
      level := level + seq(|recs|, _ => 0);
      parent := parent + seq(|recs|, _ => owner);
    }

    /** `content.addAll(ids)` on a node whose child list is empty, with nodes
        created for it. */
    method Attach(x: nat, ids: seq<nat>)
      requires Valid() && x < |content| && content[x] == []
      requires NoDup(ids) && ChildrenOf(parent, x, ids) && Above(content, x, ids)
      modifies this`content
      ensures Valid()
      ensures content == old(content)[x := ids]
    {
      content := content[x := ids];
    }

    /** `content.clear()`. */
    method Clear(x: nat)
      requires Valid() && x < |content|
      modifies this`content
      ensures Valid()
      ensures content == old(content)[x := []]
    {
      content := content[x := []];
    }

    /** `RepositoryContentData.flatStructured(lvl)` on node `node`: lists the
        node's descendants in pre-order (not the node itself) and writes each
        one's `level` on the way, `lvl` for a direct child and one more per
        nesting step. Only levels change. */
    method FlatStructured(node: nat, lvl: int) returns (r: seq<nat>)
      requires Valid() && node < |content|
      modifies this`level
      ensures Valid()
      ensures r == Order(content, node, content[node])
      ensures level == Stamp(old(level), Walk(content, node, content[node], lvl))
      ensures forall y :: y in r ==> node < y < |level|
      ensures forall y :: y in r ==> level[y] == lvl + Distance(parent, y, node)
      ensures forall y :: 0 <= y < |level| && y !in r ==> level[y] == old(level)[y]
      decreases |content| - node
    {
      var children := content[node];
      ghost var w: seq<Visit> := [];
      r := [];
      var i := 0;
      while i < |children|
        invariant 0 <= i <= |children|
        invariant Valid() && content[node] == children
        invariant w == Walk(content, node, children[..i], lvl)
        invariant r == Ids(w)
        invariant level == Stamp(old(level), w)
      {
        var child := children[i];
        level := level[child := lvl];
        var sub := FlatStructured(child, lvl + 1);
        ghost var step := [Visit(child, lvl)] + Walk(content, child, content[child], lvl + 1);
        FlatStep(content, node, children, i, lvl, old(level));
        r := r + [child] + sub;
        w := w + step;
        i := i + 1;
      }
      assert children[..i] == children;
      WalkOrder(content, node, children, lvl);
      OrderBounds(content, node, children);
      forall y | 0 <= y < |level|
        ensures y in r ==> level[y] == lvl + Distance(parent, y, node)
        ensures y !in r ==> level[y] == old(level)[y]
      {
        WalkLevels(content, parent, node, lvl, old(level), y);
      }
    }
  }

  /** One more child of the loop in `FlatStructured`: the walk of the first
      `i + 1` children extends the walk of the first `i` by the child's visit
      and its subtree; so do the ids listed and the levels written. */
  lemma FlatStep(c: seq<seq<nat>>, node: nat, children: seq<nat>, i: nat, lvl: int, level: seq<int>)
    requires Forward(c) && node < |c| && c[node] == children && i < |children| && |level| == |c|
    ensures children[i] < |c|
    ensures var w := Walk(c, node, children[..i], lvl);
            var child := children[i];
            var sub := Walk(c, child, c[child], lvl + 1);
            && Walk(c, node, children[..i + 1], lvl) == w + ([Visit(child, lvl)] + sub)
            && Ids(w + ([Visit(child, lvl)] + sub)) == Ids(w) + [child] + Order(c, child, c[child])
            && Stamp(level, w + ([Visit(child, lvl)] + sub)) == Stamp(Stamp(level, w)[child := lvl], sub)
  {
    var child := children[i];
    var w := Walk(c, node, children[..i], lvl);
    var sub := Walk(c, child, c[child], lvl + 1);
    StepWalk(c, node, children, i, lvl);
    StepIds(w, Visit(child, lvl), sub);
    WalkOrder(c, child, c[child], lvl + 1);
    StepStamp(level, w, child, lvl, sub);
  }

  lemma StepWalk(c: seq<seq<nat>>, node: nat, children: seq<nat>, i: nat, lvl: int)
    requires Forward(c) && node < |c| && c[node] == children && i < |children|
    ensures children[i] < |c|
    ensures Walk(c, node, children[..i + 1], lvl)
         == Walk(c, node, children[..i], lvl) + ([Visit(children[i], lvl)] + Walk(c, children[i], c[children[i]], lvl + 1))
  {
    var child := children[i];
    var sub := Walk(c, child, c[child], lvl + 1);
    assert children[..i + 1] == children[..i] + [child];
    assert Above(c, node, children[..i]);
    WalkAppend(c, node, children[..i], [child], lvl);
    assert Walk(c, node, [child], lvl) == [Visit(child, lvl)] + sub + Walk(c, node, [], lvl);
    assert [Visit(child, lvl)] + sub + [] == [Visit(child, lvl)] + sub;
  }

  lemma StepIds(w: seq<Visit>, v: Visit, sub: seq<Visit>)
    ensures Ids(w + ([v] + sub)) == Ids(w) + [v.id] + Ids(sub)
  {
    IdsAppend(w, [v] + sub);
    IdsAppend([v], sub);
  }

  lemma StepStamp(level: seq<int>, w: seq<Visit>, child: nat, lvl: int, sub: seq<Visit>)
    requires child < |level|
    ensures Stamp(level, w + ([Visit(child, lvl)] + sub)) == Stamp(Stamp(level, w)[child := lvl], sub)
  {
    StampAppend(level, w, [Visit(child, lvl)] + sub);
    StampAppend(Stamp(level, w), [Visit(child, lvl)], sub);
    assert Stamp(Stamp(level, w), [Visit(child, lvl)]) == Stamp(level, w)[child := lvl];
  }
}
