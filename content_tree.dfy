/** The pre-order walk that `RepositoryContentData.flatStructured` performs,
    stated over a node arena: node `i`'s children are the ids `content[i]`,
    and `parent[i]` is the node whose `content` lists `i` (-1 for none). */
module ContentTree {

  /** One step of a walk: the node visited and the level written to it. */
  datatype Visit = Visit(id: nat, depth: int)

  /** Children point forward: every child id is greater than its parent's and
      lies inside the arena. No node is its own descendant, and `|content| - id`
      is the measure every walk decreases. */
  ghost predicate Forward(content: seq<seq<nat>>) {
    forall i, j :: 0 <= i < |content| && 0 <= j < |content[i]| ==> i < content[i][j] < |content|
  }

  /** Every id of `ids` lies above `parent` and inside the arena. */
  ghost predicate Above(content: seq<seq<nat>>, parent: int, ids: seq<nat>) {
    forall k :: 0 <= k < |ids| ==> parent < ids[k] < |content|
  }

  ghost predicate NoDup(s: seq<nat>) {
    forall a, b :: 0 <= a < b < |s| ==> s[a] != s[b]
  }

  /** Every parent pointer points strictly down the arena (or is -1). */
  ghost predicate ParentsBelow(parent: seq<int>) {
    forall x :: 0 <= x < |parent| ==> -1 <= parent[x] < x
  }

  /** The arena is a forest: children point forward, `parent` names the one
      node listing each child, and no list names a child twice. */
  ghost predicate TreeShaped(content: seq<seq<nat>>, parent: seq<int>) {
    && |parent| == |content|
    && Forward(content)
    && ParentsBelow(parent)
    && (forall i, j :: 0 <= i < |content| && 0 <= j < |content[i]| ==> parent[content[i][j]] == i)
    && (forall i :: 0 <= i < |content| ==> NoDup(content[i]))
  }

  /** Every id of `ids` has `p` as its parent. */
  ghost predicate ChildrenOf(parent: seq<int>, p: int, ids: seq<nat>) {
    forall k :: 0 <= k < |ids| ==> ids[k] < |parent| && parent[ids[k]] == p
  }

  /** The node ids a walk visits, in order. */
  function Ids(w: seq<Visit>): (r: seq<nat>)
    ensures |r| == |w| && forall k :: 0 <= k < |w| ==> r[k] == w[k].id
  {
    if w == [] then [] else [w[0].id] + Ids(w[1..])
  }

  /** Pre-order walk of the nodes `ids` (children of `parent`) and of all their
      descendants: each node is visited at `depth` and is followed at once by
      its own children's walk one level deeper, then come its later siblings.
      The guard on `ids[0]` never fails on an arena that is `Forward`. */
  function Walk(content: seq<seq<nat>>, parent: int, ids: seq<nat>, depth: int): seq<Visit>
    decreases |content| - parent, |ids|
  {
    if ids == [] || ids[0] <= parent || |content| <= ids[0] then []
    else
      [Visit(ids[0], depth)]
      + Walk(content, ids[0], content[ids[0]], depth + 1)
      + Walk(content, parent, ids[1..], depth)
  }

  /** The same walk without levels: the order in which nodes are listed. */
  function Order(content: seq<seq<nat>>, parent: int, ids: seq<nat>): seq<nat>
    decreases |content| - parent, |ids|
  {
    if ids == [] || ids[0] <= parent || |content| <= ids[0] then []
    else [ids[0]] + Order(content, ids[0], content[ids[0]]) + Order(content, parent, ids[1..])
  }

  /** Writes each visit's depth into `level`, in walk order (a later write to
      the same node wins); visits outside `level` write nothing. */
  function Stamp(level: seq<int>, w: seq<Visit>): (r: seq<int>)
    ensures |r| == |level|
    decreases |w|
  {
    if w == [] then level
    else if w[0].id < |level| then Stamp(level[w[0].id := w[0].depth], w[1..])
    else Stamp(level, w[1..])
  }

  // ---------------------------------------------------------------------------
  // Sequence helpers

  lemma {:induction false} IdsAppend(a: seq<Visit>, b: seq<Visit>)
    ensures Ids(a + b) == Ids(a) + Ids(b)
    decreases |a|
  {
    if a != [] {
      assert (a + b)[1..] == a[1..] + b;
      IdsAppend(a[1..], b);
    } else {
      assert a + b == b;
    }
  }

  lemma IdsMember(w: seq<Visit>, v: Visit)
    requires v in w
    ensures v.id in Ids(w)
  {
    var k :| 0 <= k < |w| && w[k] == v;
    assert Ids(w)[k] == v.id;
  }

  /** A duplicate-free concatenation has duplicate-free, disjoint parts. */
  lemma NoDupSplit(u: seq<nat>, v: seq<nat>)
    requires NoDup(u + v)
    ensures NoDup(u) && NoDup(v)
    ensures forall y :: y in u ==> y !in v
  {
    forall a, b | 0 <= a < b < |u| ensures u[a] != u[b] {
      assert (u + v)[a] == u[a] && (u + v)[b] == u[b];
    }
    forall a, b | 0 <= a < b < |v| ensures v[a] != v[b] {
      assert (u + v)[|u| + a] == v[a] && (u + v)[|u| + b] == v[b];
    }
    forall a, b | 0 <= a < |u| && 0 <= b < |v| ensures u[a] != v[b] {
      assert (u + v)[a] == u[a] && (u + v)[|u| + b] == v[b];
    }
  }

  lemma NoDupJoin(u: seq<nat>, v: seq<nat>)
    requires NoDup(u) && NoDup(v)
    requires forall y :: y in u ==> y !in v
    ensures NoDup(u + v)
  {
    forall a, b | 0 <= a < b < |u + v| ensures (u + v)[a] != (u + v)[b] {
      if b < |u| {
      } else if a < |u| {
        assert (u + v)[a] in u && (u + v)[b] in v;
      } else {
        assert (u + v)[a] == v[a - |u|] && (u + v)[b] == v[b - |u|];
      }
    }
  }

  // ---------------------------------------------------------------------------
  // Walks on any arena that points forward

  /** Every listed node lies above `parent` and inside the arena, and each of
      `ids` is listed. */
  lemma {:induction false} OrderBounds(content: seq<seq<nat>>, parent: int, ids: seq<nat>)
    requires Forward(content) && Above(content, parent, ids)
    ensures forall y :: y in Order(content, parent, ids) ==> parent < y < |content|
    ensures forall y :: y in ids ==> y in Order(content, parent, ids)
    decreases |content| - parent, |ids|
  {
    if ids != [] {
      OrderBounds(content, ids[0], content[ids[0]]);
      OrderBounds(content, parent, ids[1..]);
      assert ids == [ids[0]] + ids[1..];
    }
  }

  /** The walk lists exactly the nodes of `Order`, whatever level it starts at. */
  lemma {:induction false} WalkOrder(content: seq<seq<nat>>, parent: int, ids: seq<nat>, depth: int)
    ensures Ids(Walk(content, parent, ids, depth)) == Order(content, parent, ids)
    decreases |content| - parent, |ids|
  {
    if !(ids == [] || ids[0] <= parent || |content| <= ids[0]) {
      var a := Walk(content, ids[0], content[ids[0]], depth + 1);
      var b := Walk(content, parent, ids[1..], depth);
      WalkOrder(content, ids[0], content[ids[0]], depth + 1);
      WalkOrder(content, parent, ids[1..], depth);
      IdsAppend([Visit(ids[0], depth)] + a, b);
      IdsAppend([Visit(ids[0], depth)], a);
    }
  }

  /** Walking a list of siblings piecewise gives the same visits. */
  lemma {:induction false} WalkAppend(content: seq<seq<nat>>, parent: int, a: seq<nat>, b: seq<nat>, depth: int)
    requires Above(content, parent, a)
    ensures Walk(content, parent, a + b, depth) == Walk(content, parent, a, depth) + Walk(content, parent, b, depth)
    decreases |a|
  {
    if a != [] {
      assert (a + b)[0] == a[0];
      assert (a + b)[1..] == a[1..] + b;
      WalkAppend(content, parent, a[1..], b, depth);
    } else {
      assert a + b == b;
    }
  }

  /** Listing a list of siblings piecewise gives the same listing. */
  lemma {:induction false} OrderAppend(content: seq<seq<nat>>, parent: int, a: seq<nat>, b: seq<nat>)
    requires Above(content, parent, a)
    ensures Order(content, parent, a + b) == Order(content, parent, a) + Order(content, parent, b)
    decreases |a|
  {
    if a != [] {
      assert (a + b)[0] == a[0];
      assert (a + b)[1..] == a[1..] + b;
      OrderAppend(content, parent, a[1..], b);
    } else {
      assert a + b == b;
    }
  }

  /** The listing of the first `i + 1` siblings extends that of the first `i`
      by the next sibling and its descendants. */
  lemma OrderStep(content: seq<seq<nat>>, parent: int, ids: seq<nat>, i: nat)
    requires Above(content, parent, ids) && i < |ids|
    ensures ids[i] < |content|
    ensures Order(content, parent, ids[..i + 1])
         == Order(content, parent, ids[..i]) + [ids[i]] + Order(content, ids[i], content[ids[i]])
  {
    var x := ids[i];
    assert ids[..i + 1] == ids[..i] + [x];
    assert Above(content, parent, ids[..i]);
    OrderAppend(content, parent, ids[..i], [x]);
    assert Order(content, parent, [x]) == [x] + Order(content, x, content[x]) + Order(content, parent, []);
    assert [x] + Order(content, x, content[x]) + [] == [x] + Order(content, x, content[x]);
  }

  /** Stamping a walk in two pieces is stamping it at once. */
  lemma {:induction false} StampAppend(level: seq<int>, a: seq<Visit>, b: seq<Visit>)
    ensures Stamp(level, a + b) == Stamp(Stamp(level, a), b)
    decreases |a|
  {
    if a != [] {
      assert (a + b)[0] == a[0];
      assert (a + b)[1..] == a[1..] + b;
      if a[0].id < |level| {
        StampAppend(level[a[0].id := a[0].depth], a[1..], b);
      } else {
        StampAppend(level, a[1..], b);
      }
    } else {
      assert a + b == b;
    }
  }

  /** A node the walk does not visit keeps its level. */
  lemma {:induction false} StampOutside(level: seq<int>, w: seq<Visit>, x: nat)
    requires x < |level| && x !in Ids(w)
    ensures Stamp(level, w)[x] == level[x]
    decreases |w|
  {
    if w != [] {
      assert x != Ids(w)[0];
      assert Ids(w[1..]) == Ids(w)[1..];
      if w[0].id < |level| {
        StampOutside(level[w[0].id := w[0].depth], w[1..], x);
      } else {
        StampOutside(level, w[1..], x);
      }
    }
  }

  /** When no node is visited twice, every visited node ends with the depth of
      its visit. */
  lemma {:induction false} StampVisited(level: seq<int>, w: seq<Visit>, v: Visit)
    requires NoDup(Ids(w)) && v in w && v.id < |level|
    ensures Stamp(level, w)[v.id] == v.depth
    decreases |w|
  {
    var rest := w[1..];
    assert Ids(rest) == Ids(w)[1..];
    assert NoDup(Ids(rest));
    if v == w[0] {
      assert v.id !in Ids(rest) by {
        forall j | 0 <= j < |rest| ensures Ids(rest)[j] != v.id {
          assert Ids(w)[j + 1] != Ids(w)[0];
        }
      }
      StampOutside(level[v.id := v.depth], rest, v.id);
    } else {
      assert v in rest;
      if w[0].id < |level| {
        StampVisited(level[w[0].id := w[0].depth], rest, v);
      } else {
        StampVisited(level, rest, v);
      }
    }
  }

  /** Each of `ids` is visited at the starting depth. */
  lemma {:induction false} WalkHeads(content: seq<seq<nat>>, parent: int, ids: seq<nat>, depth: int, y: nat)
    requires Above(content, parent, ids) && y in ids
    ensures Visit(y, depth) in Walk(content, parent, ids, depth)
    decreases |ids|
  {
    if ids[0] != y {
      WalkHeads(content, parent, ids[1..], depth, y);
    }
  }

  /** Wherever a node is visited, each of its children is visited one level deeper. */
  lemma {:induction false} WalkChild(content: seq<seq<nat>>, parent: int, ids: seq<nat>, depth: int, v: Visit, y: nat)
    requires Forward(content) && v in Walk(content, parent, ids, depth)
    requires v.id < |content| && y in content[v.id]
    ensures Visit(y, v.depth + 1) in Walk(content, parent, ids, depth)
    decreases |content| - parent, |ids|
  {
    var a := Walk(content, ids[0], content[ids[0]], depth + 1);
    var b := Walk(content, parent, ids[1..], depth);
    assert Walk(content, parent, ids, depth) == [Visit(ids[0], depth)] + a + b;
    if v == Visit(ids[0], depth) {
      WalkHeads(content, ids[0], content[ids[0]], depth + 1, y);
    } else if v in a {
      WalkChild(content, ids[0], content[ids[0]], depth + 1, v, y);
    } else {
      WalkChild(content, parent, ids[1..], depth, v, y);
    }
  }

  /** Nodes with no children contribute only themselves. */
  lemma {:induction false} OrderOfLeaves(content: seq<seq<nat>>, parent: int, ids: seq<nat>)
    requires Above(content, parent, ids)
    requires forall k :: 0 <= k < |ids| ==> content[ids[k]] == []
    ensures Order(content, parent, ids) == ids
    decreases |ids|
  {
    if ids != [] {
      assert Order(content, ids[0], content[ids[0]]) == [];
      OrderOfLeaves(content, parent, ids[1..]);
      assert ids == [ids[0]] + ids[1..];
    }
  }

  /** The listing is closed under children: a listed node's children are listed too. */
  lemma {:induction false} OrderClosed(content: seq<seq<nat>>, parent: int, ids: seq<nat>, x: nat, y: nat)
    requires Forward(content) && Above(content, parent, ids)
    requires x in Order(content, parent, ids) && x < |content| && y in content[x]
    ensures y in Order(content, parent, ids)
    decreases |content| - parent, |ids|
  {
    var a := Order(content, ids[0], content[ids[0]]);
    var b := Order(content, parent, ids[1..]);
    assert Order(content, parent, ids) == [ids[0]] + a + b;
    if x == ids[0] {
      OrderBounds(content, ids[0], content[ids[0]]);
    } else if x in a {
      OrderClosed(content, ids[0], content[ids[0]], x, y);
    } else {
      OrderClosed(content, parent, ids[1..], x, y);
    }
  }

  /** Changing the children of a node the listing does not reach leaves the
      listing as it is. */
  lemma {:induction false} OrderUnreached(c: seq<seq<nat>>, x: nat, kids: seq<nat>, parent: int, ids: seq<nat>)
    requires x < |c| && x !in Order(c, parent, ids)
    ensures Order(c[x := kids], parent, ids) == Order(c, parent, ids)
    decreases |c| - parent, |ids|
  {
    if !(ids == [] || ids[0] <= parent || |c| <= ids[0]) {
      assert ids[0] != x;
      OrderUnreached(c, x, kids, ids[0], c[ids[0]]);
      OrderUnreached(c, x, kids, parent, ids[1..]);
    }
  }

  /** Growing the arena with nodes nobody lists leaves the listing as it is. */
  lemma {:induction false} OrderGrow(c: seq<seq<nat>>, extra: seq<seq<nat>>, parent: int, ids: seq<nat>)
    requires Forward(c) && Above(c, parent, ids)
    ensures Order(c + extra, parent, ids) == Order(c, parent, ids)
    decreases |c| - parent, |ids|
  {
    if ids != [] {
      assert (c + extra)[ids[0]] == c[ids[0]];
      OrderGrow(c, extra, ids[0], c[ids[0]]);
      OrderGrow(c, extra, parent, ids[1..]);
    }
  }

  /** Replacing the children of a listed node `x` replaces exactly the block of
      its former descendants, which follows `x`, by the listing of its new
      children; everything before and after stays. */
  lemma {:induction false} OrderReplace(c: seq<seq<nat>>, x: nat, kids: seq<nat>, parent: int, ids: seq<nat>)
    returns (before: seq<nat>, after: seq<nat>)
    requires x < |c| && NoDup(Order(c, parent, ids)) && x in Order(c, parent, ids)
    ensures Order(c, parent, ids) == before + [x] + Order(c, x, c[x]) + after
    ensures Order(c[x := kids], parent, ids) == before + [x] + Order(c[x := kids], x, kids) + after
    decreases |c| - parent, |ids|, 1
  {
    var i0 := ids[0];
    var a := Order(c, i0, c[i0]);
    var b := Order(c, parent, ids[1..]);
    assert Order(c, parent, ids) == [i0] + a + b == [i0] + (a + b);
    NoDupSplit([i0], a + b);
    NoDupSplit(a, b);
    if x == i0 {
      after := OrderReplaceHead(c, kids, parent, ids);
      before := [];
    } else if x in a {
      before, after := OrderReplaceFirst(c, x, kids, parent, ids);
    } else {
      before, after := OrderReplaceRest(c, x, kids, parent, ids);
    }
  }

  /** `OrderReplace` when `x` is the first of `ids`. */
  lemma OrderReplaceHead(c: seq<seq<nat>>, kids: seq<nat>, parent: int, ids: seq<nat>) returns (after: seq<nat>)
    requires ids != [] && parent < ids[0] < |c|
    requires ids[0] !in Order(c, parent, ids[1..])
    ensures Order(c, parent, ids) == [] + [ids[0]] + Order(c, ids[0], c[ids[0]]) + after
    ensures Order(c[ids[0] := kids], parent, ids) == [] + [ids[0]] + Order(c[ids[0] := kids], ids[0], kids) + after
  {
    var x := ids[0];
    var c' := c[x := kids];
    after := Order(c, parent, ids[1..]);
    OrderUnreached(c, x, kids, parent, ids[1..]);
    assert Order(c', parent, ids) == [x] + Order(c', x, kids) + after;
    assert [] + [x] == [x];
  }

  /** `OrderReplace` when `x` descends from the first of `ids`. */
  lemma {:induction false} OrderReplaceFirst(c: seq<seq<nat>>, x: nat, kids: seq<nat>, parent: int, ids: seq<nat>)
    returns (before: seq<nat>, after: seq<nat>)
    requires x < |c| && ids != [] && parent < ids[0] < |c| && x != ids[0]
    requires NoDup(Order(c, ids[0], c[ids[0]])) && x in Order(c, ids[0], c[ids[0]])
    requires x !in Order(c, parent, ids[1..])
    ensures Order(c, parent, ids) == before + [x] + Order(c, x, c[x]) + after
    ensures Order(c[x := kids], parent, ids) == before + [x] + Order(c[x := kids], x, kids) + after
    decreases |c| - parent, |ids|, 0
  {
    var c' := c[x := kids];
    var i0 := ids[0];
    var b := Order(c, parent, ids[1..]);
    assert c'[i0] == c[i0];
    assert Order(c', parent, ids) == [i0] + Order(c', i0, c[i0]) + Order(c', parent, ids[1..]);
    OrderUnreached(c, x, kids, parent, ids[1..]);
    var pa, qa := OrderReplace(c, x, kids, i0, c[i0]);
    before, after := [i0] + pa, qa + b;
    Regroup([i0], pa, [x], Order(c, x, c[x]), qa, b);
    Regroup([i0], pa, [x], Order(c', x, kids), qa, b);
  }

  /** `OrderReplace` when `x` descends from a later one of `ids`. */
  lemma {:induction false} OrderReplaceRest(c: seq<seq<nat>>, x: nat, kids: seq<nat>, parent: int, ids: seq<nat>)
    returns (before: seq<nat>, after: seq<nat>)
    requires x < |c| && ids != [] && parent < ids[0] < |c| && x != ids[0]
    requires NoDup(Order(c, parent, ids[1..])) && x in Order(c, parent, ids[1..])
    requires x !in Order(c, ids[0], c[ids[0]])
    ensures Order(c, parent, ids) == before + [x] + Order(c, x, c[x]) + after
    ensures Order(c[x := kids], parent, ids) == before + [x] + Order(c[x := kids], x, kids) + after
    decreases |c| - parent, |ids|, 0
  {
    var c' := c[x := kids];
    var i0 := ids[0];
    var a := Order(c, i0, c[i0]);
    assert c'[i0] == c[i0];
    assert Order(c', parent, ids) == [i0] + Order(c', i0, c[i0]) + Order(c', parent, ids[1..]);
    OrderUnreached(c, x, kids, i0, c[i0]);
    var pb, qb := OrderReplace(c, x, kids, parent, ids[1..]);
    before, after := [i0] + a + pb, qb;
    Regroup2([i0], a, pb, [x], Order(c, x, c[x]), qb);
    Regroup2([i0], a, pb, [x], Order(c', x, kids), qb);
  }

  lemma Regroup(h: seq<nat>, p: seq<nat>, x: seq<nat>, m: seq<nat>, q: seq<nat>, t: seq<nat>)
    ensures h + (p + x + m + q) + t == (h + p) + x + m + (q + t)
  {
  }

  lemma Regroup2(h: seq<nat>, a: seq<nat>, p: seq<nat>, x: seq<nat>, m: seq<nat>, q: seq<nat>)
    ensures h + a + (p + x + m + q) == (h + a + p) + x + m + q
  {
  }

  // ---------------------------------------------------------------------------
  // Walks on a forest: depth and ancestry

  /** The ancestor of `y` (or `y` itself) whose parent is `p`, following parent
      pointers upwards; -1 when the chain never meets `p`. */
  ghost function Top(parent: seq<int>, y: nat, p: int): (r: int)
    ensures r == -1 || (0 <= r <= y && r < |parent| && parent[r] == p)
    decreases y
  {
    if |parent| <= y then -1
    else if parent[y] == p then y
    else if parent[y] < 0 || y <= parent[y] then -1
    else Top(parent, parent[y], p)
  }

  /** How many parent steps lead from `y` up to `Top(parent, y, p)`: the
      nesting depth of `y` below `p`, 0 for a direct child. */
  ghost function Distance(parent: seq<int>, y: nat, p: int): nat
    decreases y
  {
    if |parent| <= y || parent[y] == p || parent[y] < 0 || y <= parent[y] then 0
    else 1 + Distance(parent, parent[y], p)
  }

  /** A node below child `q` of `p` is below `p` through `q`, one level deeper. */
  lemma {:induction false} ChainLift(parent: seq<int>, y: nat, q: nat, p: int)
    requires ParentsBelow(parent)
    requires q < |parent| && parent[q] == p && Top(parent, y, q) != -1
    ensures Top(parent, y, p) == q
    ensures Distance(parent, y, p) == Distance(parent, y, q) + 1
    decreases y
  {
    var t := Top(parent, y, q);
    assert parent[t] == q && q < t <= y;
    if parent[y] != q {
      ChainLift(parent, parent[y], q, p);
    }
  }

  /** On a forest, every visit of the walk of children `ids` of `p` is of a
      node descending from one of `ids`, and its depth is the starting depth
      plus its nesting depth below `p`. */
  lemma {:induction false} WalkAncestry(c: seq<seq<nat>>, parent: seq<int>, p: int, ids: seq<nat>, depth: int, v: Visit)
    requires TreeShaped(c, parent) && ChildrenOf(parent, p, ids)
    requires v in Walk(c, p, ids, depth)
    ensures Top(parent, v.id, p) in ids
    ensures v.depth == depth + Distance(parent, v.id, p)
    decreases |c| - p, |ids|
  {
    var i0 := ids[0];
    var a := Walk(c, i0, c[i0], depth + 1);
    var b := Walk(c, p, ids[1..], depth);
    assert Walk(c, p, ids, depth) == [Visit(i0, depth)] + a + b;
    if v in a {
      WalkAncestry(c, parent, i0, c[i0], depth + 1, v);
      ChainLift(parent, v.id, i0, p);
    } else if v in b {
      WalkAncestry(c, parent, p, ids[1..], depth, v);
    }
  }

  /** Every listed node descends from one of `ids`. */
  lemma OrderAncestry(c: seq<seq<nat>>, parent: seq<int>, p: int, ids: seq<nat>, y: nat)
    requires TreeShaped(c, parent) && ChildrenOf(parent, p, ids)
    requires y in Order(c, p, ids)
    ensures Top(parent, y, p) in ids
  {
    WalkOrder(c, p, ids, 0);
    var w := Walk(c, p, ids, 0);
    var k :| 0 <= k < |w| && Ids(w)[k] == y;
    WalkAncestry(c, parent, p, ids, 0, w[k]);
  }

  /** On a forest the listing of distinct children names every node once. */
  lemma {:induction false} OrderNoDup(c: seq<seq<nat>>, parent: seq<int>, p: int, ids: seq<nat>)
    requires TreeShaped(c, parent) && ChildrenOf(parent, p, ids) && NoDup(ids)
    ensures NoDup(Order(c, p, ids))
    decreases |c| - p, |ids|
  {
    if !(ids == [] || ids[0] <= p || |c| <= ids[0]) {
      var i0 := ids[0];
      var rest := ids[1..];
      var a := Order(c, i0, c[i0]);
      var b := Order(c, p, rest);
      TailNoDup(ids);
      assert ChildrenOf(parent, p, rest);
      OrderNoDup(c, parent, i0, c[i0]);
      OrderNoDup(c, parent, p, rest);
      SubtreesApart(c, parent, p, i0, rest);
      NoDupJoin(a, b);
      assert forall y :: y in [i0] ==> y !in a + b;
      NoDupJoin([i0], a + b);
      assert Order(c, p, ids) == [i0] + (a + b);
    }
  }

  /** The tail of a list without repeats has none either, and lacks the head. */
  lemma TailNoDup(ids: seq<nat>)
    requires NoDup(ids) && ids != []
    ensures NoDup(ids[1..]) && ids[0] !in ids[1..]
  {
    var rest := ids[1..];
    forall s, t | 0 <= s < t < |rest| ensures rest[s] != rest[t] {
      assert rest[s] == ids[s + 1] && rest[t] == ids[t + 1];
    }
    forall s | 0 <= s < |rest| ensures rest[s] != ids[0] {
      assert rest[s] == ids[s + 1];
    }
  }

  /** On a forest, the subtree of child `i0` of `p` shares no node with the
      listing of `p`'s other children `rest`, and `i0` is not in it either. */
  lemma SubtreesApart(c: seq<seq<nat>>, parent: seq<int>, p: int, i0: nat, rest: seq<nat>)
    requires TreeShaped(c, parent) && ChildrenOf(parent, p, rest)
    requires i0 < |c| && parent[i0] == p && i0 !in rest
    ensures i0 !in Order(c, p, rest) && i0 !in Order(c, i0, c[i0])
    ensures forall y :: y in Order(c, i0, c[i0]) ==> y !in Order(c, p, rest)
  {
    OrderBounds(c, i0, c[i0]);
    if i0 in Order(c, p, rest) {
      OrderAncestry(c, parent, p, rest, i0);
    }
    forall y | y in Order(c, i0, c[i0]) ensures y !in Order(c, p, rest) {
      SubtreeApart(c, parent, p, i0, rest, y);
    }
  }

  lemma SubtreeApart(c: seq<seq<nat>>, parent: seq<int>, p: int, i0: nat, rest: seq<nat>, y: nat)
    requires TreeShaped(c, parent) && ChildrenOf(parent, p, rest)
    requires i0 < |c| && parent[i0] == p && i0 !in rest
    requires y in Order(c, i0, c[i0])
    ensures y !in Order(c, p, rest)
  {
    OrderAncestry(c, parent, i0, c[i0], y);
    ChainLift(parent, y, i0, p);
    if y in Order(c, p, rest) {
      OrderAncestry(c, parent, p, rest, y);
    }
  }

  /** Every listed node is one of `ids` or a child of a listed node: together
      with `OrderClosed` and `OrderBounds`, the listing holds exactly the nodes
      reachable from `ids` through children. */
  lemma {:induction false} OrderOrigin(c: seq<seq<nat>>, p: int, ids: seq<nat>, y: nat)
    requires y in Order(c, p, ids)
    ensures y in ids || exists x :: x in Order(c, p, ids) && x < |c| && y in c[x]
    decreases |c| - p, |ids|
  {
    var i0 := ids[0];
    var a := Order(c, i0, c[i0]);
    var b := Order(c, p, ids[1..]);
    assert Order(c, p, ids) == [i0] + a + b;
    if y in a {
      OrderOrigin(c, i0, c[i0], y);
      if y in c[i0] {
        assert i0 in Order(c, p, ids);
      }
    } else if y in b {
      OrderOrigin(c, p, ids[1..], y);
      if y in ids[1..] {
        assert ids == [i0] + ids[1..];
      }
    }
  }

  /** The levels a walk of `p`'s children leaves behind on a forest: every
      listed node ends at the starting level plus its nesting depth below `p`,
      and every other node keeps its level. */
  lemma WalkLevels(c: seq<seq<nat>>, parent: seq<int>, p: nat, lvl: int, level: seq<int>, y: nat)
    requires TreeShaped(c, parent) && p < |c| && |level| == |c| && y < |c|
    ensures y in Order(c, p, c[p]) ==> Stamp(level, Walk(c, p, c[p], lvl))[y] == lvl + Distance(parent, y, p)
    ensures y !in Order(c, p, c[p]) ==> Stamp(level, Walk(c, p, c[p], lvl))[y] == level[y]
  {
    var w := Walk(c, p, c[p], lvl);
    WalkOrder(c, p, c[p], lvl);
    if y in Order(c, p, c[p]) {
      OrderNoDup(c, parent, p, c[p]);
      var k :| 0 <= k < |w| && Ids(w)[k] == y;
      WalkAncestry(c, parent, p, c[p], lvl, w[k]);
      StampVisited(level, w, w[k]);
    } else {
      StampOutside(level, w, y);
    }
  }
}
