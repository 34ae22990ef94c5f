/**
 The plan graph compiler: a Kahn sort with a (kind, name) ready list, the checks made before it
 and the depth-first search that names the cycle when the sort stops early.

 Nodes and slots are compared by identity, so both are objects; nothing about them changes.
 */
module PlanGraph {
  import opened Ordering
  import opened Slots

  class PlanNode {
    const kind: int
    const name: string
    const after: seq<PlanNode>
    const readSlots: seq<ValueSlot>
    const writeSlots: seq<ValueSlot>

    constructor (kind: int, name: string, after: seq<PlanNode>, readSlots: seq<ValueSlot>, writeSlots: seq<ValueSlot>)
      ensures this.kind == kind && this.name == name && this.after == after
      ensures this.readSlots == readSlots && this.writeSlots == writeSlots
    {
      this.kind, this.name, this.after := kind, name, after;
      this.readSlots, this.writeSlots := readSlots, writeSlots;
    }
  }

  type Edges = map<PlanNode, set<PlanNode>>

  datatype GraphError =
    | DuplicateIdentity
    | UnknownDependency(node: PlanNode)
    | PhaseBackEdge(source: PlanNode, target: PlanNode)
    | WriterConflict(slot: ValueSlot, previous: PlanNode, node: PlanNode)
    | Cycle(path: seq<PlanNode>)

  datatype Result<+T> = Ok(value: T) | Err(error: GraphError)

  // ----- What the input says, whatever order it is listed in

  /** `a` must run before `b`: declared, or `a` writes a slot that `b` reads. */
  ghost predicate Edge(nodes: seq<PlanNode>, a: PlanNode, b: PlanNode) {
    && a in nodes && b in nodes
    && (a in b.after || (a != b && exists s :: s in a.writeSlots && s in b.readSlots))
  }

  /** A walk along edges that ends where it started. */
  ghost predicate ClosedWalk(nodes: seq<PlanNode>, older walk: seq<PlanNode>) {
    && |walk| >= 2 && walk[0] == walk[|walk| - 1]
    && (forall i :: 0 <= i < |walk| ==> walk[i] in nodes)
    && (forall i :: 0 <= i < |walk| - 1 ==> Edge(nodes, walk[i], walk[i + 1]))
  }

  ghost predicate KnownDependencies(nodes: seq<PlanNode>) {
    forall n, d :: n in nodes && d in n.after ==> d in nodes
  }

  /** The `i`th write of `a` and the `j`th write of `b` are writes of one slot. */
  ghost predicate SameSlot(a: PlanNode, i: int, b: PlanNode, j: int) {
    && 0 <= i < |a.writeSlots| && 0 <= j < |b.writeSlots|
    && a.writeSlots[i] == b.writeSlots[j]
  }

  ghost predicate OneWriterPerSlot(nodes: seq<PlanNode>) {
    forall a, b, i, j ::
      a in nodes && b in nodes && SameSlot(a, i, b, j) ==> a == b && i == j
  }

  ghost predicate NoBackEdge(nodes: seq<PlanNode>) {
    forall a, b :: a in nodes && b in nodes && Edge(nodes, a, b) ==> a.kind <= b.kind
  }

  ghost predicate Acyclic(nodes: seq<PlanNode>) {
    !exists walk :: ClosedWalk(nodes, walk)
  }

  ghost predicate Compilable(nodes: seq<PlanNode>) {
    && Distinct(nodes) && KnownDependencies(nodes) && OneWriterPerSlot(nodes)
    && NoBackEdge(nodes) && Acyclic(nodes)
  }

  /** What an error says is so. */
  ghost predicate Justified(nodes: seq<PlanNode>, e: GraphError) {
    match e
    case DuplicateIdentity => !Distinct(nodes)
    case UnknownDependency(n) => n in nodes && exists d :: d in n.after && d !in nodes
    case PhaseBackEdge(a, b) => Edge(nodes, a, b) && a.kind > b.kind
    case WriterConflict(s, a, b) =>
      && a in nodes && b in nodes
      && exists i, j :: SameSlot(a, i, b, j) && (a != b || i != j) && a.writeSlots[i] == s
    case Cycle(walk) => ClosedWalk(nodes, walk)
  }

  lemma JustifiedErrorRefuses(nodes: seq<PlanNode>, e: GraphError)
    requires Justified(nodes, e)
    ensures !Compilable(nodes)
  {
  }

  // ----- Priority

  predicate KeyLe(a: PlanNode, b: PlanNode) {
    a.kind < b.kind || (a.kind == b.kind && StringLe(a.name, b.name))
  }

  ghost predicate DistinctKeys(nodes: seq<PlanNode>) {
    forall a, b :: a in nodes && b in nodes && a.kind == b.kind && a.name == b.name ==> a == b
  }

  lemma KeyLeOrders(s: seq<PlanNode>)
    ensures OrdersAll(s, KeyLe)
  {
    forall x, y | x in s && y in s ensures KeyLe(x, y) || KeyLe(y, x) {
      StringLeTotal(x.name, y.name);
    }
    forall x, y, z | x in s && y in s && z in s && KeyLe(x, y) && KeyLe(y, z) ensures KeyLe(x, z) {
      if x.kind == y.kind == z.kind {
        StringLeTransitive(x.name, y.name, z.name);
      }
    }
  }

  // ----- Linear extensions and the greedy one

  ghost predicate LinearExtension(nodes: seq<PlanNode>, order: seq<PlanNode>) {
    && multiset(order) == multiset(nodes)
    && (forall i, j :: 0 <= i < |order| && 0 <= j < |order| && Edge(nodes, order[i], order[j]) ==> i < j)
  }

  /** `n` may run next once `done` has run. */
  ghost predicate Available(nodes: seq<PlanNode>, n: PlanNode, done: seq<PlanNode>) {
    n in nodes && n !in done && forall p :: p in nodes && Edge(nodes, p, n) ==> p in done
  }

  /** Every position holds an available node whose key no available node undercuts. */
  ghost predicate Greedy(nodes: seq<PlanNode>, order: seq<PlanNode>) {
    forall i :: 0 <= i < |order| ==> LeastAvailable(nodes, order[i], order[..i])
  }

  ghost predicate LeastAvailable(nodes: seq<PlanNode>, n: PlanNode, done: seq<PlanNode>) {
    Available(nodes, n, done) && forall m :: m in nodes && Available(nodes, m, done) ==> KeyLe(n, m)
  }

  /** Everything `n` waits for is in `done`. */
  ghost predicate Freed(nodes: seq<PlanNode>, n: PlanNode, done: seq<PlanNode>) {
    forall p :: p in nodes && Edge(nodes, p, n) ==> p in done
  }

  predicate SameKey(a: PlanNode, b: PlanNode) {
    a.kind == b.kind && a.name == b.name
  }

  /** With one key, `a` goes before `b` only if it could run no later than `b`, and, when both could from the
      start, is listed before it. */
  ghost predicate Yields(nodes: seq<PlanNode>, done: seq<PlanNode>, a: PlanNode, b: PlanNode) {
    SameKey(a, b) ==>
      && (forall k :: 0 <= k <= |done| && Freed(nodes, b, done[..k]) ==> Freed(nodes, a, done[..k]))
      && (Freed(nodes, b, []) ==> a in nodes && b in nodes && IndexOf(nodes, a) < IndexOf(nodes, b))
  }

  /** Equal keys stand in `line` in the order they became free while `done` ran. */
  ghost predicate FirstCome(nodes: seq<PlanNode>, done: seq<PlanNode>, line: seq<PlanNode>) {
    forall i, j :: 0 <= i < j < |line| ==> Yields(nodes, done, line[i], line[j])
  }

  /** What a compiled plan is. */
  ghost predicate Compiled(nodes: seq<PlanNode>, order: seq<PlanNode>) {
    Greedy(nodes, order) && LinearExtension(nodes, order) && FirstCome(nodes, order, order)
  }

  /** At the first place where `a` and `b` differ, `a` has the smaller key. */
  ghost predicate LexLe(a: seq<PlanNode>, b: seq<PlanNode>) {
    forall k :: 0 <= k < |a| && k < |b| && a[..k] == b[..k] && a[k] != b[k] ==> KeyLe(a[k], b[k]) && !KeyLe(b[k], a[k])
  }

  lemma GreedyDistinct(nodes: seq<PlanNode>, order: seq<PlanNode>)
    requires Greedy(nodes, order)
    ensures Distinct(order)
    ensures forall n :: n in order ==> n in nodes
  {
    forall i, j | 0 <= i < j < |order| ensures order[i] != order[j] {
      assert LeastAvailable(nodes, order[j], order[..j]);
      assert order[..j][i] == order[i];
    }
    forall n | n in order ensures n in nodes {
      var i :| 0 <= i < |order| && order[i] == n;
      assert LeastAvailable(nodes, order[i], order[..i]);
    }
  }

  lemma GreedyIsLinearExtension(nodes: seq<PlanNode>, order: seq<PlanNode>)
    requires Distinct(nodes) && Greedy(nodes, order) && |order| == |nodes|
    ensures LinearExtension(nodes, order)
  {
    GreedyDistinct(nodes, order);
    DistinctIffCardinality(nodes);
    DistinctFillsSet(order, Elements(nodes));
    DistinctSameElements(order, nodes);
    forall i, j | 0 <= i < |order| && 0 <= j < |order| && Edge(nodes, order[i], order[j]) ensures i < j {
      assert LeastAvailable(nodes, order[j], order[..j]);
      var k :| 0 <= k < j && order[..j][k] == order[i];
      assert order[k] == order[i];
    }
  }

  lemma LinearExtensionAvailable(nodes: seq<PlanNode>, order: seq<PlanNode>, k: nat)
    requires Distinct(nodes) && LinearExtension(nodes, order) && k < |order|
    ensures Available(nodes, order[k], order[..k])
  {
    DistinctFromMultiset(nodes, order);
    assert order[k] in multiset(order);
    forall p | p in nodes && Edge(nodes, p, order[k]) ensures p in order[..k] {
      assert p in multiset(nodes);
      var i :| 0 <= i < |order| && order[i] == p;
      assert order[..k][i] == p;
    }
  }

  /** The compiled order comes first, by (kind, name), among all linear extensions. */
  lemma CompiledOrderIsLeast(nodes: seq<PlanNode>, order: seq<PlanNode>, other: seq<PlanNode>)
    requires Distinct(nodes) && DistinctKeys(nodes)
    requires Greedy(nodes, order) && LinearExtension(nodes, other)
    ensures LexLe(order, other)
  {
    forall k | 0 <= k < |order| && k < |other| && order[..k] == other[..k] && order[k] != other[k]
      ensures KeyLe(order[k], other[k]) && !KeyLe(other[k], order[k])
    {
      LinearExtensionAvailable(nodes, other, k);
      assert LeastAvailable(nodes, order[k], order[..k]);
      if KeyLe(other[k], order[k]) {
        StringLeAntisymmetric(order[k].name, other[k].name);
      }
    }
  }

  /** Listing the same nodes in another order compiles to the same plan. */
  lemma CompiledOrderIgnoresListing(nodes: seq<PlanNode>, order: seq<PlanNode>,
                                    nodes': seq<PlanNode>, order': seq<PlanNode>)
    requires multiset(nodes) == multiset(nodes') && Distinct(nodes) && DistinctKeys(nodes)
    requires Greedy(nodes, order) && |order| == |nodes|
    requires Greedy(nodes', order') && |order'| == |nodes'|
    ensures order == order'
  {
    SameMultisetSameElements(nodes, nodes');
    DistinctFromMultiset(nodes, nodes');
    SameNodesSameEdges(nodes, nodes');
    GreedyIsLinearExtension(nodes, order);
    GreedyIsLinearExtension(nodes', order');
    CompiledOrderIsLeast(nodes, order, order');
    CompiledOrderIsLeast(nodes', order', order);
    assert |multiset(nodes)| == |nodes| && |multiset(nodes')| == |nodes'|;
    LexAntisymmetric(order, order');
  }

  /** Two unconnected nodes with one key: the plan is the listing, so it does depend on the listing. */
  lemma EqualKeysFollowListing(a: PlanNode, b: PlanNode, order: seq<PlanNode>)
    requires a != b && SameKey(a, b) && Compiled([a, b], order)
    requires forall m, n :: !Edge([a, b], m, n)
    ensures order == [a, b]
  {
    var nodes := [a, b];
    assert |multiset(order)| == |multiset(nodes)| == 2;
    assert order[0] in multiset(order) && order[1] in multiset(order);
    assert order[0] in nodes && order[1] in nodes;
    GreedyDistinct(nodes, order);
    assert Freed(nodes, order[1], []) && Yields(nodes, order, order[0], order[1]);
    assert IndexOf(nodes, a) == 0;
  }

  /** A twin listed first but held up by a third node runs after the other, in every greedy order. */
  lemma HeldUpTwinRunsLater(a: PlanNode, b: PlanNode, c: PlanNode, order: seq<PlanNode>)
    requires Distinct([a, b, c]) && SameKey(a, b) && !KeyLe(c, b)
    requires forall m, n :: Edge([a, b, c], m, n) <==> m == c && n == a
    requires Greedy([a, b, c], order) && |order| == 3
    ensures order == [b, c, a]
  {
    var nodes := [a, b, c];
    assert LeastAvailable(nodes, order[0], order[..0]) && LeastAvailable(nodes, order[1], order[..1]);
    assert LeastAvailable(nodes, order[2], order[..2]);
    assert Available(nodes, b, []) && order[..0] == [] && order[..1] == [order[0]];
    assert order[..2] == [order[0], order[1]];
  }

  /** In a compiled plan a node runs before another that could have run instead only if it is of an earlier kind, or of
      the same kind and its name is the other's, begins it, or has the smaller character where the two first differ. */
  lemma RunsBefore(nodes: seq<PlanNode>, order: seq<PlanNode>, i: nat, other: PlanNode)
    requires Compiled(nodes, order) && i < |order| && Available(nodes, other, order[..i])
    ensures var a, b := order[i], other;
            a.kind < b.kind
            || (a.kind == b.kind && (a.name <= b.name || exists p: nat :: SmallerAt(a.name, b.name, p)))
  {
    assert LeastAvailable(nodes, order[i], order[..i]);
    StringLeFirstDifference(order[i].name, other.name);
  }

  // ----- When the keys leave no choice

  /** Two different nodes may run next and neither has the smaller key. */
  ghost predicate Tie(nodes: seq<PlanNode>, older done: seq<PlanNode>, older a: PlanNode, older b: PlanNode) {
    && (forall i :: 0 <= i < |done| ==> done[i] in nodes) && Greedy(nodes, done)
    && a != b && LeastAvailable(nodes, a, done) && LeastAvailable(nodes, b, done)
  }

  /** A walk of nodes that have not run, each waiting for the one before it. */
  ghost predicate WaitingWalk(nodes: seq<PlanNode>, done: seq<PlanNode>, older walk: seq<PlanNode>) {
    && (forall i :: 0 <= i < |walk| ==> walk[i] in nodes && walk[i] !in done)
    && (forall i :: 0 <= i < |walk| - 1 ==> Edge(nodes, walk[i], walk[i + 1]))
  }

  lemma {:induction false} WalkBack(nodes: seq<PlanNode>, done: seq<PlanNode>, n: PlanNode, length: nat)
      returns (walk: seq<PlanNode>)
    requires Stuck(nodes, done) && n in nodes && n !in done
    ensures |walk| == length + 1 && walk[length] == n && WaitingWalk(nodes, done, walk)
    decreases length
  {
    if length == 0 {
      walk := [n];
    } else {
      assert Blocked(nodes, n, done);
      var p :| p in nodes && Edge(nodes, p, n) && p !in done;
      var rest := WalkBack(nodes, done, p, length - 1);
      walk := rest + [n];
    }
  }

  lemma RepeatedWalkCloses(nodes: seq<PlanNode>, done: seq<PlanNode>, walk: seq<PlanNode>, i: nat, j: nat)
    requires WaitingWalk(nodes, done, walk) && i < j < |walk| && walk[i] == walk[j]
    ensures ClosedWalk(nodes, walk[i..j + 1])
  {
    var closed := walk[i..j + 1];
    forall k | 0 <= k < |closed| - 1 ensures Edge(nodes, closed[k], closed[k + 1]) {
      assert closed[k] == walk[i + k] && closed[k + 1] == walk[i + k + 1];
    }
  }

  /** In an acyclic graph something can always run. */
  lemma SomethingAvailable(nodes: seq<PlanNode>, done: seq<PlanNode>, n: PlanNode) returns (next: PlanNode)
    requires Acyclic(nodes) && n in nodes && n !in done
    ensures Available(nodes, next, done)
  {
    if m :| m in nodes && m !in done && !Blocked(nodes, m, done) {
      next := m;
    } else {
      var walk := WalkBack(nodes, done, n, |nodes|);
      if Distinct(walk) {
        DistinctIffCardinality(walk);
        DistinctIffCardinality(nodes);
        CardinalityMonotone(Elements(walk), Elements(nodes));
        assert false;
      }
      var i, j :| 0 <= i < j < |walk| && walk[i] == walk[j];
      RepeatedWalkCloses(nodes, done, walk, i, j);
      assert false;
    }
  }

  lemma {:induction false} LeastOf(some: set<PlanNode>) returns (least: PlanNode)
    requires some != {}
    ensures least in some && forall m :: m in some ==> KeyLe(least, m)
    decreases |some|
  {
    least :| least in some;
    var rest := some - {least};
    StringLeTotal(least.name, least.name);
    assert forall m :: m in some ==> m == least || m in rest;
    if rest != {} {
      var other := LeastOf(rest);
      KeyLeOrders([least, other]);
      if !KeyLe(least, other) {
        least := other;
      } else {
        forall m | m in rest ensures KeyLe(least, m) {
          KeyLeOrders([least, other, m]);
        }
      }
    }
  }

  lemma SomethingLeft(nodes: seq<PlanNode>, done: seq<PlanNode>) returns (n: PlanNode)
    requires Distinct(nodes) && |done| < |nodes|
    ensures n in nodes && n !in done
  {
    if forall m :: m in nodes ==> m in done {
      DistinctIffCardinality(nodes);
      DistinctIffCardinality(done);
      assert Elements(nodes) <= Elements(done);
      CardinalityMonotone(Elements(nodes), Elements(done));
      assert false;
    }
    n :| n in nodes && n !in done;
  }

  lemma SomethingLeast(nodes: seq<PlanNode>, done: seq<PlanNode>) returns (next: PlanNode)
    requires Distinct(nodes) && Acyclic(nodes) && |done| < |nodes|
    ensures LeastAvailable(nodes, next, done)
  {
    var n := SomethingLeft(nodes, done);
    var some := SomethingAvailable(nodes, done, n);
    var available := set m | m in nodes && Available(nodes, m, done);
    assert some in available;
    next := LeastOf(available);
  }

  /** Every greedy beginning goes on to a whole order. */
  lemma {:induction false} GreedyCompletes(nodes: seq<PlanNode>, done: seq<PlanNode>) returns (order: seq<PlanNode>)
    requires Distinct(nodes) && Acyclic(nodes) && Greedy(nodes, done)
    ensures Greedy(nodes, order) && |order| == |nodes| && done <= order
    decreases |nodes| - |done|
  {
    GreedyWithin(nodes, done);
    if |done| == |nodes| {
      order := done;
    } else {
      var next := SomethingLeast(nodes, done);
      GreedyExtends(nodes, done, next);
      order := GreedyCompletes(nodes, done + [next]);
    }
  }

  /** No greedy beginning leaves two different nodes that tie for least. */
  ghost predicate NoTies(nodes: seq<PlanNode>) {
    !exists done, x, y :: Tie(nodes, done, x, y)
  }

  lemma NoTieSameNode(nodes: seq<PlanNode>, a: seq<PlanNode>, b: seq<PlanNode>, n: nat)
    requires Greedy(nodes, a) && Greedy(nodes, b) && n < |a| && n < |b| && a[..n] == b[..n] && NoTies(nodes)
    ensures a[n] == b[n]
  {
    assert LeastAvailable(nodes, a[n], a[..n]) && LeastAvailable(nodes, b[n], b[..n]);
    GreedyPrefix(nodes, a, n);
    GreedyDistinct(nodes, a[..n]);
    assert Tie(nodes, a[..n], a[n], b[n]) <==> a[n] != b[n];
  }

  /** Without ties, greedy orders agree as far as they go. */
  lemma {:induction false} NoTieSameOrder(nodes: seq<PlanNode>, a: seq<PlanNode>, b: seq<PlanNode>, n: nat)
    requires Greedy(nodes, a) && Greedy(nodes, b) && n <= |a| && n <= |b| && NoTies(nodes)
    ensures a[..n] == b[..n]
    decreases n
  {
    if n > 0 {
      NoTieSameOrder(nodes, a, b, n - 1);
      NoTieSameNode(nodes, a, b, n - 1);
      LastOfPrefix(a, n);
      LastOfPrefix(b, n);
    }
  }

  lemma GreedyPrefix(nodes: seq<PlanNode>, order: seq<PlanNode>, n: nat)
    requires Greedy(nodes, order) && n <= |order|
    ensures Greedy(nodes, order[..n])
  {
    forall i | 0 <= i < n ensures LeastAvailable(nodes, order[..n][i], order[..n][..i]) {
      assert order[..n][..i] == order[..i];
      assert LeastAvailable(nodes, order[i], order[..i]);
    }
  }

  ghost predicate FullGreedy(nodes: seq<PlanNode>, older order: seq<PlanNode>) {
    Greedy(nodes, order) && |order| == |nodes|
  }

  /** A compilable graph has one greedy order exactly when no greedy beginning leaves two nodes that tie. */
  lemma OneGreedyOrderIff(nodes: seq<PlanNode>)
    requires Compilable(nodes)
    ensures (forall a, b :: FullGreedy(nodes, a) && FullGreedy(nodes, b) ==> a == b)
       <==> NoTies(nodes)
  {
    if done, x, y :| Tie(nodes, done, x, y) {
      GreedyExtends(nodes, done, x);
      GreedyExtends(nodes, done, y);
      var a := GreedyCompletes(nodes, done + [x]);
      var b := GreedyCompletes(nodes, done + [y]);
      assert a[|done|] == x && b[|done|] == y;
      assert FullGreedy(nodes, a) && FullGreedy(nodes, b);
    } else {
      forall a, b | FullGreedy(nodes, a) && FullGreedy(nodes, b) ensures a == b {
        NoTieSameOrder(nodes, a, b, |nodes|);
        assert a[..|nodes|] == a && b[..|nodes|] == b;
      }
    }
  }

  lemma SameNodesSameEdges(nodes: seq<PlanNode>, nodes': seq<PlanNode>)
    requires multiset(nodes) == multiset(nodes')
    ensures forall n :: n in nodes <==> n in nodes'
    ensures forall a, b :: Edge(nodes, a, b) <==> Edge(nodes', a, b)
  {
    SameMultisetSameElements(nodes, nodes');
    forall a, b ensures Edge(nodes, a, b) <==> Edge(nodes', a, b) {
      assert a in nodes <==> a in nodes';
      assert b in nodes <==> b in nodes';
    }
  }

  lemma LexAntisymmetric(a: seq<PlanNode>, b: seq<PlanNode>)
    requires |a| == |b| && LexLe(a, b) && LexLe(b, a)
    ensures a == b
  {
    var k := 0;
    while k < |a| && a[k] == b[k]
      invariant k <= |a| && a[..k] == b[..k]
    {
      k := k + 1;
    }
  }

  /** Whether a plan compiles does not depend on the order its nodes are listed in. */
  lemma CompilableIgnoresListing(nodes: seq<PlanNode>, nodes': seq<PlanNode>)
    requires multiset(nodes) == multiset(nodes')
    ensures Compilable(nodes) ==> Compilable(nodes')
  {
    SameNodesSameEdges(nodes, nodes');
    forall walk | ClosedWalk(nodes', walk) ensures ClosedWalk(nodes, walk) {
    }
    if Compilable(nodes) {
      DistinctFromMultiset(nodes, nodes');
    }
  }

  /** Phases come out in order: the plan never goes back to an earlier kind. */
  lemma CompiledKindsAscend(nodes: seq<PlanNode>, order: seq<PlanNode>, i: nat, j: nat)
    requires NoBackEdge(nodes) && Greedy(nodes, order) && i <= j < |order|
    ensures order[i].kind <= order[j].kind
    decreases j - i
  {
    if i < j {
      CompiledKindsAscend(nodes, order, i, j - 1);
      var a, b := order[j - 1], order[j];
      assert LeastAvailable(nodes, a, order[..j - 1]) && LeastAvailable(nodes, b, order[..j]);
      LastOfPrefix(order, j);
      NextKind(nodes, a, b, order[..j - 1]);
    }
  }

  lemma NextKind(nodes: seq<PlanNode>, a: PlanNode, b: PlanNode, done: seq<PlanNode>)
    requires NoBackEdge(nodes) && LeastAvailable(nodes, a, done) && LeastAvailable(nodes, b, done + [a])
    ensures a.kind <= b.kind
  {
    if !Edge(nodes, a, b) {
      assert Available(nodes, b, done);
    }
  }

  /** A list that respects every edge rules out closed walks. */
  lemma LinearExtensionAcyclic(nodes: seq<PlanNode>, order: seq<PlanNode>)
    requires LinearExtension(nodes, order)
    ensures Acyclic(nodes)
  {
    if walk :| ClosedWalk(nodes, walk) {
      WalkClimbs(nodes, order, walk, |walk| - 1);
    }
  }

  lemma {:induction false} WalkClimbs(nodes: seq<PlanNode>, order: seq<PlanNode>, walk: seq<PlanNode>, k: nat)
    requires LinearExtension(nodes, order) && ClosedWalk(nodes, walk) && 1 <= k < |walk|
    ensures walk[0] in order && walk[k] in order && IndexOf(order, walk[0]) < IndexOf(order, walk[k])
  {
    forall i | 0 <= i < |walk| ensures walk[i] in order {
      assert walk[i] in nodes && walk[i] in multiset(nodes);
    }
    if k > 1 {
      WalkClimbs(nodes, order, walk, k - 1);
    }
    assert Edge(nodes, walk[k - 1], walk[k]);
    assert order[IndexOf(order, walk[k - 1])] == walk[k - 1];
  }

  // ----- The checks, and the edges they leave behind

  ghost predicate Within(nodes: seq<PlanNode>, edges: Edges) {
    edges.Keys == Elements(nodes) && forall a :: a in edges ==> edges[a] <= Elements(nodes)
  }

  ghost predicate Represents(nodes: seq<PlanNode>, edges: Edges) {
    && Within(nodes, edges)
    && forall a, b :: a in nodes && b in nodes ==> (b in edges[a] <==> Edge(nodes, a, b))
  }

  ghost predicate Sound(nodes: seq<PlanNode>) {
    KnownDependencies(nodes) && OneWriterPerSlot(nodes) && NoBackEdge(nodes)
  }

  /** What `after` alone contributes, from the first `i` nodes. */
  ghost predicate Declared(nodes: seq<PlanNode>, i: nat, edges: Edges)
    requires i <= |nodes|
  {
    && Within(nodes, edges)
    && (forall a, b :: a in nodes && b in nodes ==> (b in edges[a] <==> b in nodes[..i] && a in b.after))
    && (forall n, d :: n in nodes[..i] && d in n.after ==> d in nodes && d.kind <= n.kind)
  }

  /** `writers` names the one writer of each slot the first `i` nodes write. */
  ghost predicate Produced(nodes: seq<PlanNode>, i: nat, writers: map<ValueSlot, PlanNode>)
    requires i <= |nodes|
  {
    && OneWriterPerSlot(nodes[..i])
    && (forall n, s :: n in nodes[..i] && s in n.writeSlots ==> s in writers && writers[s] == n)
    && (forall s :: s in writers ==> writers[s] in nodes[..i] && s in writers[s].writeSlots)
  }

  /** A justified error of the checks before the sort. */
  ghost predicate Refuses(nodes: seq<PlanNode>, e: GraphError) {
    Justified(nodes, e) && !e.DuplicateIdentity? && !e.Cycle?
  }

  /** `out` is `edges` and an edge from each of `sources` to `node`. */
  ghost predicate Fanned(nodes: seq<PlanNode>, edges: Edges, out: Edges, sources: seq<PlanNode>, node: PlanNode) {
    && Within(nodes, edges) && Within(nodes, out)
    && forall a, b :: a in nodes && b in nodes ==> (b in out[a] <==> b in edges[a] || (b == node && a in sources))
  }

  lemma OneMoreFanned(nodes: seq<PlanNode>, edges: Edges, out: Edges, sources: seq<PlanNode>, node: PlanNode,
                      source: PlanNode)
    requires Fanned(nodes, edges, out, sources, node) && source in nodes && node in nodes
    ensures Fanned(nodes, edges, out[source := out[source] + {node}], sources + [source], node)
  {
  }

  lemma OneMoreDeclared(nodes: seq<PlanNode>, i: nat, before: Edges, edges: Edges)
    requires i < |nodes| && nodes[i] !in nodes[..i] && Declared(nodes, i, before)
    requires Fanned(nodes, before, edges, nodes[i].after, nodes[i])
    requires forall d :: d in nodes[i].after ==> d in nodes && d.kind <= nodes[i].kind
    ensures Declared(nodes, i + 1, edges)
  {
    assert nodes[..i + 1] == nodes[..i] + [nodes[i]];
  }

  method DeclareAfter(nodes: seq<PlanNode>, i: nat, edges: Edges) returns (r: Result<Edges>)
    requires i < |nodes| && nodes[i] !in nodes[..i] && Declared(nodes, i, edges)
    ensures r.Ok? ==> Declared(nodes, i + 1, r.value)
    ensures r.Err? ==> Refuses(nodes, r.error)
  {
    var node := nodes[i];
    var out := edges;
    var k := 0;
    while k < |node.after|
      invariant k <= |node.after| && Fanned(nodes, edges, out, node.after[..k], node)
      invariant forall d :: d in node.after[..k] ==> d in nodes && d.kind <= node.kind
    {
      var dependency := node.after[k];
      assert dependency in node.after;
      if dependency !in nodes {
        return Err(UnknownDependency(node));
      }
      if dependency.kind > node.kind {
        return Err(PhaseBackEdge(dependency, node));
      }
      OneMoreFanned(nodes, edges, out, node.after[..k], node, dependency);
      assert node.after[..k + 1] == node.after[..k] + [dependency];
      out := out[dependency := out[dependency] + {node}];
      k := k + 1;
    }
    assert node.after[..k] == node.after;
    OneMoreDeclared(nodes, i, edges, out);
    return Ok(out);
  }

  method RecordWriters(nodes: seq<PlanNode>, i: nat, writers: map<ValueSlot, PlanNode>)
      returns (r: Result<map<ValueSlot, PlanNode>>)
    requires i < |nodes| && nodes[i] !in nodes[..i] && Produced(nodes, i, writers)
    ensures r.Ok? ==> Produced(nodes, i + 1, r.value)
    ensures r.Err? ==> Refuses(nodes, r.error)
  {
    var node := nodes[i];
    var out := writers;
    var k := 0;
    while k < |node.writeSlots|
      invariant k <= |node.writeSlots|
      invariant forall p, q :: 0 <= p < q < k ==> node.writeSlots[p] != node.writeSlots[q]
      invariant forall p :: 0 <= p < k ==> node.writeSlots[p] in out && out[node.writeSlots[p]] == node
      invariant forall n, s :: n in nodes[..i] && s in n.writeSlots ==> s in out && out[s] == n
      invariant forall s :: s in out ==>
        (out[s] in nodes[..i] && s in out[s].writeSlots) || (out[s] == node && s in node.writeSlots[..k])
    {
      var slot := node.writeSlots[k];
      if slot in out {
        var previous := out[slot];
        assert slot in previous.writeSlots && (previous == node ==> slot in node.writeSlots[..k]);
        var p :| 0 <= p < |previous.writeSlots| && previous.writeSlots[p] == slot && (previous == node ==> p < k);
        assert SameSlot(previous, p, node, k);
        return Err(WriterConflict(slot, previous, node));
      }
      out := out[slot := node];
      k := k + 1;
    }
    assert nodes[..i + 1] == nodes[..i] + [node];
    forall a, b, p, q | a in nodes[..i + 1] && b in nodes[..i + 1] && SameSlot(a, p, b, q)
      ensures a == b && p == q
    {
      assert a.writeSlots[p] in a.writeSlots && b.writeSlots[q] in b.writeSlots;
      assert out[a.writeSlots[p]] == a && out[b.writeSlots[q]] == b;
    }
    return Ok(out);
  }

  /** `after`, and the writer of every slot the first `i` nodes read. */
  ghost predicate Wired(nodes: seq<PlanNode>, i: nat, edges: Edges)
    requires i <= |nodes|
  {
    && Within(nodes, edges)
    && (forall a, b :: a in nodes && b in nodes ==>
          (b in edges[a] <==> a in b.after || (b in nodes[..i] && Edge(nodes, a, b))))
    && (forall a, b :: a in nodes && b in nodes[..i] && Edge(nodes, a, b) ==> a.kind <= b.kind)
  }

  /** `sources` are the nodes other than `node` that write one of `slots`, none of a later phase. */
  ghost predicate Feed(nodes: seq<PlanNode>, sources: seq<PlanNode>, node: PlanNode, slots: seq<ValueSlot>) {
    forall a :: a in nodes ==>
      && (a in sources <==> a != node && exists s :: s in a.writeSlots && s in slots)
      && (a in sources ==> a.kind <= node.kind)
  }

  method WireReads(nodes: seq<PlanNode>, i: nat, writers: map<ValueSlot, PlanNode>, edges: Edges)
      returns (r: Result<Edges>)
    requires i < |nodes| && KnownDependencies(nodes) && Produced(nodes, |nodes|, writers)
    requires forall n, d :: n in nodes && d in n.after ==> d.kind <= n.kind
    requires Wired(nodes, i, edges)
    ensures r.Ok? ==> Wired(nodes, i + 1, r.value)
    ensures r.Err? ==> Refuses(nodes, r.error)
  {
    assert nodes[..|nodes|] == nodes;
    var node := nodes[i];
    var out := edges;
    ghost var sources: seq<PlanNode> := [];
    var k := 0;
    while k < |node.readSlots|
      invariant k <= |node.readSlots| && Fanned(nodes, edges, out, sources, node)
      invariant Feed(nodes, sources, node, node.readSlots[..k])
    {
      var slot := node.readSlots[k];
      assert node.readSlots[..k + 1] == node.readSlots[..k] + [slot];
      if slot in writers && writers[slot] != node {
        var source := writers[slot];
        assert slot in source.writeSlots && slot in node.readSlots;
        assert Edge(nodes, source, node);
        if source.kind > node.kind {
          return Err(PhaseBackEdge(source, node));
        }
        OneMoreFanned(nodes, edges, out, sources, node, source);
        out := out[source := out[source] + {node}];
        sources := sources + [source];
      }
      k := k + 1;
    }
    assert node.readSlots[..k] == node.readSlots;
    OneMoreWired(nodes, i, edges, out, sources);
    return Ok(out);
  }

  lemma OneMoreWired(nodes: seq<PlanNode>, i: nat, before: Edges, edges: Edges, sources: seq<PlanNode>)
    requires i < |nodes| && Wired(nodes, i, before)
    requires forall n, d :: n in nodes && d in n.after ==> d.kind <= n.kind
    requires Fanned(nodes, before, edges, sources, nodes[i]) && Feed(nodes, sources, nodes[i], nodes[i].readSlots)
    ensures Wired(nodes, i + 1, edges)
  {
    assert nodes[..i + 1] == nodes[..i] + [nodes[i]];
  }

  /** The pass over `after` and the written slots. */
  method DeclarationPass(nodes: seq<PlanNode>) returns (r: Result<(Edges, map<ValueSlot, PlanNode>)>)
    requires Distinct(nodes)
    ensures r.Ok? ==> Declared(nodes, |nodes|, r.value.0) && Produced(nodes, |nodes|, r.value.1)
    ensures r.Err? ==> Refuses(nodes, r.error)
  {
    var edges: Edges := map n | n in nodes :: {};
    var writers: map<ValueSlot, PlanNode> := map[];
    var i := 0;
    while i < |nodes|
      invariant i <= |nodes| && Declared(nodes, i, edges) && Produced(nodes, i, writers)
    {
      var declared := DeclareAfter(nodes, i, edges);
      if declared.Err? { return Err(declared.error); }
      edges := declared.value;
      var recorded := RecordWriters(nodes, i, writers);
      if recorded.Err? { return Err(recorded.error); }
      writers := recorded.value;
      i := i + 1;
    }
    return Ok((edges, writers));
  }

  /** Both passes over the nodes: the checks that come before the sort, and the edge table. */
  method CheckedEdges(nodes: seq<PlanNode>) returns (r: Result<Edges>)
    requires Distinct(nodes)
    ensures r.Ok? ==> Represents(nodes, r.value) && Sound(nodes)
    ensures r.Err? ==> Refuses(nodes, r.error)
  {
    var declared := DeclarationPass(nodes);
    if declared.Err? { return Err(declared.error); }
    var (edges, writers) := declared.value;
    assert nodes[..|nodes|] == nodes;
    var i := 0;
    while i < |nodes|
      invariant i <= |nodes| && Wired(nodes, i, edges)
    {
      var wired := WireReads(nodes, i, writers, edges);
      if wired.Err? { return wired; }
      edges := wired.value;
      i := i + 1;
    }
    return Ok(edges);
  }

  // ----- The sort

  /** The nodes `n` still waits for. */
  ghost function Waiting(nodes: seq<PlanNode>, n: PlanNode, done: seq<PlanNode>): set<PlanNode> {
    set p | p in nodes && Edge(nodes, p, n) && p !in done
  }

  /** `indegree` counts what each node waits for, where `pending` nodes wait for one more. */
  ghost predicate Counts(nodes: seq<PlanNode>, done: seq<PlanNode>, pending: set<PlanNode>,
                         indegree: map<PlanNode, int>) {
    && indegree.Keys == Elements(nodes)
    && forall n :: n in nodes ==> indegree[n] == |Waiting(nodes, n, done)| + (if n in pending then 1 else 0)
  }

  /** `ready` lists, once each and in priority order, what may run after `done`. */
  ghost predicate Ready(nodes: seq<PlanNode>, done: seq<PlanNode>, indegree: map<PlanNode, int>, ready: seq<PlanNode>)
    requires indegree.Keys == Elements(nodes)
  {
    && Distinct(ready) && SortedBy(ready, KeyLe)
    && (forall n :: n in ready ==> n in nodes)
    && (forall n :: n in nodes ==> (n in ready <==> n !in done && indegree[n] == 0))
  }

  ghost function Sources(nodes: seq<PlanNode>, n: PlanNode, among: set<PlanNode>): set<PlanNode> {
    set p | p in among && Edge(nodes, p, n)
  }

  lemma CountOneMore(nodes: seq<PlanNode>, n: PlanNode, counted: set<PlanNode>, source: PlanNode)
    requires source !in counted
    ensures |Sources(nodes, n, counted + {source})|
         == |Sources(nodes, n, counted)| + (if Edge(nodes, source, n) then 1 else 0)
  {
    var before := Sources(nodes, n, counted);
    assert Sources(nodes, n, counted + {source}) == if Edge(nodes, source, n) then before + {source} else before;
  }

  method CountIndegrees(nodes: seq<PlanNode>, edges: Edges) returns (indegree: map<PlanNode, int>)
    requires Represents(nodes, edges)
    ensures Counts(nodes, [], {}, indegree)
  {
    indegree := map n | n in nodes :: 0;
    var sources := edges.Keys;
    NoSources(nodes, edges.Keys - sources);
    while sources != {}
      invariant sources <= edges.Keys && indegree.Keys == Elements(nodes)
      invariant forall n :: n in nodes ==> indegree[n] == |Sources(nodes, n, edges.Keys - sources)|
    {
      var source :| source in sources;
      indegree := CountTargets(nodes, edges, edges.Keys - sources, source, indegree);
      MoveOver(edges.Keys, sources, source);
      sources := sources - {source};
    }
    forall n | n in nodes ensures indegree[n] == |Waiting(nodes, n, [])| {
      AllSources(nodes, n, edges.Keys - sources);
    }
  }

  /** The inner loop of the count: every target of `source` waits for one more. */
  method CountTargets(nodes: seq<PlanNode>, edges: Edges, ghost counted: set<PlanNode>, source: PlanNode,
                      indegree: map<PlanNode, int>)
      returns (indegree': map<PlanNode, int>)
    requires Represents(nodes, edges) && source in edges && source !in counted && indegree.Keys == Elements(nodes)
    requires forall n :: n in nodes ==> indegree[n] == |Sources(nodes, n, counted)|
    ensures indegree'.Keys == Elements(nodes)
    ensures forall n :: n in nodes ==> indegree'[n] == |Sources(nodes, n, counted + {source})|
  {
    indegree' := indegree;
    var targets := edges[source];
    while targets != {}
      invariant targets <= edges[source] && indegree'.Keys == indegree.Keys
      invariant forall n :: n in indegree ==>
                  indegree'[n] == indegree[n] + (if n in edges[source] - targets then 1 else 0)
    {
      var target :| target in targets;
      targets := targets - {target};
      indegree' := indegree'[target := indegree'[target] + 1];
    }
    forall n | n in nodes ensures indegree'[n] == |Sources(nodes, n, counted + {source})| {
      CountOneMore(nodes, n, counted, source);
    }
  }

  lemma NoSources(nodes: seq<PlanNode>, none: set<PlanNode>)
    requires none == {}
    ensures forall n :: n in nodes ==> |Sources(nodes, n, none)| == 0
  {
  }

  lemma MoveOver(all: set<PlanNode>, rest: set<PlanNode>, x: PlanNode)
    requires x in rest && rest <= all
    ensures all - (rest - {x}) == (all - rest) + {x}
  {
  }

  lemma AllSources(nodes: seq<PlanNode>, n: PlanNode, all: set<PlanNode>)
    requires all == Elements(nodes)
    ensures Sources(nodes, n, all) == Waiting(nodes, n, [])
  {
  }

  lemma CountsNextDone(nodes: seq<PlanNode>, edges: Edges, done: seq<PlanNode>, node: PlanNode,
                       indegree: map<PlanNode, int>)
    requires Represents(nodes, edges) && Counts(nodes, done, {}, indegree) && node in nodes && node !in done
    ensures Counts(nodes, done + [node], edges[node], indegree)
  {
    forall n | n in nodes
      ensures indegree[n] == |Waiting(nodes, n, done + [node])| + (if n in edges[node] then 1 else 0)
    {
      var waiting := Waiting(nodes, n, done);
      assert Waiting(nodes, n, done + [node]) == waiting - {node};
      assert node in waiting <==> n in edges[node];
    }
  }

  lemma LeastName(s: set<PlanNode>) returns (least: PlanNode)
    requires s != {}
    ensures least in s && forall t :: t in s ==> StringLe(least.name, t.name)
  {
    least :| least in s;
    var rest := s - {least};
    StringLeTotal(least.name, least.name);
    assert forall t :: t in s ==> t == least || t in rest;
    if rest != {} {
      var other := LeastName(rest);
      StringLeTotal(least.name, other.name);
      if StringLe(least.name, other.name) {
        forall t | t in rest ensures StringLe(least.name, t.name) {
          StringLeTransitive(least.name, other.name, t.name);
        }
      } else {
        least := other;
      }
    }
  }

  method Enqueue(ready: seq<PlanNode>, node: PlanNode) returns (ready': seq<PlanNode>)
    requires Distinct(ready) && node !in ready
    ensures Distinct(ready') && SortedBy(ready', KeyLe) && LastOfItsKey(ready, node, ready')
    ensures forall n :: n in ready' <==> n in ready || n == node
  {
    ghost var was := ready + [node];
    ready' := Sort(ready + [node], KeyLe);
    SortPermutes(was, KeyLe);
    KeyLeOrders(was);
    SortSorts(was, KeyLe);
    DistinctFromMultiset(was, ready');
    SameMultisetSameElements(was, ready');
    StableKeepsTurns(ready, node, ready');
  }

  /** Among equal keys the old ones keep their turns and `node` comes last. */
  ghost predicate LastOfItsKey(ready: seq<PlanNode>, node: PlanNode, ready': seq<PlanNode>) {
    forall i, j :: 0 <= i < j < |ready'| && SameKey(ready'[i], ready'[j]) ==>
      && ready'[i] in ready
      && (ready'[j] == node || (ready'[j] in ready && IndexOf(ready, ready'[i]) < IndexOf(ready, ready'[j])))
  }

  lemma StableKeepsTurns(ready: seq<PlanNode>, node: PlanNode, ready': seq<PlanNode>)
    requires Distinct(ready) && node !in ready && ready' == Sort(ready + [node], KeyLe)
    ensures LastOfItsKey(ready, node, ready')
  {
    var was := ready + [node];
    SortIsStable(was, KeyLe);
    forall i, j | 0 <= i < j < |ready'| && SameKey(ready'[i], ready'[j])
      ensures ready'[i] in ready
      ensures ready'[j] == node || (ready'[j] in ready && IndexOf(ready, ready'[i]) < IndexOf(ready, ready'[j]))
    {
      StringLeTotal(ready'[i].name, ready'[i].name);
      assert KeyLe(ready'[j], ready'[i]);
      PlaceBefore(ready, node, ready'[i]);
      PlaceBefore(ready, node, ready'[j]);
    }
  }

  lemma PlaceBefore(ready: seq<PlanNode>, node: PlanNode, n: PlanNode)
    requires Distinct(ready) && node !in ready && n in ready + [node]
    ensures IndexOf(ready + [node], n) == if n in ready then IndexOf(ready, n) else |ready|
  {
    var was := ready + [node];
    var i := IndexOf(was, n);
    if n in ready {
      var k := IndexOf(ready, n);
      assert was[k] == n && was[i] == n && Distinct(was);
    }
  }

  // ----- Who goes first among equal keys

  lemma FreedGrows(nodes: seq<PlanNode>, n: PlanNode, done: seq<PlanNode>, node: PlanNode)
    requires Freed(nodes, n, done)
    ensures Freed(nodes, n, done + [node])
  {
  }

  /** What stands in line when a node runs is free, so nothing changes between those in line. */
  lemma RunKeepsTurns(nodes: seq<PlanNode>, done: seq<PlanNode>, node: PlanNode, line: seq<PlanNode>)
    requires FirstCome(nodes, done, line) && forall i :: 0 <= i < |line| ==> Freed(nodes, line[i], done)
    ensures FirstCome(nodes, done + [node], line)
    ensures forall i :: 0 <= i < |line| ==> Freed(nodes, line[i], done + [node])
  {
    var after := done + [node];
    assert after[..|after|] == after;
    forall i | 0 <= i < |line| ensures Freed(nodes, line[i], after) {
      FreedGrows(nodes, line[i], done, node);
    }
    forall i, j | 0 <= i < j < |line| ensures Yields(nodes, after, line[i], line[j]) {
      assert Yields(nodes, done, line[i], line[j]);
      forall k | 0 <= k <= |after| && SameKey(line[i], line[j]) && Freed(nodes, line[j], after[..k])
        ensures Freed(nodes, line[i], after[..k])
      {
        assert k == |after| || after[..k] == done[..k];
      }
    }
  }

  /** A node freed by the last run became free no earlier than anything free now. */
  lemma NewcomerYields(nodes: seq<PlanNode>, done: seq<PlanNode>, a: PlanNode, node: PlanNode)
    requires Distinct(done) && done != [] && Edge(nodes, done[|done| - 1], node) && Freed(nodes, a, done)
    ensures Yields(nodes, done, a, node)
  {
    var last := done[|done| - 1];
    forall k | 0 <= k <= |done| && Freed(nodes, node, done[..k]) ensures Freed(nodes, a, done[..k]) {
      assert last in done[..k];
      assert done[..|done|] == done;
    }
    assert last !in [];
  }

  lemma EnqueueKeepsTurns(nodes: seq<PlanNode>, done: seq<PlanNode>, ready: seq<PlanNode>, node: PlanNode,
                          ready': seq<PlanNode>)
    requires FirstCome(nodes, done, done + ready) && LastOfItsKey(ready, node, ready')
    requires Distinct(done) && done != [] && Edge(nodes, done[|done| - 1], node)
    requires (forall n :: n in done ==> Freed(nodes, n, done)) && (forall n :: n in ready ==> Freed(nodes, n, done))
    requires forall n :: n in ready' ==> n in ready || n == node
    ensures FirstCome(nodes, done, done + ready')
  {
    var line, line' := done + ready, done + ready';
    forall i, j | 0 <= i < j < |line'| ensures Yields(nodes, done, line'[i], line'[j]) {
      var a, b := line'[i], line'[j];
      if SameKey(a, b) {
        if j < |done| {
          assert Yields(nodes, done, line[i], line[j]);
        } else {
          assert b == ready'[j - |done|];
          TurnsAcross(nodes, done, ready, node, ready', i, j);
        }
      }
    }
  }

  lemma TurnsAcross(nodes: seq<PlanNode>, done: seq<PlanNode>, ready: seq<PlanNode>, node: PlanNode,
                    ready': seq<PlanNode>, i: nat, j: nat)
    requires FirstCome(nodes, done, done + ready) && LastOfItsKey(ready, node, ready')
    requires Distinct(done) && done != [] && Edge(nodes, done[|done| - 1], node)
    requires (forall n :: n in done ==> Freed(nodes, n, done)) && (forall n :: n in ready ==> Freed(nodes, n, done))
    requires forall n :: n in ready' ==> n in ready || n == node
    requires i < j < |done + ready'| && j >= |done| && SameKey((done + ready')[i], (done + ready')[j])
    ensures Yields(nodes, done, (done + ready')[i], (done + ready')[j])
  {
    var a, b := (done + ready')[i], (done + ready')[j];
    assert b == ready'[j - |done|];
    if i < |done| {
      assert a == done[i] && a in done;
    } else {
      assert a == ready'[i - |done|] && a in ready;
    }
    if b == node {
      NewcomerYields(nodes, done, a, node);
    } else {
      var line, q := done + ready, |done| + IndexOf(ready, b);
      var p := if i < |done| then i else |done| + IndexOf(ready, a);
      assert line[p] == a && line[q] == b && p < q;
    }
  }

  lemma TellKeepsCounts(nodes: seq<PlanNode>, done: seq<PlanNode>, pending: set<PlanNode>, target: PlanNode,
                        indegree: map<PlanNode, int>)
    requires Counts(nodes, done, pending, indegree) && target in pending && target in nodes
    ensures indegree[target] >= 1
    ensures Counts(nodes, done, pending - {target}, indegree[target := indegree[target] - 1])
  {
  }

  lemma TellKeepsReady(nodes: seq<PlanNode>, done: seq<PlanNode>, indegree: map<PlanNode, int>, target: PlanNode,
                       ready: seq<PlanNode>, ready': seq<PlanNode>)
    requires indegree.Keys == Elements(nodes) && Ready(nodes, done, indegree, ready)
    requires target in nodes && target !in done && indegree[target] >= 1
    requires Distinct(ready') && SortedBy(ready', KeyLe)
    requires forall n :: n in ready' <==> n in ready || (n == target && indegree[target] == 1)
    ensures Ready(nodes, done, indegree[target := indegree[target] - 1], ready')
  {
  }

  lemma ReadyIsFreed(nodes: seq<PlanNode>, done: seq<PlanNode>, pending: set<PlanNode>, indegree: map<PlanNode, int>,
                     ready: seq<PlanNode>)
    requires Counts(nodes, done, pending, indegree) && Ready(nodes, done, indegree, ready)
    ensures forall n :: n in ready ==> Freed(nodes, n, done)
  {
    forall n | n in ready ensures Freed(nodes, n, done) {
      assert Waiting(nodes, n, done) == {};
      forall p | p in nodes && Edge(nodes, p, n) ensures p in done {
        assert p !in Waiting(nodes, n, done);
      }
    }
  }

  /** Tells every target of the node that just ran, by name, and queues those that wait for nothing more. */
  method Release(nodes: seq<PlanNode>, targets: set<PlanNode>, ghost done: seq<PlanNode>,
                 indegree: map<PlanNode, int>, ready: seq<PlanNode>)
      returns (indegree': map<PlanNode, int>, ready': seq<PlanNode>)
    requires targets <= Elements(nodes) && Counts(nodes, done, targets, indegree)
    requires forall t :: t in targets ==> t !in done
    requires Ready(nodes, done, indegree, ready)
    requires Distinct(done) && done != [] && forall t :: t in targets ==> Edge(nodes, done[|done| - 1], t)
    requires FirstCome(nodes, done, done + ready) && forall n :: n in done ==> Freed(nodes, n, done)
    ensures Counts(nodes, done, {}, indegree') && Ready(nodes, done, indegree', ready')
    ensures FirstCome(nodes, done, done + ready')
  {
    indegree', ready' := indegree, ready;
    var pending := targets;
    while pending != {}
      invariant pending <= targets && Counts(nodes, done, pending, indegree') && Ready(nodes, done, indegree', ready')
      invariant FirstCome(nodes, done, done + ready')
    {
      ghost var before := ready';
      ReadyIsFreed(nodes, done, pending, indegree', before);
      ghost var least := LeastName(pending);
      var target :| target in pending && forall t :: t in pending ==> StringLe(target.name, t.name);
      TellKeepsCounts(nodes, done, pending, target, indegree');
      ghost var was := indegree';
      pending := pending - {target};
      indegree' := indegree'[target := indegree'[target] - 1];
      if indegree'[target] == 0 {
        ready' := Enqueue(ready', target);
        EnqueueKeepsTurns(nodes, done, before, target, ready');
      }
      TellKeepsReady(nodes, done, was, target, before, ready');
    }
  }

  /** `n` waits for a node that is not in `order` either. */
  ghost predicate Blocked(nodes: seq<PlanNode>, n: PlanNode, order: seq<PlanNode>) {
    exists p :: p in nodes && Edge(nodes, p, n) && p !in order
  }

  ghost predicate Stuck(nodes: seq<PlanNode>, order: seq<PlanNode>) {
    forall n {:trigger Blocked(nodes, n, order)} :: n in nodes && n !in order ==> Blocked(nodes, n, order)
  }

  /** Runs the least ready node until none is ready. */
  method Kahn(nodes: seq<PlanNode>, edges: Edges) returns (order: seq<PlanNode>)
    requires Distinct(nodes) && Represents(nodes, edges)
    ensures Greedy(nodes, order) && FirstCome(nodes, order, order)
    ensures Stuck(nodes, order)
  {
    var indegree := CountIndegrees(nodes, edges);
    var ready := InitiallyReady(nodes, indegree);
    order := [];
    ListedIsFirstCome(nodes, indegree, ready);
    assert order + ready == ready;
    while ready != []
      invariant Greedy(nodes, order) && FirstCome(nodes, order, order + ready)
      invariant Counts(nodes, order, {}, indegree) && Ready(nodes, order, indegree, ready)
      decreases |nodes| - |order|
    {
      var node := ready[0];
      RunReady(nodes, edges, order, indegree, ready);
      RunReadyKeepsTurns(nodes, order, indegree, ready);
      order := order + [node];
      ready := ready[1..];
      indegree, ready := Release(nodes, edges[node], order, indegree, ready);
      GreedyWithin(nodes, order);
    }
    assert order + ready == order;
    NoneReadyStuck(nodes, order, indegree);
  }

  lemma NoneReadyStuck(nodes: seq<PlanNode>, order: seq<PlanNode>, indegree: map<PlanNode, int>)
    requires Counts(nodes, order, {}, indegree) && Ready(nodes, order, indegree, [])
    ensures Stuck(nodes, order)
  {
    forall n | n in nodes && n !in order ensures Blocked(nodes, n, order) {
      var none: seq<PlanNode> := [];
      assert n !in none;
      var p :| p in Waiting(nodes, n, order);
    }
  }

  lemma RunReady(nodes: seq<PlanNode>, edges: Edges, done: seq<PlanNode>, indegree: map<PlanNode, int>,
                 ready: seq<PlanNode>)
    requires Represents(nodes, edges) && Greedy(nodes, done) && Counts(nodes, done, {}, indegree)
    requires Ready(nodes, done, indegree, ready) && ready != []
    ensures ready[0] in nodes && Greedy(nodes, done + [ready[0]])
    ensures Counts(nodes, done + [ready[0]], edges[ready[0]], indegree)
    ensures Ready(nodes, done + [ready[0]], indegree, ready[1..])
    ensures forall t :: t in edges[ready[0]] ==> t !in done + [ready[0]] && Edge(nodes, ready[0], t)
  {
    var node := ready[0];
    assert node in ready;
    ReadyIsLeast(nodes, done, indegree, ready);
    GreedyExtends(nodes, done, node);
    CountsNextDone(nodes, edges, done, node, indegree);
    TargetsNotDone(nodes, edges, done, node);
  }

  lemma RunReadyIsFreed(nodes: seq<PlanNode>, done: seq<PlanNode>, indegree: map<PlanNode, int>, ready: seq<PlanNode>)
    requires Greedy(nodes, done) && Counts(nodes, done, {}, indegree)
    requires Ready(nodes, done, indegree, ready) && ready != []
    ensures var next := done + [ready[0]];
            Distinct(next) && forall n :: n in next ==> Freed(nodes, n, next)
  {
    ReadyIsLeast(nodes, done, indegree, ready);
    GreedyExtends(nodes, done, ready[0]);
    GreedyDistinct(nodes, done + [ready[0]]);
    GreedyIsFreed(nodes, done + [ready[0]]);
  }

  lemma RunReadyKeepsTurns(nodes: seq<PlanNode>, done: seq<PlanNode>, indegree: map<PlanNode, int>,
                           ready: seq<PlanNode>)
    requires Greedy(nodes, done) && Counts(nodes, done, {}, indegree)
    requires Ready(nodes, done, indegree, ready) && ready != [] && FirstCome(nodes, done, done + ready)
    ensures var next := done + [ready[0]];
            && FirstCome(nodes, next, next + ready[1..]) && Distinct(next)
            && forall n :: n in next ==> Freed(nodes, n, next)
  {
    var next := done + [ready[0]];
    ReadyIsFreed(nodes, done, {}, indegree, ready);
    GreedyIsFreed(nodes, done);
    RunReadyIsFreed(nodes, done, indegree, ready);
    assert next + ready[1..] == done + ready;
    RunKeepsTurns(nodes, done, ready[0], done + ready);
  }

  lemma GreedyIsFreed(nodes: seq<PlanNode>, done: seq<PlanNode>)
    requires Greedy(nodes, done)
    ensures forall n :: n in done ==> Freed(nodes, n, done)
  {
    forall n | n in done ensures Freed(nodes, n, done) {
      var i :| 0 <= i < |done| && done[i] == n;
      assert LeastAvailable(nodes, done[i], done[..i]);
    }
  }

  /** What is ready at the start stands in listing order within each key. */
  lemma ListedIsFirstCome(nodes: seq<PlanNode>, indegree: map<PlanNode, int>, ready: seq<PlanNode>)
    requires Counts(nodes, [], {}, indegree) && Ready(nodes, [], indegree, ready) && Listed(nodes, ready)
    ensures FirstCome(nodes, [], ready)
  {
    ReadyIsFreed(nodes, [], {}, indegree, ready);
    forall i, j | 0 <= i < j < |ready| ensures Yields(nodes, [], ready[i], ready[j]) {
      assert ready[i] in ready;
      ListedYields(nodes, [], ready[i], ready[j]);
    }
  }

  lemma ListedYields(nodes: seq<PlanNode>, none: seq<PlanNode>, a: PlanNode, b: PlanNode)
    requires none == [] && Freed(nodes, a, none)
    requires SameKey(a, b) ==> a in nodes && b in nodes && IndexOf(nodes, a) < IndexOf(nodes, b)
    ensures Yields(nodes, none, a, b)
  {
    forall k | 0 <= k <= |none| ensures none[..k] == none {
    }
  }

  /** Equal keys stand in the order of `nodes`. */
  ghost predicate Listed(nodes: seq<PlanNode>, ready: seq<PlanNode>) {
    forall i, j :: 0 <= i < j < |ready| && SameKey(ready[i], ready[j]) ==>
      ready[i] in nodes && ready[j] in nodes && IndexOf(nodes, ready[i]) < IndexOf(nodes, ready[j])
  }

  lemma SortedIsListed(nodes: seq<PlanNode>, free: seq<PlanNode>)
    requires Distinct(free) && KeepsOrder(free, nodes)
    ensures Listed(nodes, Sort(free, KeyLe))
  {
    var ready := Sort(free, KeyLe);
    SortIsStable(free, KeyLe);
    forall i, j | 0 <= i < j < |ready| && SameKey(ready[i], ready[j])
      ensures ready[i] in nodes && ready[j] in nodes && IndexOf(nodes, ready[i]) < IndexOf(nodes, ready[j])
    {
      StringLeTotal(ready[i].name, ready[i].name);
      assert KeyLe(ready[j], ready[i]);
      assert free[IndexOf(free, ready[i])] == ready[i] && free[IndexOf(free, ready[j])] == ready[j];
    }
  }

  method InitiallyReady(nodes: seq<PlanNode>, indegree: map<PlanNode, int>) returns (ready: seq<PlanNode>)
    requires Distinct(nodes) && indegree.Keys == Elements(nodes)
    ensures Ready(nodes, [], indegree, ready) && Listed(nodes, ready)
  {
    var free: seq<PlanNode> := [];
    var i := 0;
    while i < |nodes|
      invariant i <= |nodes| && Distinct(free) && KeepsOrder(free, nodes)
      invariant forall n :: n in free <==> n in nodes[..i] && indegree[n] == 0
    {
      assert nodes[..i + 1] == nodes[..i] + [nodes[i]];
      if indegree[nodes[i]] == 0 {
        OneMoreListed(nodes, free, i);
        free := free + [nodes[i]];
      }
      i := i + 1;
    }
    assert nodes[..i] == nodes;
    SortPermutes(free, KeyLe);
    KeyLeOrders(free);
    SortSorts(free, KeyLe);
    ready := Sort(free, KeyLe);
    DistinctFromMultiset(free, ready);
    SameMultisetSameElements(free, ready);
    SortedIsListed(nodes, free);
    forall n | n in ready ensures n in nodes {
      assert n in multiset(ready);
    }
  }

  lemma OneMoreListed(nodes: seq<PlanNode>, free: seq<PlanNode>, i: nat)
    requires Distinct(nodes) && i < |nodes| && KeepsOrder(free, nodes) && forall n :: n in free ==> n in nodes[..i]
    ensures KeepsOrder(free + [nodes[i]], nodes)
  {
    var more := free + [nodes[i]];
    assert IndexOf(nodes, nodes[i]) == i;
    forall k | 0 <= k < |free| ensures IndexOf(nodes, free[k]) < i {
      assert free[k] in free;
      var m :| 0 <= m < i && nodes[..i][m] == free[k];
      assert nodes[m] == free[k] && IndexOf(nodes, free[k]) == m;
    }
  }

  lemma ReadyIsLeast(nodes: seq<PlanNode>, done: seq<PlanNode>, indegree: map<PlanNode, int>, ready: seq<PlanNode>)
    requires Counts(nodes, done, {}, indegree) && Ready(nodes, done, indegree, ready) && ready != []
    ensures LeastAvailable(nodes, ready[0], done)
  {
    assert ready[0] in ready;
    assert Waiting(nodes, ready[0], done) == {};
    forall p | p in nodes && Edge(nodes, p, ready[0]) ensures p in done {
      assert p !in Waiting(nodes, ready[0], done);
    }
    forall m | m in nodes && Available(nodes, m, done) ensures KeyLe(ready[0], m) {
      assert Waiting(nodes, m, done) == {};
      assert m in ready;
      StringLeTotal(m.name, m.name);
    }
  }

  lemma GreedyExtends(nodes: seq<PlanNode>, order: seq<PlanNode>, node: PlanNode)
    requires Greedy(nodes, order) && LeastAvailable(nodes, node, order)
    ensures Greedy(nodes, order + [node])
  {
    forall i | 0 <= i < |order + [node]|
      ensures LeastAvailable(nodes, (order + [node])[i], (order + [node])[..i])
    {
      assert (order + [node])[..i] == order[..i];
      assert order[..|order|] == order;
    }
  }

  lemma GreedyWithin(nodes: seq<PlanNode>, order: seq<PlanNode>)
    requires Greedy(nodes, order)
    ensures |order| <= |nodes|
  {
    GreedyDistinct(nodes, order);
    DistinctIffCardinality(order);
    DistinctIffCardinality(nodes);
    CardinalityMonotone(Elements(order), Elements(nodes));
  }

  /** Nothing that already ran, nor the node itself, waits for a node that may run now. */
  lemma TargetsNotDone(nodes: seq<PlanNode>, edges: Edges, order: seq<PlanNode>, node: PlanNode)
    requires Represents(nodes, edges) && Greedy(nodes, order) && Available(nodes, node, order)
    ensures forall t :: t in edges[node] ==> t !in order + [node]
  {
  }

  // ----- The search that names the cycle

  /** A closed walk read off the edge table. */
  ghost predicate TableWalk(edges: Edges, walk: seq<PlanNode>) {
    && |walk| >= 2 && walk[0] == walk[|walk| - 1]
    && forall i :: 0 <= i < |walk| - 1 ==> walk[i] in edges && walk[i + 1] in edges[walk[i]]
  }

  /** `visited` is what is active or finished, active nodes form a walk, and a finished node leads only
      to nodes finished before it. */
  ghost predicate Searching(edges: Edges, visited: set<PlanNode>, active: seq<PlanNode>, finished: seq<PlanNode>) {
    && Elements(active) <= visited <= edges.Keys
    && Elements(finished) == visited - Elements(active)
    && Distinct(active) && Distinct(finished)
    && (forall i, j :: 0 <= i && j == i + 1 && j < |active| ==> active[j] in edges[active[i]])
    && (forall i :: 0 <= i < |finished| ==> finished[i] in edges && edges[finished[i]] <= Elements(finished[..i]))
  }

  class CycleSearch {
    const nodes: seq<PlanNode>
    const edges: Edges
    var visited: set<PlanNode>
    var active: seq<PlanNode>
    /** Nodes whose search is over, in the order it ended. */
    ghost var finished: seq<PlanNode>

    ghost predicate Valid()
      reads this
    {
      Within(nodes, edges) && Searching(edges, visited, active, finished)
    }

    constructor (nodes: seq<PlanNode>, edges: Edges)
      requires Within(nodes, edges)
      ensures Valid() && this.nodes == nodes && this.edges == edges && active == []
    {
      this.nodes, this.edges, visited, active, finished := nodes, edges, {}, [], [];
    }

    /** `Some` is a closed walk; after `None` the node is finished. */
    method Visit(node: PlanNode) returns (found: Option<seq<PlanNode>>)
      requires Valid() && node in edges
      requires active != [] ==> node in edges[active[|active| - 1]]
      modifies this
      ensures found.Some? ==> TableWalk(edges, found.value)
      ensures found.None? ==> Valid() && active == old(active) && node !in active
      ensures found.None? ==> node in visited && old(visited) <= visited
      decreases |edges.Keys - visited|, 0
    {
      if node in active {
        found := Some(active[IndexOf(active, node)..] + [node]);
        ActiveCloses(edges, visited, active, finished, node);
      } else if node in visited {
        found := None;
      } else {
        Enter(node);
        found := VisitTargets(node);
        if found.None? {
          Leave(node);
        }
      }
    }

    method Enter(node: PlanNode)
      requires Valid() && node in edges && node !in visited
      requires active != [] ==> node in edges[active[|active| - 1]]
      modifies this
      ensures Valid() && visited == old(visited) + {node} && active == old(active) + [node]
      ensures |edges.Keys - visited| < |edges.Keys - old(visited)|
    {
      PushKeepsSearching(edges, visited, active, finished, node);
      CardinalityMonotone(edges.Keys - (visited + {node}), edges.Keys - visited);
      visited := visited + {node};
      active := active + [node];
    }

    method Leave(node: PlanNode)
      requires Valid() && node in edges
      requires active != [] && active[|active| - 1] == node
      requires edges[node] <= visited && forall t :: t in edges[node] ==> t !in active
      modifies this
      ensures Valid() && visited == old(visited) && active == old(active)[..|old(active)| - 1]
    {
      PopKeepsSearching(edges, visited, active, finished, node);
      active := active[..|active| - 1];
      finished := finished + [node];
    }

    /** The search of everything the last active node leads to. */
    method VisitTargets(node: PlanNode) returns (found: Option<seq<PlanNode>>)
      requires Valid() && active != [] && active[|active| - 1] == node && node in edges
      modifies this
      ensures found.Some? ==> TableWalk(edges, found.value)
      ensures found.None? ==> Valid() && active == old(active) && old(visited) <= visited
      ensures found.None? ==> edges[node] <= visited && forall t :: t in edges[node] ==> t !in active
      decreases |edges.Keys - visited|, 1
    {
      var pending := edges[node];
      while pending != {}
        invariant Valid() && active == old(active) && pending <= edges[node]
        invariant old(visited) <= visited
        invariant forall t :: t in edges[node] - pending ==> t in visited && t !in active
      {
        var target :| target in pending;
        CardinalityMonotone(edges.Keys - visited, edges.Keys - old(visited));
        found := Visit(target);
        if found.Some? {
          return;
        }
        pending := pending - {target};
      }
      return None;
    }
  }

  lemma ActiveCloses(edges: Edges, visited: set<PlanNode>, active: seq<PlanNode>, finished: seq<PlanNode>,
                     node: PlanNode)
    requires Searching(edges, visited, active, finished) && node in active
    requires node in edges[active[|active| - 1]]
    ensures TableWalk(edges, active[IndexOf(active, node)..] + [node])
  {
    var start := IndexOf(active, node);
    var walk := active[start..] + [node];
    forall i | 0 <= i < |walk| - 1 ensures walk[i] in edges && walk[i + 1] in edges[walk[i]] {
      assert walk[i] == active[start + i] && active[start + i] in Elements(active);
    }
  }

  lemma PushKeepsSearching(edges: Edges, visited: set<PlanNode>, active: seq<PlanNode>,
                           finished: seq<PlanNode>, node: PlanNode)
    requires Searching(edges, visited, active, finished) && node in edges && node !in visited
    requires active != [] ==> node in edges[active[|active| - 1]]
    ensures Searching(edges, visited + {node}, active + [node], finished)
  {
    assert Elements(active + [node]) == Elements(active) + {node};
  }

  lemma PopKeepsSearching(edges: Edges, visited: set<PlanNode>, active: seq<PlanNode>,
                          finished: seq<PlanNode>, node: PlanNode)
    requires Searching(edges, visited, active, finished)
    requires active != [] && active[|active| - 1] == node && node in edges
    requires edges[node] <= visited && forall t :: t in edges[node] ==> t !in active
    ensures Searching(edges, visited, active[..|active| - 1], finished + [node])
  {
    var front, after := active[..|active| - 1], finished + [node];
    assert active == front + [node];
    assert Elements(active) == Elements(front) + {node};
    assert Elements(after) == Elements(finished) + {node};
    forall i | 0 <= i < |after| ensures edges[after[i]] <= Elements(after[..i]) {
      assert after[..i] == finished[..i];
      assert finished[..|finished|] == finished;
    }
  }

  /** Every edge out of a finished node leads to a node finished before it. */
  ghost predicate Closed(nodes: seq<PlanNode>, finished: seq<PlanNode>) {
    forall i, b :: 0 <= i < |finished| && b in nodes && Edge(nodes, finished[i], b) ==> b in finished[..i]
  }

  /** `None` stands for the source's `["unknown"]`: every search ended without closing a walk. */
  method CyclePath(nodes: seq<PlanNode>, edges: Edges)
      returns (path: Option<seq<PlanNode>>, ghost finished: seq<PlanNode>)
    requires Represents(nodes, edges)
    ensures path.Some? ==> ClosedWalk(nodes, path.value)
    ensures path.None? ==> Distinct(finished) && Closed(nodes, finished) && forall n :: n in nodes ==> n in finished
  {
    var search := new CycleSearch(nodes, edges);
    var i := 0;
    while i < |nodes|
      invariant i <= |nodes| && fresh(search) && search.nodes == nodes && search.edges == edges
      invariant search.Valid() && search.active == []
      invariant Elements(nodes[..i]) <= search.visited
    {
      assert nodes[..i + 1] == nodes[..i] + [nodes[i]];
      path := search.Visit(nodes[i]);
      if path.Some? {
        TableWalkIsClosed(nodes, edges, path.value);
        return path, [];
      }
      i := i + 1;
    }
    assert nodes[..i] == nodes;
    finished := search.finished;
    assert Elements(search.active) == {};
    assert forall n :: n in nodes ==> n in Elements(nodes);
    assert forall n :: n in Elements(finished) ==> n in finished;
    TableClosed(nodes, edges, search.visited, search.active, finished);
    return None, finished;
  }

  lemma TableWalkIsClosed(nodes: seq<PlanNode>, edges: Edges, walk: seq<PlanNode>)
    requires Represents(nodes, edges) && TableWalk(edges, walk)
    ensures ClosedWalk(nodes, walk)
  {
    forall i | 0 <= i < |walk| - 1 ensures walk[i] in nodes && Edge(nodes, walk[i], walk[i + 1]) {
      assert walk[i + 1] in Elements(nodes);
    }
  }

  lemma TableClosed(nodes: seq<PlanNode>, edges: Edges, visited: set<PlanNode>, active: seq<PlanNode>,
                    finished: seq<PlanNode>)
    requires Represents(nodes, edges) && Searching(edges, visited, active, finished)
    ensures Closed(nodes, finished)
  {
    forall i, b | 0 <= i < |finished| && b in nodes && Edge(nodes, finished[i], b) ensures b in finished[..i] {
      assert b in edges[finished[i]];
    }
  }

  /** A finished search leaves no node that waits for another unplaced node. */
  lemma {:induction false} NothingLeftOver(nodes: seq<PlanNode>, order: seq<PlanNode>, finished: seq<PlanNode>, k: nat)
    requires Distinct(finished) && Closed(nodes, finished) && (forall n :: n in nodes ==> n in finished)
    requires Stuck(nodes, order)
    requires k <= |finished|
    ensures forall i :: k <= i < |finished| && finished[i] in nodes ==> finished[i] in order
    decreases |finished| - k
  {
    if k < |finished| {
      NothingLeftOver(nodes, order, finished, k + 1);
      var n := finished[k];
      if n in nodes && n !in order {
        assert Blocked(nodes, n, order);
        var p :| p in nodes && Edge(nodes, p, n) && p !in order;
        var j :| 0 <= j < |finished| && finished[j] == p;
        assert n in finished[..j];
        assert j <= k;
      }
    }
  }

  // ----- The compiler

  method CompileGraph(nodes: seq<PlanNode>) returns (r: Result<seq<PlanNode>>)
    ensures r.Ok? <==> Compilable(nodes)
    ensures r.Ok? ==> Compiled(nodes, r.value)
    ensures r.Err? ==> Justified(nodes, r.error)
    ensures r.Err? && r.error.Cycle? <==> Distinct(nodes) && Sound(nodes) && !Acyclic(nodes)
  {
    DistinctIffCardinality(nodes);
    if |Elements(nodes)| != |nodes| {
      return Err(DuplicateIdentity);
    }
    var checked := CheckedEdges(nodes);
    if checked.Err? {
      JustifiedErrorRefuses(nodes, checked.error);
      return Err(checked.error);
    }
    var order := Kahn(nodes, checked.value);
    if |order| != |nodes| {
      var path, finished := CyclePath(nodes, checked.value);
      if path.None? {
        NothingLeftOver(nodes, order, finished, 0);
        GreedyDistinct(nodes, order);
        AllPlaced(nodes, order, finished);
        assert false;
      }
      return Err(Cycle(path.value));
    }
    GreedyIsLinearExtension(nodes, order);
    LinearExtensionAcyclic(nodes, order);
    return Ok(order);
  }

  lemma AllPlaced(nodes: seq<PlanNode>, order: seq<PlanNode>, finished: seq<PlanNode>)
    requires Distinct(nodes) && Distinct(order) && (forall n :: n in order ==> n in nodes)
    requires forall n :: n in nodes ==> n in finished
    requires forall i :: 0 <= i < |finished| && finished[i] in nodes ==> finished[i] in order
    ensures |order| == |nodes|
  {
    forall n | n in nodes ensures n in order {
      var i :| 0 <= i < |finished| && finished[i] == n;
    }
    assert Elements(order) == Elements(nodes);
    DistinctIffCardinality(nodes);
    DistinctIffCardinality(order);
  }
}
