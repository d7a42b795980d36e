/** The Huffman tree and its construction: leaves in key order, a priority queue
    ordered by (weight, id), and repeated merging of the two least nodes
    (HuffmanEncoderDecoder.java, initializeHuffmanEncoderDecoder and Node). */
module Tree {
  import opened Wrappers
  import opened Frequency

  /** A node of the tree. Every node carries its weight `f` and the `id` it got
      from the creation counter; a leaf holds a character, an internal node its
      two children (so an internal node always has both). */
  datatype Node =
    | Leaf(c: char, f: nat, id: nat)
    | Internal(left: Node, right: Node, f: nat, id: nat)

  /** Node.compareTo: negative when `a` comes first in the queue, that is when it
      is lighter, or equally heavy and created earlier. */
  function CompareTo(a: Node, b: Node): (r: int)
    ensures r < 0 <==> a.f < b.f || (a.f == b.f && a.id < b.id)
    ensures r == 0 <==> a.f == b.f && a.id == b.id
    ensures r > 0 <==> b.f < a.f || (a.f == b.f && b.id < a.id)
  {
    if a.f == b.f then a.id - b.id else a.f - b.f
  }

  /** The ids of the nodes in a queue are pairwise distinct and below `next`,
      the value of the creation counter. */
  ghost predicate DistinctIds(q: seq<Node>, next: nat) {
    && (forall i :: 0 <= i < |q| ==> q[i].id < next)
    && (forall i, j :: 0 <= i < j < |q| ==> q[i].id != q[j].id)
  }

  /** With distinct ids, compareTo is a strict total order on the queue: two
      different entries are never tied, and precedence is transitive. */
  lemma CompareToStrictOnQueue(q: seq<Node>, next: nat, i: nat, j: nat, k: nat)
    requires DistinctIds(q, next) && i < |q| && j < |q| && k < |q|
    ensures i != j ==> CompareTo(q[i], q[j]) != 0
    ensures CompareTo(q[i], q[j]) < 0 && CompareTo(q[j], q[k]) < 0 ==> CompareTo(q[i], q[k]) < 0
  {
    if i != j {
      if i < j { assert q[i].id != q[j].id; } else { assert q[j].id != q[i].id; }
    }
  }

  /** The position of the head of the priority queue: an entry that no other
      entry precedes. */
  function MinIndex(q: seq<Node>): (k: nat)
    requires |q| > 0
    ensures k < |q|
    ensures forall i :: 0 <= i < |q| ==> CompareTo(q[k], q[i]) <= 0
  {
    if |q| == 1 then 0
    else
      var k := MinIndex(q[..|q| - 1]);
      assert forall i :: 0 <= i < |q| - 1 ==> q[..|q| - 1][i] == q[i];
      if CompareTo(q[|q| - 1], q[k]) < 0 then |q| - 1 else k
  }

  /** The queue without its entry at position `k`. */
  function Without(q: seq<Node>, k: nat): seq<Node>
    requires k < |q|
  {
    q[..k] + q[k + 1..]
  }

  lemma WithoutMultiset(q: seq<Node>, k: nat)
    requires k < |q|
    ensures multiset(q) == multiset(Without(q, k)) + multiset{q[k]}
  {
    assert q == q[..k] + [q[k]] + q[k + 1..];
  }

  /** PriorityQueue.remove as a value: the head of the queue and the queue
      left behind. */
  function PopMin(q: seq<Node>): (p: (Node, seq<Node>))
    requires |q| > 0
    ensures |p.1| == |q| - 1
  {
    var k := MinIndex(q);
    (q[k], Without(q, k))
  }

  /** The head comes from the queue, no entry precedes it, and the queue left
      behind holds the other entries. */
  lemma PopMinFacts(q: seq<Node>)
    requires |q| > 0
    ensures var (head, rest) := PopMin(q);
      && head in q
      && (forall x :: x in q ==> CompareTo(head, x) <= 0)
      && multiset(q) == multiset(rest) + multiset{head}
  {
    var k := MinIndex(q);
    WithoutMultiset(q, k);
    forall x | x in q ensures CompareTo(q[k], x) <= 0 {
      var i :| 0 <= i < |q| && q[i] == x;
    }
  }

  /** PriorityQueue.remove: takes out the head of the queue, an entry that no
      other entry precedes, and leaves the other entries. */
  method RemoveMin(q: seq<Node>) returns (head: Node, rest: seq<Node>)
    requires |q| > 0
    ensures (head, rest) == PopMin(q)
    ensures head in q && forall x :: x in q ==> CompareTo(head, x) <= 0
    ensures multiset(q) == multiset(rest) + multiset{head}
  {
    var k := MinIndex(q);
    head := q[k];
    rest := q[..k] + q[k + 1..];
    PopMinFacts(q);
  }

  /** One turn of the construction loop: remove the head (`left`), remove the
      new head (`right`), add a parent weighing their sum with id `id`. */
  function MergeStep(q: seq<Node>, id: nat): (r: seq<Node>)
    requires |q| >= 2
    ensures |r| == |q| - 1
  {
    var (left, q1) := PopMin(q);
    var (right, q2) := PopMin(q1);
    q2 + [Internal(left, right, left.f + right.f, id)]
  }

  /** A merge step takes out the two least entries, the first one removed
      becoming the left child, keeps the others, and adds their parent, which
      weighs their sum and carries the id `id`. */
  lemma MergeStepTakesTwoLeast(q: seq<Node>, id: nat)
    requires |q| >= 2
    ensures var r := MergeStep(q, id); var p := r[|r| - 1];
      && p.Internal? && p.id == id && p.f == p.left.f + p.right.f
      && multiset(q) == multiset(r[..|r| - 1]) + multiset{p.left, p.right}
      && (forall x :: x in q ==> CompareTo(p.left, x) <= 0)
      && (forall x :: x in r[..|r| - 1] ==> CompareTo(p.right, x) <= 0)
      && CompareTo(p.left, p.right) <= 0
  {
    var (left, q1) := PopMin(q);
    var (right, q2) := PopMin(q1);
    PopMinFacts(q);
    PopMinFacts(q1);
    var r := MergeStep(q, id);
    assert r == q2 + [Internal(left, right, left.f + right.f, id)];
    assert r[..|r| - 1] == q2;
    assert right in multiset(q);
    assert forall x :: x in q2 ==> x in multiset(q1);
  }

  /** The characters at the leaves of a tree, left to right. */
  function Leaves(t: Node): seq<char> {
    match t
    case Leaf(c, _, _) => [c]
    case Internal(l, r, _, _) => Leaves(l) + Leaves(r)
  }

  /** The number of nodes of a tree. */
  function Size(t: Node): nat {
    match t
    case Leaf(_, _, _) => 1
    case Internal(l, r, _, _) => 1 + Size(l) + Size(r)
  }

  /** Every internal node weighs the sum of its children. */
  ghost predicate WellFormed(t: Node) {
    match t
    case Leaf(_, _, _) => true
    case Internal(l, r, f, _) => f == l.f + r.f && WellFormed(l) && WellFormed(r)
  }

  /** Totals over a queue: weights, leaf characters and node counts. */
  function SumF(q: seq<Node>): nat {
    if q == [] then 0 else SumF(q[..|q| - 1]) + q[|q| - 1].f
  }

  function LeafBag(q: seq<Node>): multiset<char> {
    if q == [] then multiset{} else LeafBag(q[..|q| - 1]) + multiset(Leaves(q[|q| - 1]))
  }

  function SizeSum(q: seq<Node>): nat {
    if q == [] then 0 else SizeSum(q[..|q| - 1]) + Size(q[|q| - 1])
  }

  lemma {:induction false} TotalsConcat(a: seq<Node>, b: seq<Node>)
    ensures SumF(a + b) == SumF(a) + SumF(b)
    ensures LeafBag(a + b) == LeafBag(a) + LeafBag(b)
    ensures SizeSum(a + b) == SizeSum(a) + SizeSum(b)
    decreases |b|
  {
    if b == [] {
      assert a + b == a;
    } else {
      var init := b[..|b| - 1];
      assert (a + b)[..|a + b| - 1] == a + init;
      TotalsConcat(a, init);
    }
  }

  /** The queue around its entry at position `k`. */
  lemma SplitAt(q: seq<Node>, k: nat)
    requires k < |q|
    ensures q == q[..k] + ([q[k]] + q[k + 1..])
    ensures Without(q, k) == q[..k] + q[k + 1..]
  {
  }

  /** Removing an entry removes exactly its share of every total. */
  lemma TotalsWithout(q: seq<Node>, k: nat)
    requires k < |q|
    ensures SumF(q) == SumF(Without(q, k)) + q[k].f
    ensures LeafBag(q) == LeafBag(Without(q, k)) + multiset(Leaves(q[k]))
    ensures SizeSum(q) == SizeSum(Without(q, k)) + Size(q[k])
  {
    var before, x, after := q[..k], q[k], q[k + 1..];
    SplitAt(q, k);
    TotalsConcat(before, [x] + after);
    TotalsConcat([x], after);
    TotalsConcat(before, after);
    TotalsOfSingle(x);
    var lb, la, lx := LeafBag(before), LeafBag(after), multiset(Leaves(x));
    assert lb + (lx + la) == (lb + la) + lx;
  }

  /** Popping the head removes exactly its share of every total. */
  lemma PopMinTotals(q: seq<Node>)
    requires |q| > 0
    ensures var (head, rest) := PopMin(q);
      && SumF(q) == SumF(rest) + head.f
      && LeafBag(q) == LeafBag(rest) + multiset(Leaves(head))
      && SizeSum(q) == SizeSum(rest) + Size(head)
  {
    TotalsWithout(q, MinIndex(q));
  }

  /** A merge step is the queue left by two pops, plus the parent. */
  lemma MergeStepParts(q: seq<Node>, id: nat)
    requires |q| >= 2
    ensures var (left, q1) := PopMin(q); var (right, q2) := PopMin(q1);
      MergeStep(q, id) == q2 + [Internal(left, right, left.f + right.f, id)]
  {
  }

  /** A merge step keeps the total weight of the queue. */
  lemma MergeStepWeight(q: seq<Node>, id: nat)
    requires |q| >= 2
    ensures SumF(MergeStep(q, id)) == SumF(q)
  {
    var (left, q1) := PopMin(q);
    var (right, q2) := PopMin(q1);
    var p := Internal(left, right, left.f + right.f, id);
    MergeStepParts(q, id);
    PopMinTotals(q);
    PopMinTotals(q1);
    TotalsOfSingle(p);
    TotalsConcat(q2, [p]);
  }

  /** A merge step keeps the leaves of the queue. */
  lemma MergeStepLeaves(q: seq<Node>, id: nat)
    requires |q| >= 2
    ensures LeafBag(MergeStep(q, id)) == LeafBag(q)
  {
    var (left, q1) := PopMin(q);
    var (right, q2) := PopMin(q1);
    var p := Internal(left, right, left.f + right.f, id);
    MergeStepParts(q, id);
    PopMinTotals(q);
    PopMinTotals(q1);
    TotalsOfSingle(p);
    TotalsConcat(q2, [p]);
    MergedLeafBag(LeafBag(q), LeafBag(q1), LeafBag(q2), multiset(Leaves(left)), multiset(Leaves(right)));
  }

  /** A merge step creates exactly one node. */
  lemma MergeStepSize(q: seq<Node>, id: nat)
    requires |q| >= 2
    ensures SizeSum(MergeStep(q, id)) == SizeSum(q) + 1
  {
    var (left, q1) := PopMin(q);
    var (right, q2) := PopMin(q1);
    var p := Internal(left, right, left.f + right.f, id);
    MergeStepParts(q, id);
    PopMinTotals(q);
    PopMinTotals(q1);
    TotalsOfSingle(p);
    TotalsConcat(q2, [p]);
  }

  lemma MergedLeafBag(bq: multiset<char>, bq1: multiset<char>, bq2: multiset<char>, x: multiset<char>, y: multiset<char>)
    requires bq == bq1 + x && bq1 == bq2 + y
    ensures bq2 + (x + y) == bq
  {
  }

  lemma TotalsOfSingle(p: Node)
    ensures SumF([p]) == p.f && LeafBag([p]) == multiset(Leaves(p)) && SizeSum([p]) == Size(p)
  {
    assert [p][..0] == [];
  }

  lemma WithoutAt(q: seq<Node>, k: nat)
    requires k < |q|
    ensures forall i :: 0 <= i < |q| - 1 ==> Without(q, k)[i] == q[if i < k then i else i + 1]
  {
  }

  /** The queue left by a pop holds entries of the queue. */
  lemma PopMinEntries(q: seq<Node>)
    requires |q| > 0
    ensures forall i :: 0 <= i < |PopMin(q).1| ==> PopMin(q).1[i] in q
  {
    WithoutAt(q, MinIndex(q));
  }

  /** Popping the head keeps the ids of the queue distinct. */
  lemma PopMinDistinctIds(q: seq<Node>, next: nat)
    requires |q| > 0 && DistinctIds(q, next)
    ensures DistinctIds(PopMin(q).1, next)
  {
    WithoutAt(q, MinIndex(q));
  }

  /** The head of the queue strictly precedes every entry left behind, so it
      is the only least entry: the one a heap would return. */
  ghost predicate StrictHead(q: seq<Node>) {
    |q| > 0 && forall x :: x in PopMin(q).1 ==> CompareTo(PopMin(q).0, x) < 0
  }

  /** With distinct ids the head is the only least entry. */
  lemma PopMinUnique(q: seq<Node>, next: nat)
    requires |q| > 0 && DistinctIds(q, next)
    ensures StrictHead(q)
  {
    var k := MinIndex(q);
    WithoutAt(q, k);
    forall x | x in PopMin(q).1 ensures CompareTo(q[k], x) < 0 {
      var i :| 0 <= i < |q| - 1 && Without(q, k)[i] == x;
      var j := if i < k then i else i + 1;
      assert q[j] == x && j != k;
      CompareToStrictOnQueue(q, next, k, j, k);
    }
  }

  /** Every removal made while merging `q` down to one node takes the only
      least entry of the queue at that point. */
  ghost predicate HeadsUnique(q: seq<Node>, id: nat)
    decreases |q|
  {
    |q| <= 1 || (StrictHead(q) && StrictHead(PopMin(q).1) && HeadsUnique(MergeStep(q, id), id + 1))
  }

  /** Distinct ids below the counter make every removal of the merge loop
      unambiguous. */
  lemma {:induction false} DistinctIdsHeadsUnique(q: seq<Node>, id: nat)
    requires DistinctIds(q, id)
    ensures HeadsUnique(q, id)
    decreases |q|
  {
    if |q| >= 2 {
      PopMinUnique(q, id);
      PopMinDistinctIds(q, id);
      PopMinUnique(PopMin(q).1, id);
      MergeStepDistinctIds(q, id);
      DistinctIdsHeadsUnique(MergeStep(q, id), id + 1);
    }
  }

  /** A merge step keeps every entry of the queue well formed. */
  lemma MergeStepWellFormed(q: seq<Node>, id: nat)
    requires |q| >= 2
    ensures (forall i :: 0 <= i < |q| ==> WellFormed(q[i])) ==>
      var r := MergeStep(q, id); forall i :: 0 <= i < |r| ==> WellFormed(r[i])
  {
    var (left, q1) := PopMin(q);
    var (right, q2) := PopMin(q1);
    PopMinFacts(q);
    PopMinFacts(q1);
    PopMinEntries(q);
    PopMinEntries(q1);
    assert MergeStep(q, id) == q2 + [Internal(left, right, left.f + right.f, id)];
  }

  /** A merge step gives the parent a fresh id, so the ids stay distinct. */
  lemma MergeStepDistinctIds(q: seq<Node>, id: nat)
    requires |q| >= 2
    requires DistinctIds(q, id)
    ensures DistinctIds(MergeStep(q, id), id + 1)
  {
    var (left, q1) := PopMin(q);
    var (right, q2) := PopMin(q1);
    PopMinDistinctIds(q, id);
    PopMinDistinctIds(q1, id);
    assert MergeStep(q, id) == q2 + [Internal(left, right, left.f + right.f, id)];
  }

  /** The construction loop run to the end from queue `q` with counter `id`: the
      node that remains. */
  function Merge(q: seq<Node>, id: nat): Node
    requires |q| > 0
    decreases |q|
  {
    if |q| == 1 then q[0] else Merge(MergeStep(q, id), id + 1)
  }

  /** The remaining node weighs what the queue weighed, holds the queue's
      leaves, has one new node per merge, and is well formed when the queue's
      nodes are. */
  lemma {:induction false} MergeFacts(q: seq<Node>, id: nat)
    requires |q| > 0
    ensures Merge(q, id).f == SumF(q)
    ensures multiset(Leaves(Merge(q, id))) == LeafBag(q)
    ensures Size(Merge(q, id)) == SizeSum(q) + |q| - 1
    ensures (forall i :: 0 <= i < |q| ==> WellFormed(q[i])) ==> WellFormed(Merge(q, id))
    decreases |q|
  {
    if |q| == 1 {
      TotalsOfSingle(q[0]);
      assert q == [q[0]];
    } else {
      MergeStepWeight(q, id);
      MergeStepLeaves(q, id);
      MergeStepSize(q, id);
      MergeStepWellFormed(q, id);
      MergeFacts(MergeStep(q, id), id + 1);
    }
  }

  /** Merge on a queue of one node is that node; on a longer queue it is one
      MergeStep followed by the rest. */
  lemma MergeSingle(q: seq<Node>, id: nat)
    requires |q| == 1
    ensures Merge(q, id) == q[0]
  {
  }

  lemma MergeUnfold(q: seq<Node>, id: nat)
    requires |q| >= 2
    ensures Merge(q, id) == Merge(MergeStep(q, id), id + 1)
  {
  }

  /** One turn of the construction loop, from the two removed heads, leaves the
      same node to be found by merging the rest. */
  lemma MergeTurn(q: seq<Node>, id: nat, left: Node, q1: seq<Node>, right: Node, q2: seq<Node>)
    requires |q| >= 2 && (left, q1) == PopMin(q) && (right, q2) == PopMin(q1)
    ensures Merge(q2 + [Internal(left, right, left.f + right.f, id)], id + 1) == Merge(q, id)
  {
    var r := q2 + [Internal(left, right, left.f + right.f, id)];
    assert MergeStep(q, id) == r by { MergeStepParts(q, id); }
    MergeUnfold(q, id);
  }

  /** One turn of the construction loop: remove the two least nodes, the
      first as the left child, and add their parent with id `id`. The queue
      shrinks by one and still merges to the same root. */
  method MergeTwoLeast(q: seq<Node>, id: nat) returns (next: seq<Node>)
    requires |q| >= 2
    ensures next == MergeStep(q, id)
    ensures |next| == |q| - 1
    ensures Merge(next, id + 1) == Merge(q, id)
  {
    var left, right, rest;
    left, rest := RemoveMin(q);
    right, next := RemoveMin(rest);
    MergeTurn(q, id, left, rest, right, next);
    next := next + [Internal(left, right, left.f + right.f, id)];
    MergeStepParts(q, id);
  }

  /** The construction loop of initializeHuffmanEncoderDecoder: while more
      than one node is queued, merge the two least with the next id. The node
      that remains is the one `Merge` describes. */
  method MergeQueue(q: seq<Node>, firstId: nat) returns (root: Node)
    requires |q| > 0
    ensures root == Merge(q, firstId)
  {
    var pq: seq<Node>, id: nat := q, firstId;
    while |pq| > 1
      invariant |pq| > 0 && Merge(pq, id) == Merge(q, firstId)
      decreases |pq|
    {
      pq := MergeTwoLeast(pq, id);
      id := id + 1;
    }
    MergeSingle(pq, id);
    root := pq[0];
  }

  /** A full binary tree with n leaves has 2n - 1 nodes. */
  lemma {:induction false} SizeOfFullTree(t: Node)
    ensures Size(t) == 2 * |Leaves(t)| - 1
  {
    match t
    case Leaf(_, _, _) =>
    case Internal(l, r, _, _) =>
      SizeOfFullTree(l);
      SizeOfFullTree(r);
  }

  /** `order` lists every key of `freq` exactly once: the iteration order of the
      frequency map, which the source leaves to the hash map. */
  ghost predicate IsKeyOrder(order: seq<char>, freq: map<char, nat>) {
    forall c :: multiset(order)[c] == if c in freq then 1 else 0
  }

  /** The queue after the first loop: one leaf per key, in key order, the i-th
      with id i. */
  function InitialQueue(freq: map<char, nat>, order: seq<char>): (q: seq<Node>)
    requires forall i :: 0 <= i < |order| ==> order[i] in freq
  {
    if order == [] then []
    else
      var k := |order| - 1;
      InitialQueue(freq, order[..k]) + [Leaf(order[k], freq[order[k]], k)]
  }

  /** Adding the next key of the order appends its leaf. */
  lemma InitialQueueSnoc(freq: map<char, nat>, order: seq<char>, k: nat)
    requires k < |order| && forall i :: 0 <= i < |order| ==> order[i] in freq
    ensures InitialQueue(freq, order[..k + 1]) == InitialQueue(freq, order[..k]) + [Leaf(order[k], freq[order[k]], k)]
  {
    assert order[..k + 1][..k] == order[..k];
  }

  /** The i-th entry of the leaf queue is the leaf of the i-th key, with id i. */
  lemma {:induction false} InitialQueueEntries(freq: map<char, nat>, order: seq<char>)
    requires forall i :: 0 <= i < |order| ==> order[i] in freq
    ensures var q := InitialQueue(freq, order);
      |q| == |order| && forall i :: 0 <= i < |q| ==> q[i] == Leaf(order[i], freq[order[i]], i)
    decreases |order|
  {
    if order != [] {
      var k := |order| - 1;
      InitialQueueEntries(freq, order[..k]);
    }
  }

  /** The leaf queue holds one node per key and the keys as its leaves. */
  lemma {:induction false} InitialQueueTotals(freq: map<char, nat>, order: seq<char>)
    requires forall i :: 0 <= i < |order| ==> order[i] in freq
    ensures SizeSum(InitialQueue(freq, order)) == |order|
    ensures LeafBag(InitialQueue(freq, order)) == multiset(order)
    decreases |order|
  {
    if order != [] {
      var k := |order| - 1;
      InitialQueueTotals(freq, order[..k]);
      var q := InitialQueue(freq, order);
      assert q[..|q| - 1] == InitialQueue(freq, order[..k]);
      assert order == order[..k] + [order[k]];
    }
  }

  /** The leaf queue has one leaf per key, in key order, with ids 0 .. k-1. */
  lemma InitialQueueShape(freq: map<char, nat>, order: seq<char>)
    requires forall i :: 0 <= i < |order| ==> order[i] in freq
    ensures var q := InitialQueue(freq, order);
      && |q| == |order| && SizeSum(q) == |order|
      && LeafBag(q) == multiset(order)
      && (forall i :: 0 <= i < |q| ==> q[i] == Leaf(order[i], freq[order[i]], i))
      && DistinctIds(q, |order|)
  {
    InitialQueueEntries(freq, order);
    InitialQueueTotals(freq, order);
  }

  /** Every removal of the construction loop, started from the leaf queue,
      takes the only least entry, as the heap-based queue does. */
  lemma ConstructionHeadsUnique(freq: map<char, nat>, order: seq<char>)
    requires forall i :: 0 <= i < |order| ==> order[i] in freq
    ensures HeadsUnique(InitialQueue(freq, order), |order|)
  {
    InitialQueueShape(freq, order);
    DistinctIdsHeadsUnique(InitialQueue(freq, order), |order|);
  }

  /** The key loop of initializeHuffmanEncoderDecoder: one leaf per key, in
      key order, each with the next id. */
  method QueueLeaves(freq: map<char, nat>, order: seq<char>) returns (pq: seq<Node>, id: nat)
    requires forall i :: 0 <= i < |order| ==> order[i] in freq
    ensures pq == InitialQueue(freq, order) && id == |order|
  {
    pq, id := [], 0;
    for k := 0 to |order|
      invariant pq == InitialQueue(freq, order[..k]) && id == k
    {
      var key := order[k];
      InitialQueueSnoc(freq, order, k);
      pq := pq + [Leaf(key, freq[key], id)];
      id := id + 1;
    }
    assert order[..|order|] == order;
  }

  /** The leaf queue weighs the sum of the frequencies of the keys. */
  lemma {:induction false} InitialQueueWeight(data: string, freq: map<char, nat>, order: seq<char>)
    requires forall i :: 0 <= i < |order| ==> order[i] in freq
    requires IsFrequencyTable(freq, data)
    ensures SumF(InitialQueue(freq, order)) == SumCounts(data, order)
    ensures forall i :: 0 <= i < |InitialQueue(freq, order)| ==> InitialQueue(freq, order)[i].Leaf?
    decreases |order|
  {
    if order != [] {
      var k := |order| - 1;
      var q0 := InitialQueue(freq, order[..k]);
      var leaf := Leaf(order[k], freq[order[k]], k);
      var q := q0 + [leaf];
      assert InitialQueue(freq, order) == q;
      InitialQueueWeight(data, freq, order[..k]);
      assert SumF(q) == SumF(q0) + leaf.f by {
        assert q[..|q| - 1] == q0;
      }
      assert leaf.f == multiset(data)[order[k]];
    }
    InitialQueueEntries(freq, order);
  }

  /** initializeHuffmanEncoderDecoder: no root without keys, otherwise the node
      left by merging the leaf queue, with the counter starting after the leaves. */
  function HuffmanTree(freq: map<char, nat>, order: seq<char>): Option<Node>
    requires forall i :: 0 <= i < |order| ==> order[i] in freq
  {
    if |order| == 0 then None else Some(Merge(InitialQueue(freq, order), |order|))
  }

  /** A key order is as long as the map has keys. */
  lemma {:induction false} KeyOrderLength(order: seq<char>, freq: map<char, nat>)
    requires IsKeyOrder(order, freq)
    ensures |order| == |freq|
    decreases |order|
  {
    if order != [] {
      var k := |order| - 1;
      var x := order[k];
      assert order == order[..k] + [x];
      var rest := freq - {x};
      assert multiset(order) == multiset(order[..k]) + multiset{x};
      forall c ensures multiset(order[..k])[c] == if c in rest then 1 else 0 {
        assert multiset(order)[c] == multiset(order[..k])[c] + multiset{x}[c];
      }
      KeyOrderLength(order[..k], rest);
      assert x in freq;
      assert freq.Keys == rest.Keys + {x};
    }
  }

  /** Every entry of a key order is a key. */
  lemma KeyOrderInMap(order: seq<char>, freq: map<char, nat>)
    requires IsKeyOrder(order, freq)
    ensures forall i :: 0 <= i < |order| ==> order[i] in freq
  {
    assert forall i :: 0 <= i < |order| ==> multiset(order)[order[i]] > 0;
  }

  /** The constructed root is well formed and weighs the length of the
      training string. */
  lemma RootWeight(data: string, freq: map<char, nat>, order: seq<char>)
    requires IsFrequencyTable(freq, data) && IsKeyOrder(order, freq) && |order| > 0
    requires forall i :: 0 <= i < |order| ==> order[i] in freq
    ensures var t := Merge(InitialQueue(freq, order), |order|);
      WellFormed(t) && t.f == |data|
  {
    var q := InitialQueue(freq, order);
    MergeFacts(q, |order|);
    assert SumF(q) == SumCounts(data, order) && forall i :: 0 <= i < |q| ==> q[i].Leaf? by {
      InitialQueueWeight(data, freq, order);
    }
    assert SumCounts(data, order) == |data| by {
      TotalCount(data, order);
    }
  }

  /** The constructed root holds each key in exactly one leaf and has 2k - 1
      nodes. */
  lemma RootLeaves(data: string, freq: map<char, nat>, order: seq<char>)
    requires IsFrequencyTable(freq, data) && IsKeyOrder(order, freq) && |order| > 0
    requires forall i :: 0 <= i < |order| ==> order[i] in freq
    ensures var t := Merge(InitialQueue(freq, order), |order|);
      && Size(t) == 2 * |order| - 1
      && (forall c :: multiset(Leaves(t))[c] == if c in data then 1 else 0)
  {
    InitialQueueShape(freq, order);
    MergeFacts(InitialQueue(freq, order), |order|);
  }

  /** What construction guarantees: there is a root exactly when the training
      string is non-empty; then the tree is well formed, weighs the length of the
      training string, holds every trained character in exactly one leaf and no
      other character, and has 2k - 1 nodes for k distinct characters. */
  lemma HuffmanTreeFacts(data: string, freq: map<char, nat>, order: seq<char>)
    requires IsFrequencyTable(freq, data) && IsKeyOrder(order, freq)
    ensures forall i :: 0 <= i < |order| ==> order[i] in freq
    ensures HuffmanTree(freq, order).None? <==> |data| == 0
    ensures HuffmanTree(freq, order).Some? ==>
      var t := HuffmanTree(freq, order).value;
      && WellFormed(t)
      && t.f == |data|
      && (forall c :: multiset(Leaves(t))[c] == if c in data then 1 else 0)
      && |freq| == |order| && Size(t) == 2 * |freq| - 1
  {
    KeyOrderInMap(order, freq);
    KeyOrderLength(order, freq);
    if |data| > 0 {
      assert multiset(order)[data[0]] == 1;
    }
    if |order| > 0 {
      RootWeight(data, freq, order);
      RootLeaves(data, freq, order);
    }
  }
}
