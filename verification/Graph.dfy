/** The dataflow graph (Graph, src/graph.cc:83-176, 211-397, Session::set_node_mutable, 669-687).
    A node's algorithm is an arbitrary function of its inputs that may fail. */
module Graphs {
  import opened Common

  type Words = seq<nat>

  /** An algorithm: lengths of its inputs and output, its function, and its flags. */
  datatype Algorithm = Algorithm(
    nparsin: seq<nat>,
    nparsout: nat,
    run: (nat, seq<Words>) -> Option<Words>,
    minLearnTimes: nat,
    isInput: bool,
    isMutable: bool,
    hasLearned: bool
  )

  datatype Node = Node(alg: Algorithm, inputs: seq<nat>, depth: nat)

  type Nodes = seq<Option<Node>>

  predicate Exists(nodes: Nodes, id: nat) {
    id < |nodes| && nodes[id].Some?
  }

  // ---- structure ----

  /** An input of a live node is live, immutable and of smaller depth. */
  predicate GoodInput(nodes: Nodes, i: nat, j: nat)
    requires Exists(nodes, i)
  {
    Exists(nodes, j) && !nodes[j].value.alg.isMutable && nodes[j].value.depth < nodes[i].value.depth
  }

  predicate WellFormed(nodes: Nodes) {
    && (forall i, j :: 0 <= i < |nodes| && nodes[i].Some? && j in nodes[i].value.inputs ==> GoodInput(nodes, i, j))
    && forall i :: 0 <= i < |nodes| && nodes[i].Some? && nodes[i].value.alg.isInput ==>
         i == 0 && nodes[i].value.inputs == [] && nodes[i].value.depth == 0
  }

  /** The free slots are exactly the empty ones, each listed once. */
  predicate FreeSlots(nodes: Nodes, free: seq<nat>) {
    && (forall k, l :: 0 <= k < l < |free| ==> free[k] != free[l])
    && (forall k :: 0 <= k < |free| ==> free[k] < |nodes| && nodes[free[k]].None?)
    && forall i :: 0 <= i < |nodes| && nodes[i].None? ==> i in free
  }

  function Depth(nodes: Nodes, id: nat): nat {
    if Exists(nodes, id) then nodes[id].value.depth else 0
  }

  /** a is id or one of the nodes it is computed from. */
  ghost predicate Ancestor(nodes: Nodes, id: nat, a: nat)
    requires WellFormed(nodes) && Exists(nodes, id)
    decreases Depth(nodes, id)
  {
    a == id || exists j :: j in nodes[id].value.inputs && GoodInput(nodes, id, j) && Ancestor(nodes, j, a)
  }

  lemma {:induction false} AncestorExists(nodes: Nodes, id: nat, a: nat)
    requires WellFormed(nodes) && Exists(nodes, id) && Ancestor(nodes, id, a)
    ensures Exists(nodes, a) && (a == id || Depth(nodes, a) < Depth(nodes, id))
    ensures a != id ==> !nodes[a].value.alg.isMutable
    decreases Depth(nodes, id)
  {
    if a != id {
      var j :| j in nodes[id].value.inputs && GoodInput(nodes, id, j) && Ancestor(nodes, j, a);
      AncestorExists(nodes, j, a);
    }
  }

  lemma {:induction false} AncestorTrans(nodes: Nodes, id: nat, a: nat, b: nat)
    requires WellFormed(nodes) && Exists(nodes, id) && Ancestor(nodes, id, a)
    requires Exists(nodes, a) && Ancestor(nodes, a, b)
    ensures Ancestor(nodes, id, b)
    decreases Depth(nodes, id)
  {
    if a != id {
      var j :| j in nodes[id].value.inputs && GoodInput(nodes, id, j) && Ancestor(nodes, j, a);
      AncestorTrans(nodes, j, a, b);
    }
  }

  lemma AncestorInput(nodes: Nodes, id: nat, j: nat)
    requires WellFormed(nodes) && Exists(nodes, id) && j in nodes[id].value.inputs
    ensures Exists(nodes, j) && Ancestor(nodes, id, j) && Depth(nodes, j) < Depth(nodes, id)
  {
  }

  /** The computation order of an output node: it and its ancestors, each once, no node before one of
      smaller depth. */
  ghost predicate ComputesFor(nodes: Nodes, out: nat, order: seq<nat>) {
    && WellFormed(nodes) && Exists(nodes, out)
    && (forall i :: i in order <==> Ancestor(nodes, out, i))
    && (forall k, l :: 0 <= k < l < |order| ==> order[k] != order[l])
    && forall k, l :: 0 <= k < l < |order| ==> Depth(nodes, order[k]) <= Depth(nodes, order[l])
  }

  lemma InputIsGood(nodes: Nodes, id: nat, j: nat)
    requires WellFormed(nodes) && Exists(nodes, id) && j in nodes[id].value.inputs
    ensures GoodInput(nodes, id, j)
  {
  }

  /** Such an order is topological: every node comes after its inputs. */
  lemma InputsFirst(nodes: Nodes, out: nat, order: seq<nat>, k: nat, j: nat)
    requires ComputesFor(nodes, out, order) && k < |order| && Exists(nodes, order[k]) && j in nodes[order[k]].value.inputs
    ensures exists l :: 0 <= l < k && order[l] == j
  {
    AncestorInput(nodes, order[k], j);
    assert order[k] in order;
    AncestorTrans(nodes, out, order[k], j);
    var l :| 0 <= l < |order| && order[l] == j;
  }

  // ---- the two changes that keep all nodes and their inputs ----

  /** The same nodes with the same inputs and depths. */
  predicate SameShape(a: Nodes, b: Nodes) {
    && |a| <= |b|
    && forall i :: 0 <= i < |a| && a[i].Some? ==>
         b[i].Some? && b[i].value.inputs == a[i].value.inputs && b[i].value.depth == a[i].value.depth
  }

  lemma {:induction false} AncestorSame(a: Nodes, b: Nodes, id: nat, x: nat)
    requires WellFormed(a) && WellFormed(b) && Exists(a, id) && SameShape(a, b)
    ensures Exists(b, id) && (Ancestor(a, id, x) <==> Ancestor(b, id, x))
    decreases Depth(a, id)
  {
    forall j | j in a[id].value.inputs
      ensures GoodInput(a, id, j) && GoodInput(b, id, j) && (Ancestor(a, j, x) <==> Ancestor(b, j, x))
    {
      assert GoodInput(a, id, j) && GoodInput(b, id, j);
      AncestorSame(a, b, j, x);
    }
  }

  lemma ComputesForSame(a: Nodes, b: Nodes, out: nat, order: seq<nat>)
    requires ComputesFor(a, out, order) && WellFormed(b) && SameShape(a, b)
    ensures ComputesFor(b, out, order)
  {
    forall i: nat
      ensures Ancestor(a, out, i) <==> Ancestor(b, out, i)
    {
      AncestorSame(a, b, out, i);
    }
    forall k | 0 <= k < |order|
      ensures Depth(a, order[k]) == Depth(b, order[k])
    {
      assert order[k] in order;
      AncestorExists(a, out, order[k]);
    }
  }

  /** Removing a node that is neither the output nor one of its ancestors. */
  lemma {:induction false} AncestorRemoved(a: Nodes, gone: nat, id: nat, x: nat)
    requires WellFormed(a) && Exists(a, gone) && a[gone].value.alg.isMutable && Exists(a, id) && id != gone
    requires WellFormed(a[gone := None])
    ensures Exists(a[gone := None], id) && (Ancestor(a, id, x) <==> Ancestor(a[gone := None], id, x))
    decreases Depth(a, id)
  {
    var b := a[gone := None];
    forall j | j in a[id].value.inputs
      ensures GoodInput(a, id, j) && GoodInput(b, id, j) && (Ancestor(a, j, x) <==> Ancestor(b, j, x))
    {
      assert GoodInput(a, id, j);
      assert GoodInput(b, id, j);
      AncestorRemoved(a, gone, j, x);
    }
  }

  lemma ComputesForRemoved(a: Nodes, gone: nat, out: nat, order: seq<nat>)
    requires ComputesFor(a, out, order) && Exists(a, gone) && a[gone].value.alg.isMutable && out != gone
    requires WellFormed(a[gone := None])
    ensures ComputesFor(a[gone := None], out, order)
  {
    var b := a[gone := None];
    forall i: nat
      ensures Ancestor(a, out, i) <==> Ancestor(b, out, i)
    {
      AncestorRemoved(a, gone, out, i);
    }
    forall k | 0 <= k < |order|
      ensures Depth(a, order[k]) == Depth(b, order[k])
    {
      assert order[k] in order;
      AncestorExists(a, out, order[k]);
    }
  }

  // ---- meaning ----

  /** The values of the inputs, if all of them have one. */
  ghost function Meanings(nodes: Nodes, inputs: seq<nat>, xin: Words, p: nat, d: nat): Option<seq<Words>>
    requires WellFormed(nodes) && forall j :: j in inputs ==> Exists(nodes, j) && Depth(nodes, j) < d
    decreases d, 0, |inputs|
  {
    if inputs == [] then Some([]) else
      var init, last := inputs[..|inputs| - 1], inputs[|inputs| - 1];
      var rest := Meanings(nodes, init, xin, p, d);
      var v := Meaning(nodes, last, xin, p);
      if rest.None? || v.None? then None else Some(rest.value + [v.value])
  }

  /** The value of a node for input xin modulo p, defined by recursion on its inputs. */
  ghost function Meaning(nodes: Nodes, id: nat, xin: Words, p: nat): Option<Words>
    requires WellFormed(nodes) && Exists(nodes, id)
    decreases Depth(nodes, id), 1
  {
    var node := nodes[id].value;
    if node.alg.isInput then Some(xin) else
      assert forall j :: j in node.inputs ==> GoodInput(nodes, id, j);
      var ins := Meanings(nodes, node.inputs, xin, p, node.depth);
      if ins.None? then None else node.alg.run(p, ins.value)
  }

  // ---- marking ----

  /** Below the given depth, every node computing a marked one is marked. */
  ghost predicate MarkedBelow(nodes: Nodes, marks: seq<bool>, d: nat)
    requires WellFormed(nodes) && |marks| == |nodes|
  {
    forall i, a: nat :: 0 <= i < |nodes| && marks[i] && nodes[i].Some? && nodes[i].value.depth < d && Ancestor(nodes, i, a) ==>
      a < |nodes| && marks[a]
  }

  /** Exactly the ancestors of id are marked in addition. */
  ghost predicate MarkedAlso(nodes: Nodes, id: nat, before: seq<bool>, after: seq<bool>)
    requires WellFormed(nodes) && Exists(nodes, id)
  {
    && |before| == |after| == |nodes|
    && forall i :: 0 <= i < |nodes| ==> (after[i] <==> before[i] || Ancestor(nodes, id, i))
  }

  method MarkNodeAndDeps(nodes: Nodes, id: nat, marks: array<bool>)
    requires WellFormed(nodes) && Exists(nodes, id) && marks.Length == |nodes|
    requires MarkedBelow(nodes, marks[..], Depth(nodes, id))
    modifies marks
    ensures MarkedAlso(nodes, id, old(marks[..]), marks[..])
    decreases Depth(nodes, id)
  {
    hide WellFormed, Ancestor, MarkedBelow;
    ghost var before := marks[..];
    marks[id] := true;
    var inputs := nodes[id].value.inputs;
    MarkStart(nodes, id, before);
    for k := 0 to |inputs|
      invariant MarkedInputs(nodes, id, before, marks[..], k)
    {
      var dep := inputs[k];
      assert dep in inputs;
      InputIsGood(nodes, id, dep);
      ghost var now := marks[..];
      MarkedInputsBelow(nodes, id, before, now, k, Depth(nodes, dep));
      if !marks[dep] {
        MarkNodeAndDeps(nodes, dep, marks);
      }
      MarkedInputsNext(nodes, id, before, now, marks[..], k);
    }
    MarkedAll(nodes, id, before, marks[..]);
  }

  /** id and the ancestors of its first k inputs are marked in addition. */
  ghost predicate MarkedInputs(nodes: Nodes, id: nat, before: seq<bool>, now: seq<bool>, k: nat)
    requires WellFormed(nodes) && Exists(nodes, id)
  {
    && |before| == |now| == |nodes| && k <= |nodes[id].value.inputs|
    && MarkedBelow(nodes, before, Depth(nodes, id))
    && forall i :: 0 <= i < |nodes| ==> (now[i] <==> before[i] || i == id || FromInputs(nodes, id, k, i))
  }

  ghost predicate FromInputs(nodes: Nodes, id: nat, k: nat, a: nat)
    requires WellFormed(nodes) && Exists(nodes, id) && k <= |nodes[id].value.inputs|
  {
    exists l :: 0 <= l < k && GoodInput(nodes, id, nodes[id].value.inputs[l]) && Ancestor(nodes, nodes[id].value.inputs[l], a)
  }

  lemma NothingMarked(nodes: Nodes, id: nat)
    requires WellFormed(nodes) && Exists(nodes, id)
    ensures MarkedBelow(nodes, seq(|nodes|, _ => false), Depth(nodes, id))
  {
  }

  lemma MarkStart(nodes: Nodes, id: nat, before: seq<bool>)
    requires WellFormed(nodes) && Exists(nodes, id) && |before| == |nodes| && MarkedBelow(nodes, before, Depth(nodes, id))
    ensures MarkedInputs(nodes, id, before, before[id := true], 0)
  {
  }

  /** The marks made so far are closed below the depth of the next input. */
  lemma MarkedInputsBelow(nodes: Nodes, id: nat, before: seq<bool>, now: seq<bool>, k: nat, d: nat)
    requires WellFormed(nodes) && Exists(nodes, id) && MarkedInputs(nodes, id, before, now, k) && d <= Depth(nodes, id)
    ensures MarkedBelow(nodes, now, d)
  {
    hide WellFormed, Ancestor;
    var inputs := nodes[id].value.inputs;
    forall i, a: nat | 0 <= i < |nodes| && now[i] && nodes[i].Some? && nodes[i].value.depth < d && Ancestor(nodes, i, a)
      ensures a < |nodes| && now[a]
    {
      AncestorExists(nodes, i, a);
      if !before[i] {
        assert i != id;
        var l :| 0 <= l < k && GoodInput(nodes, id, inputs[l]) && Ancestor(nodes, inputs[l], i);
        AncestorTrans(nodes, inputs[l], i, a);
        assert FromInputs(nodes, id, k, a);
      }
    }
  }

  lemma FromInputsNext(nodes: Nodes, id: nat, k: nat, a: nat)
    requires WellFormed(nodes) && Exists(nodes, id) && k < |nodes[id].value.inputs|
    requires GoodInput(nodes, id, nodes[id].value.inputs[k])
    ensures FromInputs(nodes, id, k + 1, a) <==> FromInputs(nodes, id, k, a) || Ancestor(nodes, nodes[id].value.inputs[k], a)
  {
  }

  lemma MarkedInputsNext(nodes: Nodes, id: nat, before: seq<bool>, now: seq<bool>, after: seq<bool>, k: nat)
    requires WellFormed(nodes) && Exists(nodes, id) && MarkedInputs(nodes, id, before, now, k) && k < |nodes[id].value.inputs|
    requires GoodInput(nodes, id, nodes[id].value.inputs[k])
    requires var dep := nodes[id].value.inputs[k];
      if now[dep] then after == now else MarkedAlso(nodes, dep, now, after)
    ensures MarkedInputs(nodes, id, before, after, k + 1)
  {
    hide WellFormed, Ancestor, FromInputs;
    var dep := nodes[id].value.inputs[k];
    MarkedInputsBelow(nodes, id, before, now, k, Depth(nodes, id));
    forall i | 0 <= i < |nodes|
      ensures after[i] <==> before[i] || i == id || FromInputs(nodes, id, k + 1, i)
    {
      FromInputsNext(nodes, id, k, i);
    }
  }

  lemma MarkedAll(nodes: Nodes, id: nat, before: seq<bool>, now: seq<bool>)
    requires WellFormed(nodes) && Exists(nodes, id) && MarkedInputs(nodes, id, before, now, |nodes[id].value.inputs|)
    ensures MarkedAlso(nodes, id, before, now)
  {
  }

  // ---- sorting by depth ----

  predicate Distinct(s: seq<nat>) {
    forall k, l :: 0 <= k < l < |s| ==> s[k] != s[l]
  }

  predicate SortedByDepth(nodes: Nodes, s: seq<nat>) {
    forall k, l :: 0 <= k < l < |s| ==> Depth(nodes, s[k]) <= Depth(nodes, s[l])
  }

  /** The same elements in an order that respects depth; which one is left open among equal depths. */
  ghost predicate SortOf(nodes: Nodes, s: seq<nat>, r: seq<nat>) {
    && SortedByDepth(nodes, r) && |r| == |s|
    && (forall i :: i in r <==> i in s)
    && (Distinct(s) ==> Distinct(r))
  }

  function Insert(nodes: Nodes, r: seq<nat>, x: nat): (t: seq<nat>)
    ensures |t| == |r| + 1 && forall i :: i in t <==> i == x || i in r
  {
    if r == [] then [x]
    else if Depth(nodes, r[|r| - 1]) <= Depth(nodes, x) then r + [x]
    else
      assert r == r[..|r| - 1] + [r[|r| - 1]];
      Insert(nodes, r[..|r| - 1], x) + [r[|r| - 1]]
  }

  lemma {:induction false} InsertSorted(nodes: Nodes, r: seq<nat>, x: nat)
    requires SortedByDepth(nodes, r)
    ensures SortedByDepth(nodes, Insert(nodes, r, x))
    decreases |r|
  {
    hide Depth;
    if r != [] && Depth(nodes, r[|r| - 1]) > Depth(nodes, x) {
      var init, last := r[..|r| - 1], r[|r| - 1];
      InsertSorted(nodes, init, x);
      var t := Insert(nodes, init, x);
      forall k | 0 <= k < |t|
        ensures Depth(nodes, t[k]) <= Depth(nodes, last)
      {
        assert t[k] in t;
        if t[k] != x {
          var l :| 0 <= l < |init| && init[l] == t[k];
          assert r[l] == t[k];
        }
      }
    }
  }

  lemma {:induction false} InsertDistinct(nodes: Nodes, r: seq<nat>, x: nat)
    requires Distinct(r) && x !in r
    ensures Distinct(Insert(nodes, r, x))
    decreases |r|
  {
    hide Depth;
    if r != [] && Depth(nodes, r[|r| - 1]) > Depth(nodes, x) {
      var init, last := r[..|r| - 1], r[|r| - 1];
      InsertDistinct(nodes, init, x);
      var t := Insert(nodes, init, x);
      assert last !in init && last != x;
      forall k | 0 <= k < |t|
        ensures t[k] != last
      {
        assert t[k] in t;
      }
    }
  }

  /** Stands for std::sort with the depth comparison: only its specification is used. */
  method SortByDepth(nodes: Nodes, s: seq<nat>) returns (r: seq<nat>)
    ensures SortOf(nodes, s, r)
  {
    r := [];
    for k := 0 to |s|
      invariant SortedByDepth(nodes, r) && |r| == k && (forall i :: i in r <==> i in s[..k])
      invariant Distinct(s) ==> Distinct(r)
    {
      InsertSorted(nodes, r, s[k]);
      if Distinct(s) {
        assert s[k] !in s[..k];
        InsertDistinct(nodes, r, s[k]);
      }
      assert s[..k + 1] == s[..k] + [s[k]];
      r := Insert(nodes, r, s[k]);
    }
    assert s[..|s|] == s;
  }

  /** The marked nodes below n in order of their number, up to the first that has not learned. */
  function Collected(nodes: Nodes, marks: seq<bool>, id: nat, n: nat): (s: seq<nat>)
    requires n <= |marks| == |nodes|
    ensures forall i :: i in s ==> i < n && marks[i]
    ensures Distinct(s)
  {
    if n == 0 then [] else
      var before := Collected(nodes, marks, id, n - 1);
      if Blocked(nodes, marks, id, n - 1) || !marks[n - 1] || Blocking(nodes, marks, id, n - 1) then before
      else
        assert forall k :: 0 <= k < |before| ==> before[k] in before;
        before + [n - 1]
  }

  /** A marked node other than the selected one that has not learned. */
  predicate Blocking(nodes: Nodes, marks: seq<bool>, id: nat, j: nat)
    requires j < |marks| == |nodes|
  {
    marks[j] && j != id && nodes[j].Some? && !nodes[j].value.alg.hasLearned
  }

  predicate Blocked(nodes: Nodes, marks: seq<bool>, id: nat, n: nat)
    requires n <= |marks| == |nodes|
  {
    exists j :: 0 <= j < n && Blocking(nodes, marks, id, j)
  }

  lemma {:induction false} CollectedAll(nodes: Nodes, marks: seq<bool>, id: nat, n: nat)
    requires n <= |marks| == |nodes| && !Blocked(nodes, marks, id, n)
    ensures forall i: nat :: i in Collected(nodes, marks, id, n) <==> i < n && marks[i]
    decreases n
  {
    if n > 0 {
      forall j | 0 <= j < n - 1
        ensures !Blocking(nodes, marks, id, j)
      {
      }
      CollectedAll(nodes, marks, id, n - 1);
    }
  }

  // ---- the graph ----

  class Graph {
    var nodes: Nodes
    var freeSlots: seq<nat>
    var computSeq: seq<nat>
    var outNode: Option<nat>
    var nparsin: seq<nat>
    var nparsout: nat
    var isMutable: bool
    var hasLearned: bool

    constructor ()
      ensures Valid() && OutputValid() && nodes == [] && outNode == None && isMutable
      ensures freeSlots == [] && computSeq == [] && nparsin == [] && nparsout == 0 && !hasLearned
    {
      nodes, freeSlots, computSeq, outNode, nparsin, nparsout, isMutable, hasLearned := [], [], [], None, [], 0, true, false;
    }

    /** What every operation keeps. */
    ghost predicate Valid()
      reads this
    {
      && WellFormed(nodes) && FreeSlots(nodes, freeSlots)
      && (outNode.Some? ==> Exists(nodes, outNode.value))
    }

    /** The stored order computes the output node. A selection that fails because a dependency has not
        learned does not keep this. */
    ghost predicate OutputValid()
      reads this
    {
      outNode.Some? ==> ComputesFor(nodes, outNode.value, computSeq)
    }

    /** The list of input variables is node 0. */
    method SetInputVars(nvars: nat) returns (id: Option<nat>)
      requires Valid() && (nodes != [] ==> Exists(nodes, 0) && nodes[0].value.alg.isInput)
      modifies this
      ensures Valid() && (old(OutputValid()) ==> OutputValid())
      ensures id.Some? <==> old(isMutable && (nodes == [] || nodes[0].value.alg.isMutable))
      ensures id.None? ==> unchanged(this)
      ensures id.Some? ==> id.value == 0 && Exists(nodes, 0) && nodes[0].value.alg.isInput
      ensures id.Some? ==> nodes[0].value.alg.nparsout == nvars && nparsin == [nvars]
      ensures id.Some? ==> |nodes| == (if old(nodes) == [] then 1 else old(|nodes|)) && nodes[1..] == old(if nodes == [] then [] else nodes[1..])
      ensures id.Some? ==> if old(nodes) == [] then FreshInput(nodes[0], nvars) else
        var n := old(nodes)[0].value; nodes[0] == Some(n.(alg := n.alg.(nparsout := nvars), depth := 0))
      ensures unchanged(`isMutable) && unchanged(`freeSlots) && unchanged(`outNode) && unchanged(`computSeq)
      ensures unchanged(`nparsout) && unchanged(`hasLearned)
    {
      hide Ancestor, ComputesFor;
      if !isMutable {
        return None;
      }
      if nodes == [] {
        nodes := [Some(Node(Algorithm([], 0, (p, ins) => None, 0, true, true, true), [], 0))];
      } else if !nodes[0].value.alg.isMutable {
        return None;
      }
      ghost var before := nodes;
      var n := nodes[0].value;
      nodes := nodes[0 := Some(n.(alg := n.alg.(nparsout := nvars), depth := 0))];
      nparsin := [nvars];
      id := Some(0);
      if outNode.Some? && ComputesFor(before, outNode.value, computSeq) {
        ComputesForSame(before, nodes, outNode.value, computSeq);
      }
    }

    /** The slot for a new node: the last one freed, or a new one behind the input node. */
    method GetFreeNodeId() returns (id: nat)
      requires Valid() && isMutable
      modifies this
      ensures unchanged(`isMutable) && unchanged(`outNode) && unchanged(`computSeq)
      ensures unchanged(`nparsout) && unchanged(`hasLearned)
      ensures WellFormed(nodes) && SameShape(old(nodes), nodes) && id < |nodes| && nodes[id].None?
      ensures SlotTaken(old(nodes), old(freeSlots), nodes, freeSlots, id)
      ensures nparsin == if old(nodes) == [] then [0] else old(nparsin)
      ensures forall n: Node :: FreeSlots(nodes[id := Some(n)], freeSlots)
    {
      hide Ancestor, ComputesFor;
      if freeSlots != [] {
        id := freeSlots[|freeSlots| - 1];
        freeSlots := freeSlots[..|freeSlots| - 1];
      } else {
        if nodes == [] {
          var input := SetInputVars(0);
        }
        id := |nodes|;
        nodes := nodes + [None];
      }
    }
  
    /** Every node of the stored order is evaluated into its own buffer; the input is copied to buffer 0. */
    method Evaluate(xin: Words, p: nat, xout: array<Words>) returns (res: Option<Words>)
      requires Valid() && outNode.Some? && xout.Length >= |nodes| && forall i :: i in computSeq ==> Exists(nodes, i)
      modifies xout
      ensures res == OrderOutput(nodes, computSeq, outNode.value, p, old(xout[..])[0 := xin])
      ensures OutputValid() ==> res == Meaning(nodes, outNode.value, xin, p)
    {
      hide Ancestor, ComputesFor, WellFormed, Meaning;
      xout[0] := xin;
      ghost var start := xout[..];
      var out := outNode.value;
      if OutputValid() {
        OrderMeans(nodes, out, computSeq, xin, p, start);
      }
      for k := 0 to |computSeq|
        invariant RunOrder(nodes, computSeq, k, p, start) == Some(xout[..])
      {
        var algid := computSeq[k];
        assert algid in computSeq;
        var node := nodes[algid].value;
        if node.alg.isInput {
          continue;
        }
        InputsInRange(nodes, algid);
        var ins := seq(|node.inputs|, j requires 0 <= j < |node.inputs| && node.inputs[j] < xout.Length reads xout => xout[node.inputs[j]]);
        assert ins == InputBuffers(nodes, algid, xout[..]);
        var ret := node.alg.run(p, ins);
        if ret.None? {
          RunFails(nodes, computSeq, k + 1, |computSeq|, p, start);
          return None;
        }
        ghost var before := xout[..];
        xout[algid] := ret.value;
        assert xout[..] == before[algid := ret.value];
      }
      return Some(xout[out]);
    }

    /** Only a mutable node is deleted; no other node uses it. */
    method DeleteNode(id: nat) returns (res: Option<nat>)
      requires Valid()
      modifies this
      ensures Valid() && (old(OutputValid()) ==> OutputValid())
      ensures res.Some? <==> old(Exists(nodes, id) && nodes[id].value.alg.isMutable)
      ensures res.None? ==> unchanged(this)
      ensures res.Some? ==> nodes == old(nodes)[id := None] && freeSlots == old(freeSlots) + [id]
      ensures res.Some? ==> outNode == if old(outNode) == Some(id) then None else old(outNode)
      ensures unchanged(`isMutable) && unchanged(`computSeq) && unchanged(`nparsin) && unchanged(`nparsout) && unchanged(`hasLearned)
    {
      hide Ancestor, ComputesFor;
      if !Exists(nodes, id) || !nodes[id].value.alg.isMutable {
        return None;
      }
      ghost var before := nodes;
      RemoveNode(nodes, id, freeSlots);
      if outNode == Some(id) {
        outNode := None;
      }
      nodes := nodes[id := None];
      freeSlots := freeSlots + [id];
      if outNode.Some? && ComputesFor(before, outNode.value, computSeq) {
        ComputesForRemoved(before, id, outNode.value, computSeq);
      }
      return Some(id);
    }

    /** A node that no other node uses becomes mutable again. */
    method SetNodeMutable(id: nat) returns (res: Option<nat>)
      requires Valid()
      modifies this
      ensures Valid() && (old(OutputValid()) ==> OutputValid())
      ensures res.Some? <==> old(Exists(nodes, id) && isMutable && !UsedBy(nodes, id, |nodes|))
      ensures res.None? ==> unchanged(this)
      ensures res.Some? ==> res == Some(id)
      ensures res.Some? ==>
        var n := old(nodes)[id].value;
        nodes == old(nodes)[id := Some(n.(alg := n.alg.(isMutable := true)))]
      ensures unchanged(`isMutable) && unchanged(`freeSlots) && unchanged(`outNode) && unchanged(`computSeq)
      ensures unchanged(`nparsin) && unchanged(`nparsout) && unchanged(`hasLearned)
    {
      hide Ancestor, ComputesFor;
      if !Exists(nodes, id) || !isMutable {
        return None;
      }
      for i := 0 to |nodes|
        invariant !UsedBy(nodes, id, i)
      {
        if nodes[i].Some? && id in nodes[i].value.inputs {
          return None;
        }
      }
      ghost var before := nodes;
      var n := nodes[id].value;
      nodes := nodes[id := Some(n.(alg := n.alg.(isMutable := true)))];
      if outNode.Some? && ComputesFor(before, outNode.value, computSeq) {
        ComputesForSame(before, nodes, outNode.value, computSeq);
      }
      return Some(id);
    }

    /** Selects the output node. Its dependencies must have learned; if one has not, the selection
        fails after the order has been overwritten. */
    method SetOutputNode(id: nat) returns (res: Option<nat>)
      requires Valid()
      modifies this
      ensures Valid() && unchanged(`nodes) && unchanged(`freeSlots) && unchanged(`isMutable) && unchanged(`nparsin)
      ensures res.Some? <==> isMutable && Exists(nodes, id) && (old(outNode) == Some(id) || !HasUnlearnedDep(nodes, id))
      ensures res.Some? ==> res == outNode == Some(id) && (old(outNode) == Some(id) ==> unchanged(this))
      ensures res.Some? && old(outNode) != Some(id) ==> OutputValid() && nparsout == nodes[id].value.alg.nparsout
      ensures res.Some? && old(outNode) != Some(id) ==> hasLearned == nodes[id].value.alg.hasLearned
      ensures res.None? ==> unchanged(`outNode) && unchanged(`nparsout) && unchanged(`hasLearned)
      ensures res.None? && !(isMutable && Exists(nodes, id)) ==> unchanged(this)
      ensures res.None? && isMutable && Exists(nodes, id) ==> computSeq == Overwritten(nodes, id)
    {
      hide WellFormed, FreeSlots, Ancestor, ComputesFor, MarkedAlso, Collected, Blocked, SortOf, HasUnlearnedDep;
      if !isMutable {
        return None;
      }
      if !Exists(nodes, id) {
        return None;
      }
      if outNode != Some(id) {
        NothingMarked(nodes, id);
        var marks := new bool[|nodes|](_ => false);
        ghost var none := marks[..];
        assert none == seq(|nodes|, _ => false);
        MarkNodeAndDeps(nodes, id, marks);
        MarksAreAncestors(nodes, id, marks[..]);
        assert marks[..] == AncestorMarks(nodes, id);
        var ok := Collect(id, marks);
        if !ok {
          return None;
        }
        var sorted := SortByDepth(nodes, computSeq);
        SortedComputes(nodes, id, marks[..], computSeq, sorted);
        computSeq := sorted;
        outNode := Some(id);
        hasLearned := nodes[id].value.alg.hasLearned;
        nparsout := nodes[id].value.alg.nparsout;
      }
      res := Some(id);
    }

    /** The marked nodes in order of their number, given up at the first that has not learned. */
    method Collect(id: nat, marks: array<bool>) returns (ok: bool)
      requires Valid() && Exists(nodes, id) && marks.Length == |nodes| && forall i :: 0 <= i < |nodes| && marks[i] ==> nodes[i].Some?
      modifies `computSeq
      ensures computSeq == Collected(nodes, marks[..], id, |nodes|)
      ensures ok <==> !Blocked(nodes, marks[..], id, |nodes|)
    {
      computSeq := [];
      ghost var m := marks[..];
      for j := 0 to |nodes|
        modifies `computSeq
        invariant computSeq == Collected(nodes, m, id, j) && !Blocked(nodes, m, id, j)
      {
        if marks[j] {
          if j != id && !nodes[j].value.alg.hasLearned {
            assert Blocking(nodes, m, id, j);
            CollectedStops(nodes, m, id, j, |nodes|);
            return false;
          }
          computSeq := computSeq + [j];
        }
      }
      return true;
    }

    /** A new node computed from existing ones, which become immutable. */
    method NewNode(alg: Algorithm, inputs: seq<nat>) returns (id: Option<nat>)
      requires Valid() && |inputs| == |alg.nparsin| && !alg.isInput
      modifies this
      ensures Valid() && (old(OutputValid()) ==> OutputValid())
      ensures id.Some? <==> old(isMutable && forall j :: 0 <= j < |inputs| ==>
        Exists(nodes, inputs[j]) && nodes[inputs[j]].value.alg.nparsout == alg.nparsin[j])
      ensures id.None? ==> unchanged(this)
      ensures id.Some? ==> Placed(old(nodes), old(freeSlots), nodes, freeSlots, id.value, alg, inputs)
      ensures id.Some? ==> nparsin == if old(nodes) == [] then [0] else old(nparsin)
      ensures unchanged(`outNode) && unchanged(`isMutable) && unchanged(`computSeq) && unchanged(`nparsout) && unchanged(`hasLearned)
    {
      if !isMutable {
        return None;
      }
      for j := 0 to |inputs|
        invariant forall l :: 0 <= l < j ==>
          Exists(nodes, inputs[l]) && nodes[inputs[l]].value.alg.nparsout == alg.nparsin[l]
      {
        if !Exists(nodes, inputs[j]) {
          return None;
        }
        if nodes[inputs[j]].value.alg.nparsout != alg.nparsin[j] {
          return None;
        }
      }
      id := PlaceNode(alg, inputs);
    }

    /** The checked inputs are recorded and made immutable; the depth is one more than the largest. */
    method PlaceNode(alg: Algorithm, inputs: seq<nat>) returns (id: Option<nat>)
      requires Valid() && isMutable && !alg.isInput && forall j :: 0 <= j < |inputs| ==> Exists(nodes, inputs[j])
      modifies this
      ensures Valid() && (old(OutputValid()) ==> OutputValid())
      ensures id.Some? && Placed(old(nodes), old(freeSlots), nodes, freeSlots, id.value, alg, inputs)
      ensures nparsin == if old(nodes) == [] then [0] else old(nparsin)
      ensures unchanged(`outNode) && unchanged(`isMutable) && unchanged(`computSeq) && unchanged(`nparsout) && unchanged(`hasLearned)
    {
      hide Ancestor, ComputesFor, SlotTaken, Placed, Frozen, FreeSlots;
      ghost var start, free := nodes, freeSlots;
      var slot := GetFreeNodeId();
      ghost var before := nodes;
      ShapeExists(start, before, inputs);
      var depth := FreezeInputs(inputs);
      var learned := alg.(hasLearned := alg.hasLearned || alg.minLearnTimes == 0);
      AddNode(before, nodes, slot, Node(learned, inputs, depth + 1), freeSlots);
      PlacedIntro(start, free, before, nodes, freeSlots, slot, alg, inputs, depth + 1);
      ShapeTrans(start, before, nodes[slot := Some(Node(learned, inputs, depth + 1))]);
      nodes := nodes[slot := Some(Node(learned, inputs, depth + 1))];
      id := Some(slot);
      if outNode.Some? {
        OutputStays(start, nodes, outNode.value, computSeq);
      }
    }

    /** The inputs of a new node become immutable; the largest of their depths is found. */
    method FreezeInputs(inputs: seq<nat>) returns (depth: nat)
      requires forall j :: 0 <= j < |inputs| ==> Exists(nodes, inputs[j])
      modifies `nodes
      ensures Frozen(old(nodes), nodes, inputs)
      ensures forall l :: 0 <= l < |inputs| ==> Depth(old(nodes), inputs[l]) <= depth
      ensures depth == 0 || exists l :: 0 <= l < |inputs| && Depth(old(nodes), inputs[l]) == depth
    {
      ghost var before := nodes;
      depth := 0;
      for j := 0 to |inputs|
        modifies `nodes
        invariant Frozen(before, nodes, inputs[..j])
        invariant forall l :: 0 <= l < j ==> Depth(before, inputs[l]) <= depth
        invariant depth == 0 || exists l :: 0 <= l < j && Depth(before, inputs[l]) == depth
      {
        FrozenNext(before, nodes, inputs, j);
        var n := nodes[inputs[j]].value;
        nodes := nodes[inputs[j] := Some(n.(alg := n.alg.(isMutable := false)))];
        depth := if n.depth > depth then n.depth else depth;
      }
      assert inputs[..|inputs|] == inputs;
    }
  }

  lemma ShapeExists(a: Nodes, b: Nodes, inputs: seq<nat>)
    requires SameShape(a, b) && forall j :: 0 <= j < |inputs| ==> Exists(a, inputs[j])
    ensures forall j :: 0 <= j < |inputs| ==> Exists(b, inputs[j])
  {
  }

  lemma ShapeTrans(a: Nodes, b: Nodes, c: Nodes)
    requires SameShape(a, b) && SameShape(b, c)
    ensures SameShape(a, c)
  {
  }

  /** The stored order and the selected node survive a change that keeps all nodes and their inputs. */
  lemma OutputStays(a: Nodes, b: Nodes, out: nat, order: seq<nat>)
    requires WellFormed(b) && SameShape(a, b) && Exists(a, out)
    ensures Exists(b, out) && (ComputesFor(a, out, order) ==> ComputesFor(b, out, order))
  {
    hide Ancestor, WellFormed;
    if ComputesFor(a, out, order) {
      ComputesForSame(a, b, out, order);
    }
  }

  /** The listed nodes are made immutable; nothing else changes. */
  ghost predicate Frozen(before: Nodes, after: Nodes, frozen: seq<nat>) {
    && |after| == |before|
    && (forall i :: 0 <= i < |before| ==>
         if before[i].None? then after[i].None? else
           && after[i].Some?
           && after[i].value == before[i].value.(alg := before[i].value.alg.(isMutable := before[i].value.alg.isMutable && i !in frozen)))
    && forall k :: 0 <= k < |frozen| ==> Exists(after, frozen[k])
  }

  /** A new input node. */
  predicate FreshInput(n: Option<Node>, nvars: nat) {
    && n.Some? && n.value.inputs == [] && n.value.depth == 0 && n.value.alg.isInput && n.value.alg.isMutable
    && n.value.alg.hasLearned && n.value.alg.nparsin == [] && n.value.alg.nparsout == nvars
  }

  /** The slot taken is the last one freed or a new one, behind a new input node if there was no node. */
  ghost predicate SlotTaken(before: Nodes, free: seq<nat>, after: Nodes, free': seq<nat>, id: nat) {
    if free != [] then id == free[|free| - 1] && free' == free[..|free| - 1] && after == before
    else if before == [] then id == 1 && free' == [] && |after| == 2 && FreshInput(after[0], 0) && after[1] == None
    else id == |before| && free' == [] && after == before + [None]
  }

  /** The new node holds the algorithm as given, except that it has learned if that takes no steps; its depth is one more
      than the largest of its inputs. These become immutable; nothing else changes. */
  ghost predicate Placed(before: Nodes, free: seq<nat>, after: Nodes, free': seq<nat>, id: nat, alg: Algorithm, inputs: seq<nat>) {
    exists taken :: SlotTaken(before, free, taken, free', id) && PlacedAt(taken, after, id, alg, inputs)
  }

  ghost predicate PlacedAt(taken: Nodes, after: Nodes, id: nat, alg: Algorithm, inputs: seq<nat>) {
    && |after| == |taken| && Exists(after, id) && taken[id] == None
    && after[id].value.alg == alg.(hasLearned := alg.hasLearned || alg.minLearnTimes == 0) && after[id].value.inputs == inputs
    && (forall l :: 0 <= l < |inputs| ==> Depth(taken, inputs[l]) < after[id].value.depth)
    && (after[id].value.depth == 1 || exists l :: 0 <= l < |inputs| && Depth(taken, inputs[l]) + 1 == after[id].value.depth)
    && forall i :: 0 <= i < |taken| && i != id ==>
         if taken[i].None? then after[i].None? else
           after[i] == Some(taken[i].value.(alg := taken[i].value.alg.(isMutable := taken[i].value.alg.isMutable && i !in inputs)))
  }

  lemma PlacedIntro(start: Nodes, free: seq<nat>, before: Nodes, nodes: Nodes, free': seq<nat>, slot: nat, alg: Algorithm,
                    inputs: seq<nat>, depth: nat)
    requires SlotTaken(start, free, before, free', slot) && slot < |before| && before[slot] == None
    requires Frozen(before, nodes, inputs) && depth >= 1
    requires forall l :: 0 <= l < |inputs| ==> Depth(before, inputs[l]) < depth
    requires depth == 1 || exists l :: 0 <= l < |inputs| && Depth(before, inputs[l]) + 1 == depth
    ensures slot < |nodes|
    ensures var learned := alg.(hasLearned := alg.hasLearned || alg.minLearnTimes == 0);
      Placed(start, free, nodes[slot := Some(Node(learned, inputs, depth))], free', slot, alg, inputs)
  {
    var learned := alg.(hasLearned := alg.hasLearned || alg.minLearnTimes == 0);
    assert PlacedAt(before, nodes[slot := Some(Node(learned, inputs, depth))], slot, alg, inputs);
  }

  lemma FrozenNext(before: Nodes, nodes: Nodes, inputs: seq<nat>, j: nat)
    requires j < |inputs| && Frozen(before, nodes, inputs[..j]) && Exists(before, inputs[j])
    ensures Exists(nodes, inputs[j]) && nodes[inputs[j]].value.depth == Depth(before, inputs[j])
    ensures var n := nodes[inputs[j]].value;
      Frozen(before, nodes[inputs[j] := Some(n.(alg := n.alg.(isMutable := false)))], inputs[..j + 1])
  {
  }

  lemma AddNode(before: Nodes, nodes: Nodes, slot: nat, n: Node, free: seq<nat>)
    requires WellFormed(before) && Frozen(before, nodes, n.inputs) && slot < |before| && before[slot].None? && !n.alg.isInput
    requires forall l :: 0 <= l < |n.inputs| ==> Depth(before, n.inputs[l]) < n.depth
    requires forall n: Node :: FreeSlots(before[slot := Some(n)], free)
    ensures WellFormed(nodes[slot := Some(n)]) && FreeSlots(nodes[slot := Some(n)], free)
    ensures SameShape(before, nodes[slot := Some(n)])
  {
    var after := nodes[slot := Some(n)];
    forall i, j | 0 <= i < |after| && after[i].Some? && j in after[i].value.inputs
      ensures GoodInput(after, i, j)
    {
      if i != slot {
        assert GoodInput(before, i, j);
      } else {
        var l :| 0 <= l < |n.inputs| && n.inputs[l] == j;
      }
    }
    assert FreeSlots(before[slot := Some(n)], free);
  }

  /** Some live node below n has id as an input. */
  predicate UsedBy(nodes: Nodes, id: nat, n: nat)
    requires n <= |nodes|
  {
    exists i :: 0 <= i < n && nodes[i].Some? && id in nodes[i].value.inputs
  }

  lemma RemoveNode(nodes: Nodes, id: nat, free: seq<nat>)
    requires WellFormed(nodes) && FreeSlots(nodes, free) && Exists(nodes, id) && nodes[id].value.alg.isMutable
    ensures WellFormed(nodes[id := None]) && FreeSlots(nodes[id := None], free + [id])
  {
  }

  /** A dependency of id that has not completed its learning phase. */
  ghost predicate HasUnlearnedDep(nodes: Nodes, id: nat)
    requires WellFormed(nodes) && Exists(nodes, id)
  {
    exists a: nat :: Unlearned(nodes, id, a)
  }

  ghost predicate Unlearned(nodes: Nodes, id: nat, a: nat)
    requires WellFormed(nodes) && Exists(nodes, id)
  {
    a != id && Ancestor(nodes, id, a) && Exists(nodes, a) && !nodes[a].value.alg.hasLearned
  }

  lemma {:induction false} CollectedStops(nodes: Nodes, marks: seq<bool>, id: nat, j: nat, n: nat)
    requires j < n <= |marks| == |nodes| && Blocking(nodes, marks, id, j) && !Blocked(nodes, marks, id, j)
    ensures Collected(nodes, marks, id, n) == Collected(nodes, marks, id, j) && Blocked(nodes, marks, id, n)
    decreases n
  {
    hide Blocking, Distinct;
    if j + 1 < n {
      CollectedStops(nodes, marks, id, j, n - 1);
    }
  }

  ghost function AncestorMarks(nodes: Nodes, id: nat): (m: seq<bool>)
    requires WellFormed(nodes) && Exists(nodes, id)
    ensures |m| == |nodes| && forall i :: 0 <= i < |m| ==> (m[i] <==> Ancestor(nodes, id, i))
  {
    seq(|nodes|, i requires 0 <= i < |nodes| => Ancestor(nodes, id, i))
  }

  /** What a selection of id leaves as the order when some dependency has not learned. */
  ghost function Overwritten(nodes: Nodes, id: nat): seq<nat>
    requires WellFormed(nodes) && Exists(nodes, id)
  {
    Collected(nodes, AncestorMarks(nodes, id), id, |nodes|)
  }

  /** Node 1 is selected; node 3 depends on node 2, which has not learned. */
  ghost function TwoBranches(): Nodes {
    var f := (p: nat, ins: seq<Words>) => None;
    [ Some(Node(Algorithm([], 1, f, 0, true, false, true), [], 0)),
      Some(Node(Algorithm([1], 1, f, 0, false, true, true), [0], 1)),
      Some(Node(Algorithm([1], 1, f, 1, false, false, false), [0], 1)),
      Some(Node(Algorithm([1], 1, f, 0, false, true, true), [2], 2)) ]
  }

  lemma OneInput(nodes: Nodes, id: nat, j: nat, a: nat)
    requires WellFormed(nodes) && Exists(nodes, id) && nodes[id].value.inputs == [j]
    ensures Exists(nodes, j) && (Ancestor(nodes, id, a) <==> a == id || Ancestor(nodes, j, a))
  {
  }

  lemma TwoBranchesAncestors(a: nat)
    ensures var nodes := TwoBranches();
      && WellFormed(nodes) && Exists(nodes, 1) && Exists(nodes, 3)
      && (Ancestor(nodes, 1, a) <==> a == 1 || a == 0)
      && (Ancestor(nodes, 3, a) <==> a == 3 || a == 2 || a == 0)
  {
    var nodes := TwoBranches();
    assert GoodInput(nodes, 1, 0) && GoodInput(nodes, 2, 0) && GoodInput(nodes, 3, 2);
    assert WellFormed(nodes);
    hide WellFormed;
    OneInput(nodes, 1, 0, a);
    OneInput(nodes, 2, 0, a);
    OneInput(nodes, 3, 2, a);
  }

  lemma TwoBranchesDepths()
    ensures Depth(TwoBranches(), 0) == 0 && Depth(TwoBranches(), 1) == 1
  {
  }

  lemma TwoBranchesOrder()
    ensures ComputesFor(TwoBranches(), 1, [0, 1])
  {
    var nodes := TwoBranches();
    hide WellFormed, Ancestor, TwoBranches, Depth, Exists;
    TwoBranchesAncestors(0);
    TwoBranchesDepths();
    forall i: nat
      ensures i in [0, 1] <==> Ancestor(nodes, 1, i)
    {
      TwoBranchesAncestors(i);
    }
  }

  lemma TwoBranchesUnlearned()
    requires WellFormed(TwoBranches()) && Exists(TwoBranches(), 3)
    ensures HasUnlearnedDep(TwoBranches(), 3)
  {
    hide WellFormed, Ancestor;
    var nodes := TwoBranches();
    TwoBranchesAncestors(2);
    assert Unlearned(nodes, 3, 2);
  }

  // ---- what a new node means ----

  /** The nodes of a are nodes of b that compute the same. */
  ghost predicate KeepsNodes(a: Nodes, b: Nodes) {
    && SameShape(a, b)
    && forall i :: 0 <= i < |a| && a[i].Some? ==>
         b[i].value.alg.run == a[i].value.alg.run && b[i].value.alg.isInput == a[i].value.alg.isInput
  }

  lemma {:induction false} MeaningsKept(a: Nodes, b: Nodes, inputs: seq<nat>, xin: Words, p: nat, d: nat)
    requires WellFormed(a) && WellFormed(b) && KeepsNodes(a, b) && forall j :: j in inputs ==> Exists(a, j) && Depth(a, j) < d
    ensures forall j :: j in inputs ==> Exists(b, j) && Depth(b, j) < d
    ensures Meanings(b, inputs, xin, p, d) == Meanings(a, inputs, xin, p, d)
    decreases d, 0, |inputs|
  {
    hide WellFormed;
    if inputs != [] {
      var init, last := inputs[..|inputs| - 1], inputs[|inputs| - 1];
      MeaningsKept(a, b, init, xin, p, d);
      MeaningKept(a, b, last, xin, p);
    }
  }

  /** They keep their meanings. */
  lemma {:induction false} MeaningKept(a: Nodes, b: Nodes, id: nat, xin: Words, p: nat)
    requires WellFormed(a) && WellFormed(b) && KeepsNodes(a, b) && Exists(a, id)
    ensures Exists(b, id) && Meaning(b, id, xin, p) == Meaning(a, id, xin, p)
    decreases Depth(a, id), 1
  {
    var node := a[id].value;
    if !node.alg.isInput {
      assert forall j :: j in node.inputs ==> GoodInput(a, id, j) && GoodInput(b, id, j);
      MeaningsKept(a, b, node.inputs, xin, p, node.depth);
    }
  }

  lemma PlacedKeeps(before: Nodes, free: seq<nat>, after: Nodes, free': seq<nat>, id: nat, alg: Algorithm, inputs: seq<nat>)
    requires FreeSlots(before, free) && Placed(before, free, after, free', id, alg, inputs)
    ensures KeepsNodes(before, after) && !Exists(before, id) && Exists(after, id)
    ensures after[id].value.alg == alg.(hasLearned := alg.hasLearned || alg.minLearnTimes == 0) && after[id].value.inputs == inputs
  {
  }

  /** A new node computes its algorithm on the values of its inputs, and has no value if one of them has none; the
      nodes before keep their meanings. */
  lemma NewNodeMeaning(before: Nodes, free: seq<nat>, after: Nodes, free': seq<nat>, id: nat, alg: Algorithm,
                       inputs: seq<nat>, xin: Words, p: nat)
    requires WellFormed(before) && WellFormed(after) && FreeSlots(before, free) && !alg.isInput
    requires Placed(before, free, after, free', id, alg, inputs) && forall j :: 0 <= j < |inputs| ==> Exists(before, inputs[j])
    ensures forall i: nat :: Exists(before, i) ==> Exists(after, i) && Meaning(after, i, xin, p) == Meaning(before, i, xin, p)
    ensures Exists(after, id)
    ensures (exists j :: 0 <= j < |inputs| && Meaning(before, inputs[j], xin, p).None?) ==> Meaning(after, id, xin, p).None?
    ensures forall ins: seq<Words> ::
      |ins| == |inputs| && (forall j :: 0 <= j < |inputs| ==> Meaning(before, inputs[j], xin, p) == Some(ins[j]))
      ==> Meaning(after, id, xin, p) == alg.run(p, ins)
  {
    PlacedKeeps(before, free, after, free', id, alg, inputs);
    hide Meaning, Placed, WellFormed, Ancestor, KeepsNodes, FreeSlots;
    forall i: nat | Exists(before, i)
      ensures Exists(after, i) && Meaning(after, i, xin, p) == Meaning(before, i, xin, p)
    {
      MeaningKept(before, after, i, xin, p);
    }
    if j :| 0 <= j < |inputs| && Meaning(before, inputs[j], xin, p).None? {
      assert inputs[j] in after[id].value.inputs;
      AncestorInput(after, id, inputs[j]);
      AncestorFails(after, id, inputs[j], xin, p);
    }
    forall ins: seq<Words> |
      |ins| == |inputs| && forall j :: 0 <= j < |inputs| ==> Meaning(before, inputs[j], xin, p) == Some(ins[j])
      ensures Meaning(after, id, xin, p) == alg.run(p, ins)
    {
      NodeEvaluated(after, id, ins, xin, p);
    }
  }

  /** On a new node another one can be placed that takes an input of the length it puts out. */
  method NewNodeOnNewNode(g: Graph, alg: Algorithm, inputs: seq<nat>, next: Algorithm) returns (id: Option<nat>, on: Option<nat>)
    requires g.Valid() && g.isMutable && |inputs| == |alg.nparsin| && !alg.isInput && !next.isInput
    requires forall j :: 0 <= j < |inputs| ==> Exists(g.nodes, inputs[j]) && g.nodes[inputs[j]].value.alg.nparsout == alg.nparsin[j]
    requires |next.nparsin| == 1
    modifies g
    ensures g.Valid() && id.Some? && (on.Some? <==> next.nparsin == [alg.nparsout])
  {
    hide WellFormed, Ancestor;
    ghost var before, free := g.nodes, g.freeSlots;
    id := g.NewNode(alg, inputs);
    PlacedKeeps(before, free, g.nodes, g.freeSlots, id.value, alg, inputs);
    on := g.NewNode(next, [id.value]);
  }

  // ---- what a failed selection leaves ----

  lemma OverwrittenMarked(nodes: Nodes, id: nat, i: nat)
    requires WellFormed(nodes) && Exists(nodes, id) && i in Overwritten(nodes, id)
    ensures Ancestor(nodes, id, i)
  {
  }

  /** f is the smallest number of a dependency of id that has not learned. */
  ghost predicate FirstUnlearned(nodes: Nodes, id: nat, f: nat)
    requires WellFormed(nodes) && Exists(nodes, id)
  {
    Unlearned(nodes, id, f) && forall a :: 0 <= a < f ==> !Unlearned(nodes, id, a)
  }

  lemma FirstUnlearnedExists(nodes: Nodes, id: nat) returns (f: nat)
    requires WellFormed(nodes) && Exists(nodes, id) && HasUnlearnedDep(nodes, id)
    ensures FirstUnlearned(nodes, id, f)
  {
    hide Ancestor, WellFormed;
    f :| Unlearned(nodes, id, f);
    while exists a :: 0 <= a < f && Unlearned(nodes, id, a)
      invariant Unlearned(nodes, id, f)
      decreases f
    {
      var a :| 0 <= a < f && Unlearned(nodes, id, a);
      f := a;
    }
  }

  predicate Increasing(s: seq<nat>) {
    forall k, l :: 0 <= k < l < |s| ==> s[k] < s[l]
  }

  lemma {:induction false} CollectedIncreasing(nodes: Nodes, marks: seq<bool>, id: nat, n: nat)
    requires n <= |marks| == |nodes|
    ensures Increasing(Collected(nodes, marks, id, n))
    decreases n
  {
    if n > 0 {
      CollectedIncreasing(nodes, marks, id, n - 1);
      var before := Collected(nodes, marks, id, n - 1);
      forall k | 0 <= k < |before|
        ensures before[k] < n - 1
      {
        assert before[k] in before;
      }
    }
  }

  /** What is left as the order: what id is computed from up to the first that has not learned, by number. */
  lemma OverwrittenIs(nodes: Nodes, id: nat, f: nat)
    requires WellFormed(nodes) && Exists(nodes, id) && FirstUnlearned(nodes, id, f)
    ensures forall a: nat :: a in Overwritten(nodes, id) <==> a < f && Ancestor(nodes, id, a)
    ensures Increasing(Overwritten(nodes, id))
  {
    hide Ancestor, WellFormed;
    var marks := AncestorMarks(nodes, id);
    forall j | 0 <= j < f
      ensures !Blocking(nodes, marks, id, j)
    {
      assert !Unlearned(nodes, id, j);
    }
    assert Blocking(nodes, marks, id, f);
    CollectedStops(nodes, marks, id, f, |nodes|);
    CollectedAll(nodes, marks, id, f);
    CollectedIncreasing(nodes, marks, id, f);
  }

  /** The nodes that out is computed from are those that id is computed from with a number below f, and their depths do
      not decrease with the number. */
  ghost predicate SharedBelow(nodes: Nodes, id: nat, out: nat, f: nat)
    requires WellFormed(nodes) && Exists(nodes, id) && Exists(nodes, out)
  {
    && (forall a: nat :: Ancestor(nodes, out, a) <==> a < f && Ancestor(nodes, id, a))
    && forall a: nat, b: nat :: a < b < f && Ancestor(nodes, id, a) && Ancestor(nodes, id, b) ==> Depth(nodes, a) <= Depth(nodes, b)
  }

  /** A selection of id that fails keeps the stored order right for the node still selected if and only if that node
      shares exactly the dependencies of id below the first that has not learned. */
  lemma FailedSelectionKeepsOrderIff(nodes: Nodes, id: nat, out: nat, f: nat)
    requires WellFormed(nodes) && Exists(nodes, id) && Exists(nodes, out) && FirstUnlearned(nodes, id, f)
    ensures ComputesFor(nodes, out, Overwritten(nodes, id)) <==> SharedBelow(nodes, id, out, f)
  {
    hide Ancestor, WellFormed, FirstUnlearned, Overwritten, Depth;
    OverwrittenIs(nodes, id, f);
    var s := Overwritten(nodes, id);
    if ComputesFor(nodes, out, s) {
      forall a: nat, b: nat | a < b < f && Ancestor(nodes, id, a) && Ancestor(nodes, id, b)
        ensures Depth(nodes, a) <= Depth(nodes, b)
      {
        var k :| 0 <= k < |s| && s[k] == a;
        var l :| 0 <= l < |s| && s[l] == b;
        assert k < l;
      }
    }
    if SharedBelow(nodes, id, out, f) {
      forall k, l | 0 <= k < l < |s|
        ensures Depth(nodes, s[k]) <= Depth(nodes, s[l])
      {
        assert s[k] in s && s[l] in s;
      }
    }
  }

  /** In particular it is lost if the node still selected is not one that id is computed from. Evaluation then returns
      what the buffer of that node held before, unless a node of the order fails. */
  lemma FailedSelectionLosesOrder(nodes: Nodes, id: nat, out: nat, p: nat, bufs: seq<Words>)
    requires WellFormed(nodes) && Exists(nodes, id) && Exists(nodes, out) && |bufs| >= |nodes| && !Ancestor(nodes, id, out)
    ensures !ComputesFor(nodes, out, Overwritten(nodes, id))
    ensures forall i :: i in Overwritten(nodes, id) ==> Exists(nodes, i)
    ensures var res := OrderOutput(nodes, Overwritten(nodes, id), out, p, bufs); res == None || res == Some(bufs[out])
  {
    hide Ancestor, WellFormed, Overwritten;
    var s := Overwritten(nodes, id);
    forall i | i in s
      ensures Exists(nodes, i) && Ancestor(nodes, id, i)
    {
      OverwrittenMarked(nodes, id, i);
      AncestorExists(nodes, id, i);
    }
    OutIsAncestor(nodes, out);
    if RunOrder(nodes, s, |s|, p, bufs).Some? {
      OutsideKeeps(nodes, s, |s|, p, bufs, out);
    }
  }

  lemma OutIsAncestor(nodes: Nodes, out: nat)
    requires WellFormed(nodes) && Exists(nodes, out)
    ensures Ancestor(nodes, out, out)
  {
  }

  /** The four nodes are an instance. */
  lemma TwoBranchesLoseOrder()
    ensures var nodes := TwoBranches();
      && WellFormed(nodes) && ComputesFor(nodes, 1, [0, 1]) && HasUnlearnedDep(nodes, 3)
      && !ComputesFor(nodes, 1, Overwritten(nodes, 3))
  {
    TwoBranchesAncestors(1);
    TwoBranchesOrder();
    TwoBranchesUnlearned();
    hide WellFormed, Ancestor, Overwritten, TwoBranches, HasUnlearnedDep;
    FailedSelectionLosesOrder(TwoBranches(), 3, 1, 2, [[], [], [], []]);
  }

  /** Selecting the node that is still selected reports success and repairs nothing. */
  method ReselectAfterFailure(g: Graph, id: nat) returns (failed: Option<nat>, again: Option<nat>)
    requires g.Valid() && g.isMutable && g.outNode.Some? && g.outNode != Some(id)
    requires Exists(g.nodes, id) && HasUnlearnedDep(g.nodes, id) && !Ancestor(g.nodes, id, g.outNode.value)
    modifies g
    ensures failed == None && again == old(g.outNode) == g.outNode && g.nodes == old(g.nodes)
    ensures g.computSeq == Overwritten(g.nodes, id) && !g.OutputValid()
  {
    hide Ancestor, WellFormed, Overwritten, ComputesFor, HasUnlearnedDep;
    failed := g.SetOutputNode(id);
    FailedSelectionLosesOrder(g.nodes, id, g.outNode.value, 2, seq(|g.nodes|, _ => []));
    again := g.SetOutputNode(g.outNode.value);
  }

  /** What was marked is what the output needs. */
  lemma MarksAreAncestors(nodes: Nodes, id: nat, marks: seq<bool>)
    requires WellFormed(nodes) && Exists(nodes, id) && |marks| == |nodes|
    requires MarkedAlso(nodes, id, seq(|nodes|, _ => false), marks)
    ensures forall i :: 0 <= i < |nodes| ==> (marks[i] <==> Ancestor(nodes, id, i))
    ensures forall i :: 0 <= i < |nodes| && marks[i] ==> nodes[i].Some?
    ensures Blocked(nodes, marks, id, |nodes|) <==> HasUnlearnedDep(nodes, id)
  {
    hide Ancestor, WellFormed;
    forall i | 0 <= i < |nodes| && marks[i]
      ensures nodes[i].Some?
    {
      AncestorExists(nodes, id, i);
    }
    if HasUnlearnedDep(nodes, id) {
      var a: nat :| Unlearned(nodes, id, a);
      assert Blocking(nodes, marks, id, a);
    }
    if Blocked(nodes, marks, id, |nodes|) {
      var j :| 0 <= j < |nodes| && Blocking(nodes, marks, id, j);
      assert Unlearned(nodes, id, j);
    }
  }

  /** The collected nodes sorted by depth compute the output. */
  lemma SortedComputes(nodes: Nodes, id: nat, marks: seq<bool>, s: seq<nat>, r: seq<nat>)
    requires WellFormed(nodes) && Exists(nodes, id) && |marks| == |nodes|
    requires MarkedAlso(nodes, id, seq(|nodes|, _ => false), marks)
    requires s == Collected(nodes, marks, id, |nodes|) && !Blocked(nodes, marks, id, |nodes|) && SortOf(nodes, s, r)
    ensures ComputesFor(nodes, id, r)
  {
    hide Ancestor, WellFormed;
    MarksAreAncestors(nodes, id, marks);
    CollectedAll(nodes, marks, id, |nodes|);
    forall i: nat
      ensures i in r <==> Ancestor(nodes, id, i)
    {
      if Ancestor(nodes, id, i) {
        AncestorExists(nodes, id, i);
      }
    }
  }

  // ---- evaluation ----

  lemma InputsInRange(nodes: Nodes, id: nat)
    requires WellFormed(nodes) && Exists(nodes, id)
    ensures forall l :: 0 <= l < |nodes[id].value.inputs| ==> nodes[id].value.inputs[l] < |nodes|
  {
    forall l | 0 <= l < |nodes[id].value.inputs|
      ensures nodes[id].value.inputs[l] < |nodes|
    {
      InputIsGood(nodes, id, nodes[id].value.inputs[l]);
    }
  }

  /** What the buffers of the inputs of a node hold. */
  ghost function InputBuffers(nodes: Nodes, id: nat, bufs: seq<Words>): (ins: seq<Words>)
    requires WellFormed(nodes) && Exists(nodes, id) && |bufs| >= |nodes|
    ensures |ins| == |nodes[id].value.inputs|
    ensures forall l :: 0 <= l < |ins| ==> nodes[id].value.inputs[l] < |bufs| && ins[l] == bufs[nodes[id].value.inputs[l]]
  {
    InputsInRange(nodes, id);
    seq(|nodes[id].value.inputs|, l requires 0 <= l < |nodes[id].value.inputs| => bufs[nodes[id].value.inputs[l]])
  }

  /** The buffers after the first k nodes of any order, whether or not it computes a node. */
  ghost function RunOrder(nodes: Nodes, order: seq<nat>, k: nat, p: nat, bufs: seq<Words>): (res: Option<seq<Words>>)
    requires WellFormed(nodes) && |bufs| >= |nodes| && k <= |order| && forall i :: i in order ==> Exists(nodes, i)
    ensures res.Some? ==> |res.value| == |bufs|
  {
    if k == 0 then Some(bufs) else
      var prev := RunOrder(nodes, order, k - 1, p, bufs);
      var id := order[k - 1];
      assert id in order;
      var alg := nodes[id].value.alg;
      if prev.None? || alg.isInput then prev else
        var ret := alg.run(p, InputBuffers(nodes, id, prev.value));
        if ret.None? then None else Some(prev.value[id := ret.value])
  }

  /** What the buffer of out holds after an order has been run. */
  ghost function OrderOutput(nodes: Nodes, order: seq<nat>, out: nat, p: nat, bufs: seq<Words>): Option<Words>
    requires WellFormed(nodes) && |bufs| >= |nodes| && out < |nodes| && forall i :: i in order ==> Exists(nodes, i)
  {
    var res := RunOrder(nodes, order, |order|, p, bufs);
    if res.None? then None else Some(res.value[out])
  }

  lemma {:induction false} RunFails(nodes: Nodes, order: seq<nat>, k: nat, n: nat, p: nat, bufs: seq<Words>)
    requires WellFormed(nodes) && |bufs| >= |nodes| && k <= n <= |order| && forall i :: i in order ==> Exists(nodes, i)
    requires RunOrder(nodes, order, k, p, bufs).None?
    ensures RunOrder(nodes, order, n, p, bufs).None?
    decreases n
  {
    if k < n {
      RunFails(nodes, order, k, n - 1, p, bufs);
    }
  }

  /** A node that the order does not contain keeps what its buffer held before. */
  lemma {:induction false} OutsideKeeps(nodes: Nodes, order: seq<nat>, k: nat, p: nat, bufs: seq<Words>, i: nat)
    requires WellFormed(nodes) && |bufs| >= |nodes| && k <= |order| && forall i :: i in order ==> Exists(nodes, i)
    requires i !in order && i < |nodes| && RunOrder(nodes, order, k, p, bufs).Some?
    ensures RunOrder(nodes, order, k, p, bufs).value[i] == bufs[i]
    decreases k
  {
    if k > 0 {
      assert order[k - 1] in order;
      OutsideKeeps(nodes, order, k - 1, p, bufs, i);
    }
  }

  /** Run over the first k nodes, an order that computes out gives them their meanings, or out has none. */
  lemma {:induction false} RunEvaluates(nodes: Nodes, out: nat, order: seq<nat>, k: nat, xin: Words, p: nat, bufs: seq<Words>)
    requires ComputesFor(nodes, out, order) && |bufs| >= |nodes| && bufs[0] == xin && k <= |order|
    requires forall i :: i in order ==> Exists(nodes, i)
    ensures var res := RunOrder(nodes, order, k, p, bufs);
      if res.Some? then Evaluated(nodes, order, k, xin, p, res.value) else Meaning(nodes, out, xin, p).None?
    decreases k
  {
    hide Ancestor, WellFormed, Meaning;
    if k == 0 {
      EvaluationStart(nodes, out, order, xin, p, bufs);
    } else {
      RunEvaluates(nodes, out, order, k - 1, xin, p, bufs);
      var prev := RunOrder(nodes, order, k - 1, p, bufs);
      if prev.Some? {
        var id := order[k - 1];
        OrderMember(nodes, out, order, k - 1);
        if nodes[id].value.alg.isInput {
          InputEvaluated(nodes, order, k - 1, xin, p, prev.value);
        } else {
          InputsEvaluated(nodes, out, order, k - 1, xin, p, prev.value);
          var ins := InputBuffers(nodes, id, prev.value);
          NodeEvaluated(nodes, id, ins, xin, p);
          var ret := nodes[id].value.alg.run(p, ins);
          if ret.None? {
            AncestorFails(nodes, out, id, xin, p);
          } else {
            EvaluatedNext(nodes, order, k - 1, xin, p, prev.value, ret.value);
          }
        }
      }
    }
  }

  /** An order that computes out leaves the meaning of out in its buffer. */
  lemma OrderMeans(nodes: Nodes, out: nat, order: seq<nat>, xin: Words, p: nat, bufs: seq<Words>)
    requires ComputesFor(nodes, out, order) && |bufs| >= |nodes| && bufs[0] == xin
    requires forall i :: i in order ==> Exists(nodes, i)
    ensures OrderOutput(nodes, order, out, p, bufs) == Meaning(nodes, out, xin, p)
  {
    hide Ancestor, Meaning, Evaluated;
    RunEvaluates(nodes, out, order, |order|, xin, p, bufs);
    var res := RunOrder(nodes, order, |order|, p, bufs);
    if res.Some? {
      OutputEvaluated(nodes, out, order, xin, p, res.value);
    }
  }

  /** The first k nodes of the order have their values in their buffers, and so has the input node. */
  ghost predicate Evaluated(nodes: Nodes, order: seq<nat>, k: nat, xin: Words, p: nat, xout: seq<Words>) {
    && WellFormed(nodes) && k <= |order| && |xout| >= |nodes|
    && (forall l :: 0 <= l < |order| ==> Exists(nodes, order[l]))
    && (forall l, m :: 0 <= l < m < |order| ==> order[l] != order[m])
    && (Exists(nodes, 0) && nodes[0].value.alg.isInput ==> xout[0] == xin)
    && forall l :: 0 <= l < k ==> Meaning(nodes, order[l], xin, p) == Some(xout[order[l]])
  }

  lemma EvaluationStart(nodes: Nodes, out: nat, order: seq<nat>, xin: Words, p: nat, xout: seq<Words>)
    requires ComputesFor(nodes, out, order) && |xout| >= |nodes| && xout[0] == xin
    ensures Evaluated(nodes, order, 0, xin, p, xout)
  {
    hide WellFormed, Ancestor;
    forall l | 0 <= l < |order|
      ensures Exists(nodes, order[l])
    {
      OrderMember(nodes, out, order, l);
    }
  }

  lemma OrderMember(nodes: Nodes, out: nat, order: seq<nat>, k: nat)
    requires ComputesFor(nodes, out, order) && k < |order|
    ensures Exists(nodes, order[k]) && Ancestor(nodes, out, order[k])
  {
    assert order[k] in order;
    AncestorExists(nodes, out, order[k]);
  }

  lemma InputEvaluated(nodes: Nodes, order: seq<nat>, k: nat, xin: Words, p: nat, xout: seq<Words>)
    requires Evaluated(nodes, order, k, xin, p, xout) && k < |order| && nodes[order[k]].value.alg.isInput
    ensures Evaluated(nodes, order, k + 1, xin, p, xout)
  {
  }

  lemma InputsEvaluated(nodes: Nodes, out: nat, order: seq<nat>, k: nat, xin: Words, p: nat, xout: seq<Words>)
    requires ComputesFor(nodes, out, order) && Evaluated(nodes, order, k, xin, p, xout) && k < |order|
    ensures order[k] < |xout|
    ensures var inputs := nodes[order[k]].value.inputs;
      && (forall j :: 0 <= j < |inputs| ==> inputs[j] < |xout| && Exists(nodes, inputs[j]))
      && (forall j :: 0 <= j < |inputs| ==> Meaning(nodes, inputs[j], xin, p) == Some(xout[inputs[j]]))
  {
    hide Meaning, Ancestor;
    var inputs := nodes[order[k]].value.inputs;
    forall j | 0 <= j < |inputs|
      ensures inputs[j] < |xout| && Exists(nodes, inputs[j])
      ensures Meaning(nodes, inputs[j], xin, p) == Some(xout[inputs[j]])
    {
      assert inputs[j] in inputs;
      AncestorInput(nodes, order[k], inputs[j]);
      InputsFirst(nodes, out, order, k, inputs[j]);
      var l :| 0 <= l < k && order[l] == inputs[j];
    }
  }

  lemma {:induction false} MeaningsAll(nodes: Nodes, inputs: seq<nat>, ins: seq<Words>, xin: Words, p: nat, d: nat)
    requires WellFormed(nodes) && (forall j :: j in inputs ==> Exists(nodes, j) && Depth(nodes, j) < d) && |ins| == |inputs|
    requires forall j :: 0 <= j < |inputs| ==> Exists(nodes, inputs[j]) && Meaning(nodes, inputs[j], xin, p) == Some(ins[j])
    ensures Meanings(nodes, inputs, xin, p, d) == Some(ins)
    decreases |inputs|
  {
    hide Meaning, WellFormed;
    if inputs != [] {
      MeaningsAll(nodes, inputs[..|inputs| - 1], ins[..|ins| - 1], xin, p, d);
      assert ins == ins[..|ins| - 1] + [ins[|ins| - 1]];
    }
  }

  lemma NodeEvaluated(nodes: Nodes, id: nat, ins: seq<Words>, xin: Words, p: nat)
    requires WellFormed(nodes) && Exists(nodes, id) && !nodes[id].value.alg.isInput && |ins| == |nodes[id].value.inputs|
    requires forall j :: 0 <= j < |ins| ==>
      Exists(nodes, nodes[id].value.inputs[j]) && Meaning(nodes, nodes[id].value.inputs[j], xin, p) == Some(ins[j])
    ensures Meaning(nodes, id, xin, p) == nodes[id].value.alg.run(p, ins)
  {
    var node := nodes[id].value;
    assert forall j :: j in node.inputs ==> GoodInput(nodes, id, j);
    MeaningsAll(nodes, node.inputs, ins, xin, p, node.depth);
  }

  lemma EvaluatedNext(nodes: Nodes, order: seq<nat>, k: nat, xin: Words, p: nat, xout: seq<Words>, v: Words)
    requires Evaluated(nodes, order, k, xin, p, xout) && k < |order| && !nodes[order[k]].value.alg.isInput
    requires Meaning(nodes, order[k], xin, p) == Some(v)
    ensures Evaluated(nodes, order, k + 1, xin, p, xout[order[k] := v])
  {
  }

  lemma OutputEvaluated(nodes: Nodes, out: nat, order: seq<nat>, xin: Words, p: nat, xout: seq<Words>)
    requires ComputesFor(nodes, out, order) && Evaluated(nodes, order, |order|, xin, p, xout)
    ensures out < |xout| && Meaning(nodes, out, xin, p) == Some(xout[out])
  {
    hide Meaning, WellFormed;
    assert out in order;
    var l :| 0 <= l < |order| && order[l] == out;
  }

  lemma {:induction false} MeaningsFail(nodes: Nodes, inputs: seq<nat>, j: nat, xin: Words, p: nat, d: nat)
    requires WellFormed(nodes) && (forall j :: j in inputs ==> Exists(nodes, j) && Depth(nodes, j) < d)
    requires j in inputs && Meaning(nodes, j, xin, p).None?
    ensures Meanings(nodes, inputs, xin, p, d).None?
    decreases |inputs|
  {
    hide Meaning, WellFormed;
    if inputs[|inputs| - 1] != j {
      MeaningsFail(nodes, inputs[..|inputs| - 1], j, xin, p, d);
    }
  }

  /** If a node fails, so does everything computed from it. */
  lemma {:induction false} AncestorFails(nodes: Nodes, id: nat, a: nat, xin: Words, p: nat)
    requires WellFormed(nodes) && Exists(nodes, id) && Ancestor(nodes, id, a) && Exists(nodes, a)
    requires Meaning(nodes, a, xin, p).None?
    ensures Meaning(nodes, id, xin, p).None?
    decreases Depth(nodes, id)
  {
    if a != id {
      var j :| j in nodes[id].value.inputs && GoodInput(nodes, id, j) && Ancestor(nodes, j, a);
      AncestorFails(nodes, j, a, xin, p);
      var node := nodes[id].value;
      assert forall j :: j in node.inputs ==> GoodInput(nodes, id, j);
      MeaningsFail(nodes, node.inputs, j, xin, p, node.depth);
    }
  }
}
