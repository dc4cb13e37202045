/** A reference definition for graphs without cycles: there, the copy is the
    plain unfolding of the graph into a tree, so the stack never marks
    anything and shared objects are simply copied at every place they occur. */
module Acyclic {
  import opened JsValues
  import opened CopySpec

  /** Every reference read from these keys has a rank below `bound`. */
  predicate RankedProps(rank: map<Addr, nat>, props: seq<Prop>, bound: nat) {
    forall i :: 0 <= i < |props| && Fetch(props[i].access).Ref? ==>
      Fetch(props[i].access).addr in rank && rank[Fetch(props[i].access).addr] < bound
  }

  /** `rank` witnesses that the heap has no cycle: every object's children
      have a smaller rank than the object itself. */
  predicate Ranked(heap: Heap, rank: map<Addr, nat>) {
    heap.Keys <= rank.Keys &&
    forall a :: a in heap ==> RankedProps(rank, heap[a].props, rank[a])
  }

  function Height(rank: map<Addr, nat>, v: Value): nat {
    if v.Ref? && v.addr in rank then rank[v.addr] + 1 else 0
  }

  /** The tree a graph without cycles unfolds into, with no stack at all. */
  function Unfold(heap: Heap, rank: map<Addr, nat>, v: Value): Plain
    requires WellFormed(heap) && Ranked(heap, rank) && Closed(heap, v)
    decreases Height(rank, v), 1, 0
  {
    match v
    case Ref(a) =>
      var node := heap[a];
      var vals := UnfoldAll(heap, rank, node.props, rank[a]);
      if node.kind == ArrayKind then List(vals) else Record(Assign(node.props, vals))
    case _ => Leaf(v)
  }

  function UnfoldAll(heap: Heap, rank: map<Addr, nat>, props: seq<Prop>, bound: nat): (vals: seq<Plain>)
    requires WellFormed(heap) && Ranked(heap, rank)
    requires ClosedProps(heap, props) && RankedProps(rank, props, bound)
    ensures |vals| == |props|
    decreases bound + 1, 0, |props|
  {
    if props == [] then []
    else
      var n := |props| - 1;
      UnfoldAll(heap, rank, props[..n], bound) + [Unfold(heap, rank, Fetch(props[n].access))]
  }

  /** Every object on the stack ranks at least `bound`, and `null` is absent. */
  predicate StackAbove(rank: map<Addr, nat>, stack: seq<Value>, bound: nat) {
    forall i :: 0 <= i < |stack| ==>
      stack[i].Ref? && stack[i].addr in rank && rank[stack[i].addr] >= bound
  }

  lemma {:induction false} CopyUnfolds(heap: Heap, rank: map<Addr, nat>, v: Value, stack: seq<Value>)
    requires WellFormed(heap) && Ranked(heap, rank) && Closed(heap, v) && ValidStack(heap, stack)
    requires v.Ref? ==> StackAbove(rank, stack, rank[v.addr])
    ensures Copy(heap, v, stack) == Unfold(heap, rank, v)
    decreases Allowed(heap) - Elems(stack), 1, 0
  {
    if v.Ref? {
      var node := heap[v.addr];
      assert ValidNode(heap, node);
      ChildrenUnfold(heap, rank, node.props, rank[v.addr], stack);
    }
  }

  lemma {:induction false} ChildrenUnfold(heap: Heap, rank: map<Addr, nat>, props: seq<Prop>, bound: nat, stack: seq<Value>)
    requires WellFormed(heap) && Ranked(heap, rank) && ValidStack(heap, stack)
    requires ClosedProps(heap, props) && RankedProps(rank, props, bound)
    requires StackAbove(rank, stack, bound)
    ensures Children(heap, props, stack) == UnfoldAll(heap, rank, props, bound)
    decreases Allowed(heap) - Elems(stack), 0, |props|
  {
    if props != [] {
      var n := |props| - 1;
      var pre := props[..n];
      assert ClosedProps(heap, pre) && RankedProps(rank, pre, bound) by {
        forall i | 0 <= i < |pre| ensures pre[i] == props[i] { }
      }
      ChildrenUnfold(heap, rank, pre, bound, stack);
      var val := Fetch(props[n].access);
      assert Closed(heap, val);
      if IsObject(val) {
        assert forall k :: 0 <= k < |stack| ==> stack[k] != val;
        ObjectAllowed(heap, val);
        PushShrinks(heap, stack, val);
        if val.Ref? {
          assert StackAbove(rank, stack + [val], rank[val.addr]);
        }
        CopyUnfolds(heap, rank, val, stack + [val]);
      }
    }
  }

  /** On a heap without cycles, `stringify`'s copy is the plain unfolding:
      no object is marked "[Circular]" and the result does not depend on the
      order in which shared objects are met. */
  lemma SafeCopyAcyclic(heap: Heap, rank: map<Addr, nat>, v: Value)
    requires WellFormed(heap) && Ranked(heap, rank) && Closed(heap, v)
    ensures SafeCopy(heap, v) == Unfold(heap, rank, v)
  {
    CopyUnfolds(heap, rank, v, []);
  }
}
