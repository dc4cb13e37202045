/** The copier as the source runs it: one shared, mutable ancestor stack,
    pushed before each recursive call and popped after it, and a result
    built key by key inside the `for...in` loop (lib/index.js:19-68). */
module Copier {
  import opened JsValues
  import opened CopySpec

  /** The JavaScript array used as the ancestor stack. */
  class Stack {
    var items: seq<Value>

    constructor ()
      ensures items == []
    {
      items := [];
    }

    /** `stack.push(v)` */
    method Push(v: Value)
      modifies this
      ensures items == old(items) + [v]
    {
      items := items + [v];
    }

    /** `stack.pop()`: removes and returns the last element; on an empty
        array it returns `undefined` and changes nothing. */
    method Pop() returns (v: Value)
      modifies this
      ensures old(items) == [] ==> items == [] && v == Undefined
      ensures old(items) != [] ==>
                items == old(items)[..|old(items)| - 1] && v == old(items)[|old(items)| - 1]
    {
      if items == [] {
        v := Undefined;
      } else {
        v := items[|items| - 1];
        items := items[..|items| - 1];
      }
    }

    /** `stack.indexOf(v)`: the first position holding a value identical to
        `v`, or -1 when there is none. */
    method IndexOf(v: Value) returns (i: int)
      ensures -1 <= i < |items|
      ensures i == -1 <==> v !in items
      ensures 0 <= i ==> items[i] == v && v !in items[..i]
    {
      i := 0;
      while i < |items|
        invariant 0 <= i <= |items|
        invariant v !in items[..i]
      {
        if items[i] == v {
          return;
        }
        i := i + 1;
      }
      assert items[..i] == items;
      i := -1;
    }
  }

  /** `copy(data, stack)`: returns what `Copy` specifies and leaves the stack
      as it found it, every push being matched by a pop. */
  method CopyData(heap: Heap, data: Value, stack: Stack) returns (r: Plain)
    requires WellFormed(heap) && Closed(heap, data) && ValidStack(heap, stack.items)
    requires data.Ref? ==> Null !in stack.items
    modifies stack
    ensures stack.items == old(stack.items)
    ensures r == Copy(heap, data, old(stack.items))
    decreases Allowed(heap) - Elems(stack.items), 1
  {
    if !data.Ref? {
      return Leaf(data);
    }
    var node := heap[data.addr];
    assert ValidNode(heap, node);
    var isArray := node.kind == ArrayKind;
    ghost var path := stack.items;
    var items: seq<Plain> := [];
    var fields: seq<Field> := [];
    ghost var vals: seq<Plain> := [];
    var i := 0;
    while i < |node.props|
      invariant 0 <= i <= |node.props|
      invariant stack.items == path
      invariant vals == Children(heap, node.props[..i], path)
      invariant isArray ==> items == vals
      invariant !isArray ==> fields == Assign(node.props[..i], vals)
    {
      var prop := node.props[i];
      var out := CopyKey(heap, prop, stack);
      if isArray {
        items := items + [out];
      } else {
        fields := Put(fields, prop.key, out);
      }
      NextKey(heap, node.props, i, path, vals, out);
      vals := vals + [out];
      i := i + 1;
    }
    assert node.props[..i] == node.props;
    r := if isArray then List(items) else Record(fields);
  }

  /** The body of the `for...in` loop for one key, up to storing the value
      (lib/index.js:26-49). */
  method CopyKey(heap: Heap, prop: Prop, stack: Stack) returns (out: Plain)
    requires WellFormed(heap) && Closed(heap, Fetch(prop.access)) && ValidStack(heap, stack.items)
    requires Null !in stack.items
    modifies stack
    ensures stack.items == old(stack.items)
    ensures out == Child(heap, prop, old(stack.items))
    decreases Allowed(heap) - Elems(stack.items), 0
  {
    var val := Fetch(prop.access);
    if IsObject(val) {
      var at := stack.IndexOf(val);
      if at > -1 {
        out := Leaf(Str(CIRCULAR));
      } else {
        ObjectAllowed(heap, val);
        PushShrinks(heap, stack.items, val);
        ghost var path := stack.items;
        stack.Push(val);
        out := CopyData(heap, val, stack);
        var _ := stack.Pop();
        assert (path + [val])[..|path|] == path;
      }
    } else {
      out := Leaf(val);
    }
  }

  /** One more key processed: the stored values and the keyed object grow by
      that key's value. */
  lemma NextKey(heap: Heap, props: seq<Prop>, i: nat, path: seq<Value>, vals: seq<Plain>, out: Plain)
    requires WellFormed(heap) && ClosedProps(heap, props) && ValidStack(heap, path) && Null !in path
    requires i < |props|
    requires vals == Children(heap, props[..i], path)
    requires out == Child(heap, props[i], path)
    ensures vals + [out] == Children(heap, props[..i + 1], path)
    ensures Assign(props[..i + 1], vals + [out]) == Put(Assign(props[..i], vals), props[i].key, out)
  {
    assert props[..i + 1][..i] == props[..i];
    assert (vals + [out])[..i] == vals;
  }

  /** `stringify(data)` up to the host encoder: copy `data` with a fresh,
      empty stack (lib/index.js:65). */
  method Stringify(heap: Heap, data: Value) returns (r: Plain)
    requires WellFormed(heap) && Closed(heap, data)
    ensures r == SafeCopy(heap, data)
  {
    var stack := new Stack();
    r := CopyData(heap, data, stack);
  }
}
