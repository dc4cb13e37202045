/** Properties of the copy: shape, the cycle marker, the error marker,
    `toJSON` projection, shared references and the depth bound. */
module CopyProperties {
  import opened JsValues
  import opened CopySpec

  /** The `i`-th stored value depends only on the `i`-th key. */
  lemma {:induction false} ChildrenAt(heap: Heap, props: seq<Prop>, stack: seq<Value>, i: nat)
    requires WellFormed(heap) && ClosedProps(heap, props) && ValidStack(heap, stack) && Null !in stack
    requires i < |props|
    ensures Children(heap, props, stack)[i] == Child(heap, props[i], stack)
  {
    var n := |props| - 1;
    if i < n {
      assert props[..n][i] == props[i];
      ChildrenAt(heap, props[..n], stack, i);
    }
  }

  /** The keys `for...in` yields, in order, without "__proto__". */
  function OwnKeys(props: seq<Prop>): seq<string> {
    if props == [] then []
    else
      var n := |props| - 1;
      OwnKeys(props[..n]) + (if props[n].key == PROTO then [] else [props[n].key])
  }

  predicate NoProto(props: seq<Prop>) {
    forall i :: 0 <= i < |props| ==> props[i].key != PROTO
  }

  lemma DistinctPrefix(props: seq<Prop>, n: nat)
    requires DistinctKeys(props) && n <= |props|
    ensures DistinctKeys(props[..n])
  {
    var pre := props[..n];
    forall i, j | 0 <= i < j < |pre| ensures pre[i].key != pre[j].key {
      assert pre[i] == props[i] && pre[j] == props[j];
    }
  }

  /** Every field of the object is one of the assignments made. */
  lemma {:induction false} AssignFrom(props: seq<Prop>, vals: seq<Plain>)
    requires |props| == |vals|
    ensures forall f :: f in Assign(props, vals) ==>
              exists i :: 0 <= i < |props| && f == Field(props[i].key, vals[i])
  {
    if props != [] {
      var n := |props| - 1;
      var pre, vpre := props[..n], vals[..n];
      AssignFrom(pre, vpre);
      forall f | f in Assign(props, vals)
        ensures exists i :: 0 <= i < |props| && f == Field(props[i].key, vals[i])
      {
        if f in Assign(pre, vpre) {
          var i :| 0 <= i < n && f == Field(pre[i].key, vpre[i]);
          assert pre[i] == props[i] && vpre[i] == vals[i];
        } else {
          assert f == Field(props[n].key, vals[n]);
        }
      }
    }
  }

  /** With distinct keys, the last key is new to the object built from the
      keys before it: it is appended, unless it is "__proto__". */
  lemma AssignLast(props: seq<Prop>, vals: seq<Plain>)
    requires |props| == |vals| && DistinctKeys(props) && props != []
    ensures var n := |props| - 1;
            var prev := Assign(props[..n], vals[..n]);
            Assign(props, vals) == if props[n].key == PROTO then prev else prev + [Field(props[n].key, vals[n])]
  {
    var n := |props| - 1;
    var pre, vpre := props[..n], vals[..n];
    var prev := Assign(pre, vpre);
    var k := props[n].key;
    AssignFrom(pre, vpre);
    if k != PROTO {
      forall m | 0 <= m < |prev| ensures Keys(prev)[m] != k {
        assert prev[m] in prev;
        var i :| 0 <= i < n && prev[m] == Field(pre[i].key, vpre[i]);
        assert pre[i] == props[i];
      }
      assert k !in Keys(prev);
    }
  }

  /** With distinct keys, keyed assignment appends every key except
      "__proto__" once, in order, with its value; with no "__proto__" key
      the result lines up with the keys one for one. */
  lemma AssignDistinct(props: seq<Prop>, vals: seq<Plain>)
    requires |props| == |vals| && DistinctKeys(props)
    ensures Keys(Assign(props, vals)) == OwnKeys(props)
    ensures forall i :: 0 <= i < |props| && props[i].key != PROTO ==>
              Field(props[i].key, vals[i]) in Assign(props, vals)
    ensures NoProto(props) ==>
              |Assign(props, vals)| == |props| &&
              forall i :: 0 <= i < |props| ==> Assign(props, vals)[i] == Field(props[i].key, vals[i])
  {
    AssignKeys(props, vals);
    AssignHas(props, vals);
    if NoProto(props) {
      AssignAligned(props, vals);
    }
  }

  lemma {:induction false} AssignKeys(props: seq<Prop>, vals: seq<Plain>)
    requires |props| == |vals| && DistinctKeys(props)
    ensures Keys(Assign(props, vals)) == OwnKeys(props)
  {
    if props != [] {
      var n := |props| - 1;
      var pre, vpre := props[..n], vals[..n];
      DistinctPrefix(props, n);
      AssignKeys(pre, vpre);
      AssignLast(props, vals);
      var k := props[n].key;
      assert OwnKeys(props) == OwnKeys(pre) + (if k == PROTO then [] else [k]);
      if k != PROTO {
        KeysPush(Assign(pre, vpre), Field(k, vals[n]));
      }
    }
  }

  lemma KeysPush(fields: seq<Field>, f: Field)
    ensures Keys(fields + [f]) == Keys(fields) + [f.key]
  {
    assert |Keys(fields + [f])| == |Keys(fields) + [f.key]|;
  }

  lemma {:induction false} AssignHas(props: seq<Prop>, vals: seq<Plain>)
    requires |props| == |vals| && DistinctKeys(props)
    ensures forall i :: 0 <= i < |props| && props[i].key != PROTO ==>
              Field(props[i].key, vals[i]) in Assign(props, vals)
  {
    if props != [] {
      var n := |props| - 1;
      var pre, vpre := props[..n], vals[..n];
      DistinctPrefix(props, n);
      AssignHas(pre, vpre);
      AssignLast(props, vals);
      var prev := Assign(pre, vpre);
      assert forall f :: f in prev ==> f in Assign(props, vals);
      forall i | 0 <= i < n && props[i].key != PROTO
        ensures Field(props[i].key, vals[i]) in prev
      {
        assert pre[i] == props[i] && vpre[i] == vals[i];
      }
    }
  }

  lemma {:induction false} AssignAligned(props: seq<Prop>, vals: seq<Plain>)
    requires |props| == |vals| && DistinctKeys(props) && NoProto(props)
    ensures |Assign(props, vals)| == |props|
    ensures forall i :: 0 <= i < |props| ==> Assign(props, vals)[i] == Field(props[i].key, vals[i])
  {
    if props != [] {
      var n := |props| - 1;
      var pre, vpre := props[..n], vals[..n];
      DistinctPrefix(props, n);
      assert NoProto(pre) by {
        forall i | 0 <= i < |pre| ensures pre[i].key != PROTO {
          assert pre[i] == props[i];
        }
      }
      AssignAligned(pre, vpre);
      AssignLast(props, vals);
      var prev := Assign(pre, vpre);
      var r := Assign(props, vals);
      assert props[n].key != PROTO;
      assert r == prev + [Field(props[n].key, vals[n])];
      forall i | 0 <= i < n ensures r[i] == Field(props[i].key, vals[i]) {
        assert r[i] == prev[i] == Field(pre[i].key, vpre[i]);
      }
    }
  }

  /** An array source yields an array with one element per enumerated key,
      in enumeration order, each the value processed for that key. */
  lemma ArrayShape(heap: Heap, a: Addr, stack: seq<Value>)
    requires WellFormed(heap) && a in heap && ValidStack(heap, stack) && Null !in stack
    requires heap[a].kind == ArrayKind
    ensures var r := Copy(heap, Ref(a), stack);
            r.List? && |r.items| == |heap[a].props| &&
            forall i :: 0 <= i < |heap[a].props| ==> r.items[i] == Child(heap, heap[a].props[i], stack)
  {
    assert ValidNode(heap, heap[a]);
    forall i | 0 <= i < |heap[a].props| {
      ChildrenAt(heap, heap[a].props, stack, i);
    }
  }

  /** An object source yields an object with exactly the enumerated keys
      other than "__proto__", in enumeration order, each mapped to the value
      processed for it. */
  lemma ObjectShape(heap: Heap, a: Addr, stack: seq<Value>)
    requires WellFormed(heap) && a in heap && ValidStack(heap, stack) && Null !in stack
    requires heap[a].kind == ObjectKind
    ensures var r := Copy(heap, Ref(a), stack);
            r.Record? && Keys(r.fields) == OwnKeys(heap[a].props) &&
            (forall i :: 0 <= i < |heap[a].props| && heap[a].props[i].key != PROTO ==>
               Field(heap[a].props[i].key, Child(heap, heap[a].props[i], stack)) in r.fields) &&
            (forall f :: f in r.fields ==>
               (exists i :: 0 <= i < |heap[a].props| && heap[a].props[i].key != PROTO &&
                  f == Field(heap[a].props[i].key, Child(heap, heap[a].props[i], stack))))
  {
    var props := heap[a].props;
    assert ValidNode(heap, heap[a]);
    var vals := Children(heap, props, stack);
    AssignKeys(props, vals);
    AssignHas(props, vals);
    AssignFrom(props, vals);
    forall i | 0 <= i < |props| {
      ChildrenAt(heap, props, stack, i);
    }
  }

  /** Without a "__proto__" key, field `i` of the copied object is key `i`
      with its processed value. */
  lemma ObjectAligned(heap: Heap, a: Addr, stack: seq<Value>)
    requires WellFormed(heap) && a in heap && ValidStack(heap, stack) && Null !in stack
    requires heap[a].kind == ObjectKind && NoProto(heap[a].props)
    ensures var r := Copy(heap, Ref(a), stack);
            r.Record? && |r.fields| == |heap[a].props| &&
            forall i :: 0 <= i < |heap[a].props| ==>
              r.fields[i] == Field(heap[a].props[i].key, Child(heap, heap[a].props[i], stack))
  {
    var props := heap[a].props;
    assert ValidNode(heap, heap[a]);
    AssignAligned(props, Children(heap, props, stack));
    forall i | 0 <= i < |props| {
      ChildrenAt(heap, props, stack, i);
    }
  }

  /** An object value is replaced by exactly "[Circular]" if and only if it
      is reference-identical to an element of the current stack. */
  lemma CircularIff(heap: Heap, p: Prop, stack: seq<Value>)
    requires WellFormed(heap) && Closed(heap, Fetch(p.access)) && ValidStack(heap, stack) && Null !in stack
    requires IsObject(Fetch(p.access))
    ensures Child(heap, p, stack) == Leaf(Str(CIRCULAR)) <==> Fetch(p.access) in stack
  {
    var val := Fetch(p.access);
    if val !in stack {
      ObjectAllowed(heap, val);
      PushShrinks(heap, stack, val);
      var r := Copy(heap, val, stack + [val]);
      assert r.List? || r.Record? || r == Leaf(Null);
    }
  }

  /** An object value not on the stack is pushed, copied with the pushed
      stack, and the copy is what gets stored. */
  lemma CopiedWhenNew(heap: Heap, p: Prop, stack: seq<Value>)
    requires WellFormed(heap) && Closed(heap, Fetch(p.access)) && ValidStack(heap, stack) && Null !in stack
    requires IsObject(Fetch(p.access)) && Fetch(p.access) !in stack
    ensures ValidStack(heap, stack + [Fetch(p.access)])
    ensures Child(heap, p, stack) == Copy(heap, Fetch(p.access), stack + [Fetch(p.access)])
  {
    ObjectAllowed(heap, Fetch(p.access));
    PushShrinks(heap, stack, Fetch(p.access));
  }

  /** A value that is not an object is stored as it is: it is never marked,
      and the stack plays no part. */
  lemma PrimitiveKept(heap: Heap, p: Prop, stack: seq<Value>)
    requires WellFormed(heap) && Closed(heap, Fetch(p.access)) && ValidStack(heap, stack) && Null !in stack
    requires !IsObject(Fetch(p.access))
    ensures Child(heap, p, stack) == Leaf(Fetch(p.access))
    ensures forall s :: ValidStack(heap, s) && Null !in s ==> Child(heap, p, s) == Child(heap, p, stack)
  {
  }

  /** `null` is never marked as circular. `Child` is only reached with a
      stack that does not hold `null` (its precondition, which `Copy` and
      `SafeCopy` meet at every call), so this covers every stack that
      `stringify` builds. */
  lemma NullNotFlagged(heap: Heap, p: Prop, stack: seq<Value>)
    requires WellFormed(heap) && ValidStack(heap, stack) && Null !in stack
    requires Fetch(p.access) == Null
    ensures Child(heap, p, stack) == Leaf(Null)
  {
    PushShrinks(heap, stack, Null);
  }

  /** A read or a `toJSON` call that throws `e` stores exactly
      "[" + name + ": " + message + "]" for that key. */
  lemma ErrorStored(heap: Heap, p: Prop, stack: seq<Value>)
    requires WellFormed(heap) && ValidStack(heap, stack) && Null !in stack
    requires p.access.ReadThrows? || p.access.ProjectThrows?
    ensures Child(heap, p, stack) == Leaf(Str("[" + p.access.err.name + ": " + p.access.err.message + "]"))
  {
  }

  /** Changing what one key's read does leaves the values stored for every
      other key unchanged. */
  lemma SiblingsUnaffected(heap: Heap, props: seq<Prop>, stack: seq<Value>, i: nat, q: Prop, j: nat)
    requires WellFormed(heap) && ClosedProps(heap, props) && ValidStack(heap, stack) && Null !in stack
    requires i < |props| && j < |props| && i != j && Closed(heap, Fetch(q.access))
    ensures ClosedProps(heap, props[i := q])
    ensures Children(heap, props[i := q], stack)[j] == Children(heap, props, stack)[j]
  {
    ChildrenAt(heap, props, stack, j);
    ChildrenAt(heap, props[i := q], stack, j);
  }

  /** `toJSON` runs before the cycle check: the value it returns, not the
      value that carried it, is the one stored, checked and copied. A
      projection to a primitive (a date's ISO string) is never marked, even
      when the object carrying it is on the stack. */
  lemma ProjectionFirst(heap: Heap, p: Prop, stack: seq<Value>)
    requires WellFormed(heap) && ValidStack(heap, stack) && Null !in stack
    requires p.access.Projects? && Closed(heap, p.access.out)
    ensures !IsObject(p.access.out) ==> Child(heap, p, stack) == Leaf(p.access.out)
    ensures IsObject(p.access.out) ==>
              (Child(heap, p, stack) == Leaf(Str(CIRCULAR)) <==> p.access.out in stack)
  {
    if IsObject(p.access.out) {
      CircularIff(heap, p, stack);
    }
  }

  /** An object reachable from two keys of one node and not on the stack is
      copied in full at both places: the same complete copy, never a marker. */
  lemma SharedCopiedTwice(heap: Heap, a: Addr, stack: seq<Value>, i: nat, j: nat, b: Addr)
    requires WellFormed(heap) && a in heap && ValidStack(heap, stack) && Null !in stack
    requires i < |heap[a].props| && j < |heap[a].props|
    requires Fetch(heap[a].props[i].access) == Ref(b) && Fetch(heap[a].props[j].access) == Ref(b)
    requires Ref(b) !in stack
    ensures b in heap && ValidStack(heap, stack + [Ref(b)])
    ensures Child(heap, heap[a].props[i], stack) == Copy(heap, Ref(b), stack + [Ref(b)])
    ensures Child(heap, heap[a].props[j], stack) == Copy(heap, Ref(b), stack + [Ref(b)])
    ensures Copy(heap, Ref(b), stack + [Ref(b)]).List? || Copy(heap, Ref(b), stack + [Ref(b)]).Record?
  {
    assert ValidNode(heap, heap[a]);
    assert Closed(heap, Fetch(heap[a].props[i].access));
    ObjectAllowed(heap, Ref(b));
    PushShrinks(heap, stack, Ref(b));
  }

  // ---------------------------------------------------------------------
  // Depth bound
  // ---------------------------------------------------------------------

  lemma {:induction false} DistinctCard(s: seq<Value>)
    requires Distinct(s)
    ensures |Elems(s)| == |s|
  {
    if s != [] {
      var n := |s| - 1;
      assert s == s[..n] + [s[n]];
      ElemsPush(s[..n], s[n]);
      DistinctCard(s[..n]);
      assert s[n] !in Elems(s[..n]);
    }
  }

  lemma {:induction false} RefImageCard(keys: set<Addr>)
    ensures |set a | a in keys :: Ref(a)| == |keys|
  {
    if keys != {} {
      var k :| k in keys;
      var rest := keys - {k};
      RefImageCard(rest);
      assert (set a | a in keys :: Ref(a)) == (set a | a in rest :: Ref(a)) + {Ref(k)};
      assert Ref(k) !in (set a | a in rest :: Ref(a));
    }
  }

  /** The stack never holds more entries than the heap has objects, plus the
      `null` pushed around a copy of `null`; so recursion depth is bounded. */
  lemma StackDepthBound(heap: Heap, s: seq<Value>)
    requires ValidStack(heap, s)
    ensures |s| <= |heap| + 1
  {
    DistinctCard(s);
    RefImageCard(heap.Keys);
    var refs := set a | a in heap.Keys :: Ref(a);
    assert Allowed(heap) == {Null} + refs;
    assert |Allowed(heap)| <= 1 + |refs|;
    SubsetCard(Elems(s), Allowed(heap));
  }

  lemma SubsetCard(a: set<Value>, b: set<Value>)
    requires a <= b
    ensures |a| <= |b|
  {
    assert b == a + (b - a);
  }
}
