/** What `copy(data, stack)` computes (lib/index.js:19-56), as functions of
    the heap, the value and the ancestor stack, and what is proved of it. */
module CopySpec {
  import opened JsValues

  // ---------------------------------------------------------------------
  // The ancestor stack
  // ---------------------------------------------------------------------

  function Elems(s: seq<Value>): set<Value> {
    set x | x in s
  }

  /** Everything that can ever be pushed: `null` and the heap's objects. */
  function Allowed(heap: Heap): set<Value> {
    {Null} + set a | a in heap :: Ref(a)
  }

  predicate Distinct(s: seq<Value>) {
    forall i, j :: 0 <= i < j < |s| ==> s[i] != s[j]
  }

  /** The stack holds distinct pushable values. */
  predicate ValidStack(heap: Heap, s: seq<Value>) {
    Distinct(s) && Elems(s) <= Allowed(heap)
  }

  lemma ElemsPush(s: seq<Value>, v: Value)
    ensures Elems(s + [v]) == Elems(s) + {v}
  {
    assert forall x :: x in s + [v] <==> x in s || x == v;
  }

  /** Pushing a value that is pushable and not yet on the stack keeps the
      stack valid and strictly shrinks what is left to push. */
  lemma PushShrinks(heap: Heap, s: seq<Value>, v: Value)
    requires ValidStack(heap, s) && v in Allowed(heap) && v !in s
    ensures ValidStack(heap, s + [v])
    ensures Allowed(heap) - Elems(s + [v]) < Allowed(heap) - Elems(s)
  {
    ElemsPush(s, v);
    assert v in Allowed(heap) - Elems(s);
  }

  /** The stack `copy` runs with right after pushing the root. */
  lemma RootStack(heap: Heap, a: Addr)
    requires a in heap
    ensures ValidStack(heap, [Ref(a)])
  {
    ObjectAllowed(heap, Ref(a));
    PushShrinks(heap, [], Ref(a));
  }

  lemma ObjectAllowed(heap: Heap, v: Value)
    requires IsObject(v) && Closed(heap, v)
    ensures v in Allowed(heap)
  {
    if v.Ref? {
      assert v == Ref(v.addr);
    }
  }

  // ---------------------------------------------------------------------
  // The copy
  // ---------------------------------------------------------------------

  /** The key whose assignment reaches the setter `Object.prototype` defines. */
  const PROTO: string := "__proto__"

  /** `result[key] = val` on an object built by keyed assignment: an existing
      key keeps its place and takes the new value, a new key is appended.
      The key "__proto__" reaches the setter inherited from `Object.prototype`
      instead, which changes the result's prototype and adds no key. */
  function Put(fields: seq<Field>, key: string, v: Plain): (r: seq<Field>)
    ensures key == PROTO ==> r == fields
    ensures key != PROTO && key in Keys(fields) ==> Keys(r) == Keys(fields)
    ensures key != PROTO && key !in Keys(fields) ==> r == fields + [Field(key, v)]
    ensures key != PROTO ==> Field(key, v) in r
    ensures forall f :: f in fields && f.key != key ==> f in r
    ensures forall f :: f in r ==> f in fields || f == Field(key, v)
  {
    if key == PROTO then fields else Update(fields, key, v)
  }

  /** Assignment to an own data property: overwrite in place or append. */
  function Update(fields: seq<Field>, key: string, v: Plain): (r: seq<Field>)
    ensures key in Keys(fields) ==> Keys(r) == Keys(fields)
    ensures key !in Keys(fields) ==> r == fields + [Field(key, v)]
    ensures Field(key, v) in r
    ensures forall f :: f in fields && f.key != key ==> f in r
    ensures forall f :: f in r ==> f in fields || f == Field(key, v)
  {
    if fields == [] then [Field(key, v)]
    else if fields[0].key == key then [Field(key, v)] + fields[1..]
    else [fields[0]] + Update(fields[1..], key, v)
  }

  function Keys(fields: seq<Field>): (ks: seq<string>)
    ensures |ks| == |fields|
    ensures forall i :: 0 <= i < |fields| ==> ks[i] == fields[i].key
  {
    if fields == [] then [] else [fields[0].key] + Keys(fields[1..])
  }

  /** The object built by assigning `vals[i]` to `props[i].key` in order:
      at most one field per assignment, each key held once, and never a
      "__proto__" key. */
  function Assign(props: seq<Prop>, vals: seq<Plain>): (r: seq<Field>)
    requires |props| == |vals|
    ensures |r| <= |props|
    ensures forall i, j :: 0 <= i < j < |r| ==> r[i].key != r[j].key
    ensures forall f :: f in r ==> f.key != PROTO
  {
    if props == [] then []
    else
      var n := |props| - 1;
      Put(Assign(props[..n], vals[..n]), props[n].key, vals[n])
  }

  /** `copy(data, stack)`: a primitive or `null` comes back as it is; an
      object becomes a fresh array or keyed object built from its keys. */
  function Copy(heap: Heap, data: Value, stack: seq<Value>): (r: Plain)
    requires WellFormed(heap) && Closed(heap, data) && ValidStack(heap, stack)
    requires data.Ref? ==> Null !in stack
    ensures !data.Ref? ==> r == Leaf(data)
    ensures data.Ref? && heap[data.addr].kind == ArrayKind ==>
              r.List? && |r.items| == |heap[data.addr].props|
    ensures data.Ref? && heap[data.addr].kind == ObjectKind ==> r.Record?
    decreases Allowed(heap) - Elems(stack), 1, 0
  {
    match data
    case Ref(a) =>
      var node := heap[a];
      var vals := Children(heap, node.props, stack);
      if node.kind == ArrayKind then List(vals) else Record(Assign(node.props, vals))
    case _ => Leaf(data)
  }

  /** The value stored for one key (lib/index.js:26-49): read it, project or
      catch; then, if it is an object, either mark it as circular when it is
      on the stack or push it, copy it and pop it. `null` passes the object
      test too, but it is never on the stack: it is pushed only around the
      copy of itself, which returns at once. */
  function Child(heap: Heap, p: Prop, stack: seq<Value>): (r: Plain)
    requires WellFormed(heap) && Closed(heap, Fetch(p.access)) && ValidStack(heap, stack)
    requires Null !in stack
    ensures !IsObject(Fetch(p.access)) ==> r == Leaf(Fetch(p.access))
    ensures IsObject(Fetch(p.access)) && Fetch(p.access) in stack ==> r == Leaf(Str(CIRCULAR))
    ensures Fetch(p.access).Ref? && Fetch(p.access) !in stack ==> r.List? || r.Record?
    decreases Allowed(heap) - Elems(stack), 0, 0
  {
    var val := Fetch(p.access);
    if !IsObject(val) then Leaf(val)
    else if val in stack then Leaf(Str(CIRCULAR))
    else
      ObjectAllowed(heap, val);
      PushShrinks(heap, stack, val);
      Copy(heap, val, stack + [val])
  }

  /** The values stored for the keys `props`, in enumeration order. */
  function Children(heap: Heap, props: seq<Prop>, stack: seq<Value>): (vals: seq<Plain>)
    requires WellFormed(heap) && ClosedProps(heap, props) && ValidStack(heap, stack)
    requires Null !in stack
    ensures |vals| == |props|
    decreases Allowed(heap) - Elems(stack), 0, |props|
  {
    if props == [] then []
    else
      var n := |props| - 1;
      Children(heap, props[..n], stack) + [Child(heap, props[n], stack)]
  }

  /** `stringify` copies its argument starting from an empty stack
      (lib/index.js:65): the root itself is not on the stack, so an object
      root is always expanded, never marked. */
  function SafeCopy(heap: Heap, data: Value): (r: Plain)
    requires WellFormed(heap) && Closed(heap, data)
    ensures !data.Ref? ==> r == Leaf(data)
    ensures data.Ref? ==> (r.List? <==> heap[data.addr].kind == ArrayKind)
    ensures data.Ref? ==> (r.Record? <==> heap[data.addr].kind == ObjectKind)
  {
    Copy(heap, data, [])
  }
}
