/** The JavaScript values that the safe copier reads and writes.

    The input is a finite heap of objects: every object is identified by an
    address, and reference identity is equality of addresses. An object's
    enumerable keys, in `for...in` order, are given with what reading each of
    them does: return a value, throw, or return a value whose `toJSON` is
    called (which may itself throw). The output is a plain tree that holds no
    references at all. */
module JsValues {

  /** Identity of a heap object: two references are `===` iff their addresses are equal. */
  type Addr = nat

  /** A value as `copy` sees it. `Null` and `Ref` are the values whose
      `typeof` is "object"; every other constructor is a primitive. */
  datatype Value =
    | Undefined
    | Null
    | Bool(b: bool)
    | Num(n: int)
    | Str(s: string)
    | Ref(addr: Addr)

  /** Values that hold no reference into the heap. */
  type Scalar = v: Value | !v.Ref? witness Undefined

  /** `typeof v === 'object'` (true for null as well). */
  predicate IsObject(v: Value) {
    v.Null? || v.Ref?
  }

  /** What a thrown value exposes to the `catch` clause: the strings that
      its `name` and its `message` turn into when concatenated (a missing
      property becomes "undefined"). */
  datatype Error = Error(name: string, message: string)

  /** What evaluating `data[key]`, and then `val.toJSON()` when `val` has a
      callable `toJSON`, does for one key. */
  datatype Access =
    | Reads(v: Value)                         // plain read; `v` has no callable toJSON
    | ReadThrows(err: Error)                  // the getter throws
    | Projects(holder: Value, out: Value)     // read yields `holder`; `holder.toJSON()` returns `out`
    | ProjectThrows(holder: Value, err: Error) // read yields `holder`; `holder.toJSON()` throws

  /** One enumerated key of an object, with what reading it does. */
  datatype Prop = Prop(key: string, access: Access)

  /** What `Array.isArray` says of an object. */
  datatype Kind = ArrayKind | ObjectKind

  /** A heap object: its kind and its enumerable keys in enumeration order. */
  datatype Node = Node(kind: Kind, props: seq<Prop>)

  type Heap = map<Addr, Node>

  /** The copy: a tree of primitives, arrays and keyed objects. */
  datatype Plain =
    | Leaf(v: Scalar)
    | List(items: seq<Plain>)
    | Record(fields: seq<Field>)

  /** One key of an output object, in insertion order. */
  datatype Field = Field(key: string, val: Plain)

  const CIRCULAR: string := "[Circular]"
  const ERR_OPEN: string := "["
  const ERR_SPEC: string := ": "
  const ERR_CLOSE: string := "]"

  /** The string the `catch` clause builds from a thrown error. */
  function ErrorMarker(e: Error): (m: string)
    ensures |m| == |e.name| + |e.message| + 4
    ensures m[0] == '[' && m[|m| - 1] == ']'
    ensures m[1..1 + |e.name|] == e.name
    ensures m[1 + |e.name|..3 + |e.name|] == ": "
    ensures m[3 + |e.name|..|m| - 1] == e.message
  {
    ERR_OPEN + e.name + ERR_SPEC + e.message + ERR_CLOSE
  }

  /** The value `val` holds when the `try`/`catch` around reading one key
      finishes: the read value, its `toJSON` projection, or the error marker. */
  function Fetch(a: Access): (v: Value)
    ensures a.Reads? ==> v == a.v
    ensures a.Projects? ==> v == a.out
    ensures a.ReadThrows? || a.ProjectThrows? ==>
              v == Str(ErrorMarker(a.err)) && !IsObject(v)
  {
    match a
    case Reads(v) => v
    case ReadThrows(e) => Str(ErrorMarker(e))
    case Projects(_, out) => out
    case ProjectThrows(_, e) => Str(ErrorMarker(e))
  }

  /** A reference points into the heap. */
  predicate Closed(heap: Heap, v: Value) {
    v.Ref? ==> v.addr in heap
  }

  /** Every value read from these keys points into the heap. */
  predicate ClosedProps(heap: Heap, props: seq<Prop>) {
    forall i :: 0 <= i < |props| ==> Closed(heap, Fetch(props[i].access))
  }

  /** `toJSON` is looked up only on a value that is neither null nor undefined. */
  predicate HolderDefined(a: Access) {
    (a.Projects? || a.ProjectThrows?) ==> a.holder != Null && a.holder != Undefined
  }

  /** `for...in` yields each key of an object at most once. */
  predicate DistinctKeys(props: seq<Prop>) {
    forall i, j :: 0 <= i < j < |props| ==> props[i].key != props[j].key
  }

  /** A heap the host can build: references never dangle, and `toJSON`
      outcomes only appear on values that can carry a method. */
  predicate WellFormed(heap: Heap) {
    forall a :: a in heap ==> ValidNode(heap, heap[a])
  }

  predicate ValidNode(heap: Heap, n: Node) {
    ClosedProps(heap, n.props) &&
    (forall i :: 0 <= i < |n.props| ==> HolderDefined(n.props[i].access)) &&
    DistinctKeys(n.props)
  }
}
