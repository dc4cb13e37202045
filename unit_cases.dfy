/** The scenarios of test/unit/index.js, on concrete heaps, with what
    `stringify` copies for each. The root is at address 0, except where
    the address is a parameter. */
module UnitCases {
  import opened JsValues
  import opened CopySpec
  import opened CopyProperties

  function Obj(props: seq<Prop>): Node { Node(ObjectKind, props) }
  function Key(k: string, v: Value): Prop { Prop(k, Reads(v)) }

  // One, Two and Three turn index facts into a sequence display, which
  // keeps the equalities of the concrete outputs below cheap to prove.

  lemma One<T>(s: seq<T>, a: T)
    requires |s| == 1 && s[0] == a
    ensures s == [a]
  {
  }

  lemma Two<T>(s: seq<T>, a: T, b: T)
    requires |s| == 2 && s[0] == a && s[1] == b
    ensures s == [a, b]
  {
  }

  lemma Three<T>(s: seq<T>, a: T, b: T, c: T)
    requires |s| == 3 && s[0] == a && s[1] == b && s[2] == c
    ensures s == [a, b, c]
  {
  }

  /** `data = { foo: { a: one } }; data.foo.bar = data.foo` (the test uses '1') */
  function NestedCycle(one: string): Heap {
    map[0 := Obj([Key("foo", Ref(1))]),
        1 := Obj([Key("a", Str(one)), Key("bar", Ref(1))])]
  }

  /** The inner object is copied once; its reference to itself is marked
      (test/unit/index.js:44-53). */
  lemma NestedCycleMarked(one: string)
    ensures WellFormed(NestedCycle(one))
    ensures SafeCopy(NestedCycle(one), Ref(0)) ==
            Record([Field("foo", Record([Field("a", Leaf(Str(one))), Field("bar", Leaf(Str(CIRCULAR)))]))])
  {
    var h := NestedCycle(one);
    var foo := h[0].props[0];
    assert NoProto(h[0].props);
    assert Fetch(foo.access) == Ref(1) && [] + [Ref(1)] == [Ref(1)];
    NestedCycleInner(one);
    ObjectAligned(h, 0, []);
    CopiedWhenNew(h, foo, []);
    var inner := Copy(h, Ref(1), [Ref(1)]);
    var root := Copy(h, Ref(0), []);
    One(root.fields, Field("foo", inner));
    assert SafeCopy(h, Ref(0)) == root;
  }

  lemma NestedCycleInner(one: string)
    ensures WellFormed(NestedCycle(one)) && ValidStack(NestedCycle(one), [Ref(1)])
    ensures Copy(NestedCycle(one), Ref(1), [Ref(1)]) ==
            Record([Field("a", Leaf(Str(one))), Field("bar", Leaf(Str(CIRCULAR)))])
  {
    var h := NestedCycle(one);
    var a, bar := h[1].props[0], h[1].props[1];
    assert ValidNode(h, h[0]) && ValidNode(h, h[1]) && NoProto(h[1].props);
    assert Fetch(a.access) == Str(one) && Fetch(bar.access) == Ref(1);
    RootStack(h, 1);
    ObjectAligned(h, 1, [Ref(1)]);
    PrimitiveKept(h, a, [Ref(1)]);
    CircularIff(h, bar, [Ref(1)]);
    var inner := Copy(h, Ref(1), [Ref(1)]);
    Two(inner.fields, Field("a", Leaf(Str(one))), Field("bar", Leaf(Str(CIRCULAR))));
  }

  /** `data = { foo: { a: one } }; data.bar = data.foo` (the test uses '1') */
  function SharedSibling(one: string): Heap {
    map[0 := Obj([Key("foo", Ref(1)), Key("bar", Ref(1))]),
        1 := Obj([Key("a", Str(one))])]
  }

  /** A reference met twice, never as its own ancestor, is copied twice in
      full (test/unit/index.js:55-64). */
  lemma SharedSiblingCopiedTwice(one: string)
    ensures WellFormed(SharedSibling(one))
    ensures SafeCopy(SharedSibling(one), Ref(0)) ==
            Record([Field("foo", Record([Field("a", Leaf(Str(one)))])),
                    Field("bar", Record([Field("a", Leaf(Str(one)))]))])
  {
    var h := SharedSibling(one);
    assert NoProto(h[0].props);
    assert [] + [Ref(1)] == [Ref(1)];
    SharedSiblingInner(one);
    ObjectAligned(h, 0, []);
    SharedCopiedTwice(h, 0, [], 0, 1, 1);
    var inner := Copy(h, Ref(1), [Ref(1)]);
    var root := Copy(h, Ref(0), []);
    Two(root.fields, Field("foo", inner), Field("bar", inner));
    assert SafeCopy(h, Ref(0)) == root;
  }

  lemma SharedSiblingInner(one: string)
    ensures WellFormed(SharedSibling(one)) && ValidStack(SharedSibling(one), [Ref(1)])
    ensures Copy(SharedSibling(one), Ref(1), [Ref(1)]) == Record([Field("a", Leaf(Str(one)))])
  {
    var h := SharedSibling(one);
    var a := h[1].props[0];
    assert ValidNode(h, h[0]) && ValidNode(h, h[1]) && NoProto(h[1].props);
    assert Fetch(a.access) == Str(one);
    RootStack(h, 1);
    ObjectAligned(h, 1, [Ref(1)]);
    PrimitiveKept(h, a, [Ref(1)]);
    One(Copy(h, Ref(1), [Ref(1)]).fields, Field("a", Leaf(Str(one))));
  }

  /** `data = { foo: text, bar: n, baz: { qux: flag } }; data.baz.quux = data.baz`
      (the test uses 'hello world', 42 and true) */
  function DeepCycle(text: string, n: int, flag: bool): Heap {
    map[0 := Obj([Key("foo", Str(text)), Key("bar", Num(n)), Key("baz", Ref(1))]),
        1 := Obj([Key("qux", Bool(flag)), Key("quux", Ref(1))])]
  }

  /** test/unit/index.js:66-80 */
  lemma DeepCycleMarked(text: string, n: int, flag: bool)
    ensures WellFormed(DeepCycle(text, n, flag))
    ensures SafeCopy(DeepCycle(text, n, flag), Ref(0)) ==
            Record([Field("foo", Leaf(Str(text))), Field("bar", Leaf(Num(n))),
                    Field("baz", Record([Field("qux", Leaf(Bool(flag))), Field("quux", Leaf(Str(CIRCULAR)))]))])
  {
    var h := DeepCycle(text, n, flag);
    var foo, bar, baz := h[0].props[0], h[0].props[1], h[0].props[2];
    assert NoProto(h[0].props);
    assert Fetch(foo.access) == Str(text) && Fetch(bar.access) == Num(n);
    assert Fetch(baz.access) == Ref(1) && [] + [Ref(1)] == [Ref(1)];
    DeepCycleInner(text, n, flag);
    ObjectAligned(h, 0, []);
    PrimitiveKept(h, foo, []);
    PrimitiveKept(h, bar, []);
    CopiedWhenNew(h, baz, []);
    var inner := Copy(h, Ref(1), [Ref(1)]);
    var root := Copy(h, Ref(0), []);
    Three(root.fields, Field("foo", Leaf(Str(text))), Field("bar", Leaf(Num(n))), Field("baz", inner));
    assert SafeCopy(h, Ref(0)) == root;
  }

  lemma DeepCycleInner(text: string, n: int, flag: bool)
    ensures WellFormed(DeepCycle(text, n, flag)) && ValidStack(DeepCycle(text, n, flag), [Ref(1)])
    ensures Copy(DeepCycle(text, n, flag), Ref(1), [Ref(1)]) ==
            Record([Field("qux", Leaf(Bool(flag))), Field("quux", Leaf(Str(CIRCULAR)))])
  {
    var h := DeepCycle(text, n, flag);
    var qux, quux := h[1].props[0], h[1].props[1];
    assert ValidNode(h, h[0]) && ValidNode(h, h[1]) && NoProto(h[1].props);
    assert Fetch(qux.access) == Bool(flag) && Fetch(quux.access) == Ref(1);
    RootStack(h, 1);
    ObjectAligned(h, 1, [Ref(1)]);
    PrimitiveKept(h, qux, [Ref(1)]);
    CircularIff(h, quux, [Ref(1)]);
    var inner := Copy(h, Ref(1), [Ref(1)]);
    Two(inner.fields, Field("qux", Leaf(Bool(flag))), Field("quux", Leaf(Str(CIRCULAR))));
  }

  /** An enumerable getter `bar` that throws `e`. */
  function ThrowingGetter(e: Error): Heap {
    map[0 := Obj([Prop("bar", ReadThrows(e))])]
  }

  /** test/unit/index.js:82-93, where `e` is `new Error('Hi')` and the
      stored string is "[Error: Hi]". */
  lemma ThrowingGetterMarked(e: Error)
    ensures WellFormed(ThrowingGetter(e))
    ensures SafeCopy(ThrowingGetter(e), Ref(0)) == Record([Field("bar", Leaf(Str("[" + e.name + ": " + e.message + "]")))])
    ensures e == Error("Error", "Hi") ==> "[" + e.name + ": " + e.message + "]" == "[Error: Hi]"
  {
    var h := ThrowingGetter(e);
    var bar := h[0].props[0];
    var m := "[" + e.name + ": " + e.message + "]";
    assert ValidNode(h, h[0]) && NoProto(h[0].props);
    assert bar.access == ReadThrows(e);
    ObjectAligned(h, 0, []);
    ErrorStored(h, bar, []);
    var root := Copy(h, Ref(0), []);
    assert root.fields[0] == Field("bar", Leaf(Str(m)));
    One(root.fields, Field("bar", Leaf(Str(m))));
    assert SafeCopy(h, Ref(0)) == root;
    HiMarker(e);
  }

  /** The error marker of test/unit/index.js:82-93, as a separate fact so
      that the string concatenation is not unfolded with the heap. */
  lemma HiMarker(e: Error)
    ensures e == Error("Error", "Hi") ==> "[" + e.name + ": " + e.message + "]" == "[Error: Hi]"
  {
  }

  /** `{ foo: date, bar: date }`, the date (address 1) having no enumerable
      keys and a `toJSON` that returns its ISO string. */
  function SharedDate(iso: string): Heap {
    map[0 := Obj([Prop("foo", Projects(Ref(1), Str(iso))), Prop("bar", Projects(Ref(1), Str(iso)))]),
        1 := Obj([])]
  }

  /** test/unit/index.js:38-42 */
  lemma DatesProjected(iso: string)
    ensures WellFormed(SharedDate(iso))
    ensures SafeCopy(SharedDate(iso), Ref(0)) == Record([Field("foo", Leaf(Str(iso))), Field("bar", Leaf(Str(iso)))])
  {
    var h := SharedDate(iso);
    var foo, bar := h[0].props[0], h[0].props[1];
    assert ValidNode(h, h[0]) && ValidNode(h, h[1]) && NoProto(h[0].props);
    assert foo.access == Projects(Ref(1), Str(iso)) && bar.access == Projects(Ref(1), Str(iso));
    ObjectAligned(h, 0, []);
    ProjectionFirst(h, foo, []);
    ProjectionFirst(h, bar, []);
    var root := Copy(h, Ref(0), []);
    Two(root.fields, Field("foo", Leaf(Str(iso))), Field("bar", Leaf(Str(iso))));
    assert SafeCopy(h, Ref(0)) == root;
  }

  /** `{ foo: null, bar: null }` */
  function Nulls(): Heap {
    map[0 := Obj([Key("foo", Null), Key("bar", Null)])]
  }

  /** test/unit/index.js:20-24 */
  lemma NullsKept()
    ensures WellFormed(Nulls())
    ensures SafeCopy(Nulls(), Ref(0)) == Record([Field("foo", Leaf(Null)), Field("bar", Leaf(Null))])
  {
    var h := Nulls();
    var foo, bar := h[0].props[0], h[0].props[1];
    assert ValidNode(h, h[0]) && NoProto(h[0].props);
    assert Fetch(foo.access) == Null && Fetch(bar.access) == Null;
    ObjectAligned(h, 0, []);
    NullNotFlagged(h, foo, []);
    NullNotFlagged(h, bar, []);
    var root := Copy(h, Ref(0), []);
    Two(root.fields, Field("foo", Leaf(Null)), Field("bar", Leaf(Null)));
    assert SafeCopy(h, Ref(0)) == root;
  }

  /** `{ foo: [n], bar: [n] }`: two distinct arrays. */
  function TwoArrays(n: int): Heap {
    map[0 := Obj([Key("foo", Ref(1)), Key("bar", Ref(2))]),
        1 := Node(ArrayKind, [Key("0", Num(n))]),
        2 := Node(ArrayKind, [Key("0", Num(n))])]
  }

  /** test/unit/index.js:32-36 (there `n` is 42) */
  lemma ArraysCopied(n: int)
    ensures WellFormed(TwoArrays(n))
    ensures SafeCopy(TwoArrays(n), Ref(0)) ==
            Record([Field("foo", List([Leaf(Num(n))])), Field("bar", List([Leaf(Num(n))]))])
  {
    var h := TwoArrays(n);
    var foo, bar := h[0].props[0], h[0].props[1];
    assert NoProto(h[0].props);
    assert Fetch(foo.access) == Ref(1) && [] + [Ref(1)] == [Ref(1)];
    assert Fetch(bar.access) == Ref(2) && [] + [Ref(2)] == [Ref(2)];
    ArrayCopied(n, 1);
    ArrayCopied(n, 2);
    ObjectAligned(h, 0, []);
    CopiedWhenNew(h, foo, []);
    CopiedWhenNew(h, bar, []);
    var root := Copy(h, Ref(0), []);
    Two(root.fields, Field("foo", List([Leaf(Num(n))])), Field("bar", List([Leaf(Num(n))])));
    assert SafeCopy(h, Ref(0)) == root;
  }

  /** Each array, copied with itself pushed, is `[n]`. */
  lemma ArrayCopied(n: int, a: Addr)
    requires a == 1 || a == 2
    ensures WellFormed(TwoArrays(n)) && ValidStack(TwoArrays(n), [Ref(a)])
    ensures Copy(TwoArrays(n), Ref(a), [Ref(a)]) == List([Leaf(Num(n))])
  {
    var h := TwoArrays(n);
    var p := h[a].props[0];
    assert ValidNode(h, h[0]) && ValidNode(h, h[1]) && ValidNode(h, h[2]);
    assert Fetch(p.access) == Num(n);
    RootStack(h, a);
    ArrayShape(h, a, [Ref(a)]);
    PrimitiveKept(h, p, [Ref(a)]);
    One(Copy(h, Ref(a), [Ref(a)]).items, Leaf(Num(n)));
  }

  /** `x = {}; x.self = x`, with `x` at address `a` */
  function SelfRoot(a: Addr): Heap {
    map[a := Obj([Key("self", Ref(a))])]
  }

  /** The root is not on the stack when copying starts, so a root that
      refers to itself is expanded once before the marker appears. */
  lemma SelfRootExpandedOnce(a: Addr)
    ensures WellFormed(SelfRoot(a))
    ensures SafeCopy(SelfRoot(a), Ref(a)) ==
            Record([Field("self", Record([Field("self", Leaf(Str(CIRCULAR)))]))])
  {
    var h := SelfRoot(a);
    var p := h[a].props[0];
    assert NoProto(h[a].props);
    assert Fetch(p.access) == Ref(a) && [] + [Ref(a)] == [Ref(a)];
    SelfRootInner(a);
    ObjectAligned(h, a, []);
    CopiedWhenNew(h, p, []);
    var inner := Copy(h, Ref(a), [Ref(a)]);
    var root := Copy(h, Ref(a), []);
    One(root.fields, Field("self", inner));
    assert SafeCopy(h, Ref(a)) == root;
  }

  /** The copy made with the root on the stack marks the self-reference. */
  lemma SelfRootInner(a: Addr)
    ensures WellFormed(SelfRoot(a)) && ValidStack(SelfRoot(a), [Ref(a)])
    ensures Copy(SelfRoot(a), Ref(a), [Ref(a)]) == Record([Field("self", Leaf(Str(CIRCULAR)))])
  {
    var h := SelfRoot(a);
    var p := h[a].props[0];
    assert ValidNode(h, h[a]) && NoProto(h[a].props);
    assert Fetch(p.access) == Ref(a);
    RootStack(h, a);
    ObjectAligned(h, a, [Ref(a)]);
    CircularIff(h, p, [Ref(a)]);
    var inner := Copy(h, Ref(a), [Ref(a)]);
    One(inner.fields, Field("self", Leaf(Str(CIRCULAR))));
  }
}
