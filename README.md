# json-superstring: the cycle-tolerant safe copier

This project models the core of `json-superstring`: the function `copy(data, stack)` in
`lib/index.js` and the `stringify` entry point that calls it with an empty stack. `copy`
walks an object graph depth-first and builds a fresh plain tree that mirrors it:

- a primitive or `null` comes back unchanged;
- an array becomes a new array, filled by appending;
- any other object becomes a new object, filled by keyed assignment;
- each key is read inside a `try`, and a value with a callable `toJSON` is replaced by
  what that method returns;
- a read or a `toJSON` call that throws becomes the string `"[" + name + ": " + message + "]"`;
- an object value that is already on the ancestor stack, compared by identity, becomes
  `"[Circular]"`; any other object value is pushed, copied recursively, then popped.

The input is modelled as a finite heap `map<Addr, Node>` (module `JsValues`, `values.dfy`).
Each node is an array or an object together with its enumerable keys in `for...in` order.
For each key, an `Access` says what reading it does:

- return a value;
- throw;
- return a value whose `toJSON` returns a value;
- return a value whose `toJSON` throws.

Reference identity is equality of addresses. The output type `Plain` has no reference
constructor, so a copy never points back into the input.

The model has two layers:

- `CopySpec` (`copy_spec.dfy`) defines what `copy` computes as pure functions of the heap,
  the value and the stack: `Copy`, `Child` and `Children`.
- `Copier` (`copier.dfy`) is the code as it runs. It has one shared mutable `Stack` class
  with `Push`, `Pop` and `IndexOf`, the recursive method `CopyData` with its key-by-key
  loop, and `Stringify`. These methods are proved to compute exactly the `CopySpec` functions
  and to leave the stack as they found it.

The proved properties sit in three modules:

- `CopyProperties` (`copy_props.dfy`): shape, the cycle and error markers, `toJSON`
  projection, shared references and the depth bound.
- `Acyclic` (`acyclic.dfy`): an independent reference definition. On a graph without
  cycles, the copy equals the plain unfolding of the graph into a tree.
- `UnitCases` (`unit_cases.dfy`): the scenarios of `test/unit/index.js` on concrete heaps.

Every read of a key and every `toJSON` call is modelled as yielding one fixed value, so an
object it returns is one fixed heap object with a fixed address. Under that assumption
recursion terminates. Every recursive call pushes a value that is not already on the stack,
drawn from the finite set `{null} ∪ heap objects`. The termination measure is the set of
values not yet pushed, which shrinks strictly at each call. A getter or `toJSON` that
returns a fresh object on every call falls outside this assumption (see "Left out").

`stringify` passes an empty stack (`lib/index.js:65`), so a self-referencing root is
expanded once before the marker appears (`UnitCases.SelfRootExpandedOnce`).

Keyed assignment `result[key] = val` (`lib/index.js:52`) on a plain object does not create a
key named `"__proto__"`: that assignment reaches the setter inherited from `Object.prototype`
and, when the value is an object or `null`, changes the result's prototype instead; a
primitive value such as `"[Circular]"` or an error string is ignored. The model's `Put`
therefore leaves the fields unchanged for that key, and the shape lemmas speak of the keys other than `"__proto__"`.

`typeof null === 'object'` holds in JavaScript. So a `null` value read from a key passes the
check at `lib/index.js:41`: it is pushed, copied (which returns it at once) and popped. The
model keeps this, which is why the stack is a `seq<Value>` that may briefly hold `Null`.
`null` is never on the stack while a key is processed: `Child` and `Children`, and `Copy` of
an object, require a stack without it, and every call in the model meets that requirement,
starting from `stringify`'s empty stack.

## Model

| member | source | states |
|---|---|---|
| JsValues.ErrorMarker | lib/index.js:37-39 | the error string is `[`, the error's name, `: `, its message and `]`, at exactly those positions |
| CopySpec.Copy | lib/index.js:19-56 | a primitive or `null` is returned unchanged; an array source yields an array with one element per key; any other object yields a keyed object |
| CopySpec.Children | lib/index.js:25-53 | one stored value per enumerated key |
| JsValues.Fetch | lib/index.js:28-39 | the value `val` holds after the `try`/`catch`: what the read returns; when `toJSON` applies, what it returns, which replaces the value read; after a throw, the error string, which is not an object and so never reaches the cycle check |
| CopySpec.Child | lib/index.js:26-49 | a non-object is stored as read; an object on the stack is stored as `"[Circular]"`; an object not on the stack is stored as a full array or object copy, never as the marker |
| CopySpec.Assign | lib/index.js:51-53 | keyed assignment of the processed keys yields at most one field per assignment, each key at most once, and never a `"__proto__"` key |
| CopySpec.SafeCopy | lib/index.js:64-65 | `stringify` never marks its root: a primitive root is returned as it is, and an object root is always expanded into an array or object copy of its own kind |
| CopySpec.Update | lib/index.js:52 | assignment to an ordinary key: an existing key keeps its position and gets the new value, a new key is appended, other fields survive, and nothing else is added |
| CopySpec.Put | lib/index.js:52 | `result[key] = val`: the key `"__proto__"` adds no field (it reaches the inherited prototype setter); any other key that exists keeps its position and gets the new value, and any other new key is appended; other keys survive, and no field other than `key: val` is added |
| CopySpec.PushShrinks | lib/index.js:42-47 | pushing an object that is not already on the stack keeps the stack's elements distinct and strictly shrinks the set of values that can still be pushed (the termination argument) |
| CopyProperties.ChildrenAt | lib/index.js:25-53 | the value stored for the i-th key is the processed i-th key, independent of the other keys |
| CopyProperties.AssignDistinct | lib/index.js:51-53 | because `for...in` yields each key once, keyed assignment builds exactly the keys other than `"__proto__"`, in enumeration order, each with its value; with no `"__proto__"` key, field `i` is key `i` |
| CopyProperties.AssignFrom | lib/index.js:51-53 | every field of the built object is one of the assignments made, key and value together |
| CopyProperties.AssignKeys | lib/index.js:51-53 | with distinct keys, the built object's keys are the enumerated keys other than `"__proto__"`, in order |
| CopyProperties.AssignHas | lib/index.js:51-53 | with distinct keys, every key other than `"__proto__"` is present with the value assigned to it |
| CopyProperties.AssignAligned | lib/index.js:51-53 | with distinct keys and no `"__proto__"` key, field `i` is key `i` with value `i` |
| CopyProperties.ArrayShape | lib/index.js:22-53 | an array source yields an array of the same length, whose i-th element is the processed i-th key |
| CopyProperties.ObjectShape | lib/index.js:22-53 | an object source yields an object with exactly its keys other than `"__proto__"`, in the same order, each mapped to its processed value, and nothing else |
| CopyProperties.ObjectAligned | lib/index.js:22-53 | an object source without a `"__proto__"` key yields an object with the same number of fields, field `i` being key `i` with its processed value |
| CopyProperties.CircularIff | lib/index.js:41-48 | an object value is replaced by exactly `"[Circular]"` if and only if it is identical to an element of the current stack |
| CopyProperties.PrimitiveKept | lib/index.js:41-49 | a value that is not an object is stored as it is, whatever the stack holds |
| CopyProperties.NullNotFlagged | lib/index.js:41-48 | `null` is stored as `null`, never marked, on any stack without `null`; `Child` requires such a stack and every caller supplies one, so this covers every stack `stringify` builds |
| CopyProperties.CopiedWhenNew | lib/index.js:44-47 | an object value not on the stack is pushed, and the copy made with the pushed stack is what gets stored |
| CopyProperties.ErrorStored | lib/index.js:28-39 | a read or `toJSON` call that throws error `e` stores exactly `"[" + e.name + ": " + e.message + "]"` |
| CopyProperties.SiblingsUnaffected | lib/index.js:25-53 | changing what one key's read does leaves the values stored for all other keys unchanged |
| CopyProperties.ProjectionFirst | lib/index.js:31-43 | the `toJSON` result, not the object carrying it, is stored and cycle-checked; a primitive projection (a date string) is never marked, even if its holder is on the stack |
| CopyProperties.SharedCopiedTwice | lib/index.js:42-47 | an object reached from two keys and not on the stack is copied in full at both keys, never marked |
| CopyProperties.StackDepthBound | lib/index.js:42-47 | a valid stack has at most one entry per heap object, plus the `null` pushed briefly, so recursion depth is bounded |
| Acyclic.CopyUnfolds | lib/index.js:19-56 | on a heap without cycles, with every stack entry ranked at or above the current object, `copy` equals the stack-free unfolding of the graph |
| Acyclic.SafeCopyAcyclic | lib/index.js:64-65 | on a heap without cycles, `stringify`'s copy is the plain unfolding: nothing is marked circular |
| Copier.Stack.constructor | lib/index.js:65 | the stack starts empty |
| Copier.Stack.Push | lib/index.js:45 | `stack.push(v)` appends `v` |
| Copier.Stack.Pop | lib/index.js:47 | `stack.pop()` removes and returns the last element; on an empty stack it returns `undefined` and changes nothing |
| Copier.Stack.IndexOf | lib/index.js:42 | `stack.indexOf(v)` returns the first position holding `v`, or -1 exactly when `v` is absent |
| Copier.CopyData | lib/index.js:19-56 | the imperative `copy` returns `Copy(heap, data, stack)` and leaves the stack as it found it (every push is matched by a pop) |
| Copier.CopyKey | lib/index.js:26-49 | the loop body for one key stores `Child(heap, prop, stack)` and restores the stack |
| Copier.NextKey | lib/index.js:51-52 | appending or assigning one more processed key extends the stored values and the keyed object built so far |
| Copier.Stringify | lib/index.js:64-65 | `stringify` copies its argument starting from a fresh empty stack |
| UnitCases.NestedCycleMarked | test/unit/index.js:44-53 | `{foo: {a, bar: <foo>}}` copies to `{foo: {a, bar: "[Circular]"}}` |
| UnitCases.SharedSiblingCopiedTwice | test/unit/index.js:55-64 | `{foo: x, bar: x}` copies `x` in full at both keys |
| UnitCases.DeepCycleMarked | test/unit/index.js:66-80 | primitives are kept and a nested self-reference is marked |
| UnitCases.ThrowingGetterMarked | test/unit/index.js:82-93 | a throwing getter stores `"[Error: Hi]"` |
| UnitCases.DatesProjected | test/unit/index.js:38-42 | a date shared by two keys is stored as its `toJSON` string at both keys |
| UnitCases.NullsKept | test/unit/index.js:20-24 | `null` values are kept, not marked |
| UnitCases.ArraysCopied | test/unit/index.js:32-36 | two equal arrays are each copied as arrays |
| UnitCases.SelfRootExpandedOnce | lib/index.js:64-65 | a root with `x.self = x` copies to `{self: {self: "[Circular]"}}`, because the root is not on the initial stack |

## Left out

- Text encoding: `JSON.stringify` and its `space` indentation argument (`lib/index.js:66-67`) belong to the host encoder. `Stringify` returns the copied tree. The model does not capture that a falsy `space` selects compact output.
- `merge` is not defined or exported in `lib/index.js`. `benchmark/merge.bench.js` names it, but there is no source to model, so it is left out.
- `tests/unit/index.js` targets an older interface (an options object, shared references marked as circular). It contradicts `lib/index.js` and is not modelled.
- Host details are abstracted into each node's key sequence and the four `Access` outcomes: prototype-inherited enumerable keys, getters as real code, whether `toJSON` is callable, `typeof` of functions and symbols, and sparse-array holes. The model does not capture keys that `for...in` enumerates in a host-specific order.
- Numbers are unbounded integers. Floating point, `NaN` and infinities are not modelled, because `copy` passes numbers through untouched.
- Output objects are values. The fresh identity of each result array or object is not modelled, because nothing in the source compares or mutates them after they are built.
- Exhausting the host's call stack on very deep acyclic graphs is not modelled. `StackDepthBound` bounds the depth, but the model has no call-stack size.
- Applying the copy a second time to its own output is not modelled. The output is a `Plain` tree, not a heap, and on an acyclic heap the copy is the graph's plain unfolding (`Acyclic.SafeCopyAcyclic`).
- CopyProperties.StackDepthBound: the bound, and termination itself, rest on the assumption that each read and each `toJSON` call yields one fixed value (`JsValues.Access`), so a returned object has one fixed identity. A `toJSON` or getter that builds a fresh object on every call is not modelled. With `a.toJSON = () => ({z: a})`, `stringify({k: a})` recurses in the source until the host's call stack is exhausted, because each fresh object is never on the stack. The model instead gives `{k: {z: "[Circular]"}}`.
- CopyProperties.ErrorStored: a thrown value is modelled by the two strings its `name` and `message` become when concatenated. A thrown string or number, whose properties are missing, is covered as `Error("undefined", "undefined")` and stores `"[undefined: undefined]"`. `throw null` and `throw undefined` are not modelled: there the `catch` clause itself throws a `TypeError` at `lib/index.js:38`, which escapes `copy` and `stringify`, and the model has no failing outcome. A `name` or `message` getter that throws escapes in the same way and is not modelled either.
- CopySpec.Put: for the key `"__proto__"` only the absence of a new key is modelled. The prototype change that the inherited setter makes when the value is an object or `null` is not, because it does not affect the keys or values of the result.
- CopyProperties.ObjectShape: the result's fields are listed in assignment order. A host object lists integer-like keys first, in ascending order, so when `for...in` yields an integer-like key after a string key, for example an inherited one, the host result orders its keys differently from the model. The model does not capture this reordering.
