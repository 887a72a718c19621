# dom-serialize, modelled in Dafny

This is a model of `serialize` from the `dom-serialize` package (`index.js`), a function that turns a DOM node tree into HTML markup:

- **Event first.** Before rendering a node, `serialize` fires a cancelable `serialize` event on it. A listener may cancel the event, which yields `''`. It may put a string in `e.detail.serialize`, which is returned as is. It may put another node there, which is then rendered by the default rules.
- **Default rules.** An *element* becomes `<name attr="escaped">children</name>`. The name is lower-cased. The closing tag is left out for void elements such as `br`. A *text node* becomes its value, unescaped. Every other kind of node becomes `''`.
- **Recursion.** Children are rendered by calling `serialize` again on each of them, so every child gets its own event.

Modules:

- `Dom` (`dom.dfy`): the node datatype (`Element`, `Text`, `Other`), `nodeType`, and ASCII `toLowerCase`.
- `VoidTable` (`void_table.dfy`): the table of void element names and the closing-tag rule.
- `Serializer` (`serializer.dfy`): the three functions of `index.js` as mutually recursive Dafny functions. The closing tag is decided by the intended void table `VoidTable.CloseTag`; a separate one, `VoidTable.CloseTagAsWritten`, models the lookup as `index.js` writes it (see "## Findings").
  - DOM event dispatch becomes a *hook* `(Path, Node) -> EventOutcome`. `Path` is a node's position in the tree (child indices from the root), so a listener attached to an ancestor, reached through bubbling, is still expressible.
  - The outcome is either cancellation or the content of `e.detail.serialize`.
  - `escapeHTML` (the `ent/encode` library) is a function parameter.
  - A hook may return a fresh node to render at every level, so rendering need not end. Every function therefore takes a `fuel` bound and returns `Option`: `None` means the fuel is used up.
  - The result `Run` carries the output string plus the list of paths at which the event fired, so "one event per call" can be stated.
- `SerializerFacts` (`serializer_facts.dfy`): the
  - hook-outcome rules;
  - one-event-per-call property;
  - element markup shape;
  - fuel monotonicity;
  - non-termination witness.
- `Reference` (`reference.dfy`): an independent recursive renderer `Plain` for the case with no listeners, and a pre-order path list `Preorder`. It proves that `Serialize` equals both, given fuel at least the tree height.
- `SerializerLoop` (`serializer_loop.dfy`): an imperative version of `serialize` and `serializeElement` that builds a sequence `parts`, standing for the array `r` of `index.js:76-95`, by appending to it in index loops, then joins it. It is proved equal to the functional model.
- `Examples` (`examples.dfy`): each case of `test/test.js` stated and proved as a lemma.

This version of `index.js` renders only two kinds of node itself: its `switch` on `nodeType` has cases 1 (element) and 3 (text). Comments, doctypes, documents and fragments therefore render as `''`, and `serializeText` returns `nodeValue` without escaping.

## Model

| member | source | states |
|---|---|---|
| Dom.ToLowerIdempotent | index.js:73 | lower-casing an already lower-cased name changes nothing |
| Dom.ToLowerOfLower | index.js:73 | a name with no upper-case letter is its own lower-case form |
| VoidTable.KnownNames | index.js:8-11 | `br` is void; `span`, `div` and `b` are not |
| VoidTable.AsWrittenDiffers | index.js:8-11 | for lower-case names, the lookup as written and the intended lookup disagree exactly on `constructor` and `__proto__` |
| VoidTable.ConstructorLosesClosingTag | index.js:91-92 | `<constructor>` gets no closing tag as written, and gets `</constructor>` under the intended table |
| Serializer.Serialize | index.js:30-65 | the first event of a call fires at the node itself; every other event fires strictly below it in the tree |
| Serializer.SerializeElement | index.js:71-96 | every event fired while rendering an element's children is at a strict descendant of the element |
| Serializer.SerializeChildren | index.js:86-88 | every event fired while rendering the first k children is at a strict descendant |
| SerializerFacts.CancelWins | index.js:39-40 | a cancelled event yields `''` with no default rendering and no further events, whatever the node and the hook's detail |
| SerializerFacts.ValueOverrideVerbatim | index.js:46-54 | a string override is the result exactly, for every kind of node, with no events below it |
| SerializerFacts.NodeOverrideRendersReplacement | index.js:49-51 | a node override yields the default rendering of the replacement; the replacement gets no event of its own |
| SerializerFacts.TextVerbatim | index.js:61-62 | with no override, a text node yields its value unchanged |
| SerializerFacts.OtherKindsEmpty | index.js:57-64 | with no override, a node that is neither element nor text yields `''` |
| SerializerFacts.HookFiresOnce | index.js:33-39 | a call fires the event at its own node exactly once, and that is the first event |
| SerializerFacts.ChildrenDefined | index.js:86-88 | the children's output exists (the fuel suffices) exactly when every child's output exists |
| SerializerFacts.ChildrenConcat | index.js:86-88 | the children's output is the concatenation of each child's `serialize` output, in order, with no separator |
| SerializerFacts.ElementMarkup | index.js:71-96 | an element yields `<` + lower-case name + attributes + `>` + children joined + `</name>` unless the lower-cased name is void |
| SerializerFacts.EmptyElement | index.js:76-95 | an element without children yields its start tag, plus `</name>` exactly when it is not void |
| SerializerFacts.AttributesSplit | index.js:79-81 | the attribute text of a concatenated list is the concatenation of the parts' attribute texts |
| SerializerFacts.SingleAttribute | index.js:80 | one attribute renders as a space, the name as is, `="`, the escaped value, and `"` |
| SerializerFacts.FuelMonotone | index.js:30-65 | once a result exists, more fuel leaves it and its event trace unchanged, so fuel never alters an output |
| SerializerFacts.RenderFuelMonotone | index.js:57-64 | the same for default rendering |
| SerializerFacts.ChildrenFuelMonotone | index.js:86-88 | the same for the children loop |
| SerializerFacts.ReplacementMayNotEnd | index.js:49-51 | a hook that always replaces a node by an element wrapping it produces no result for any fuel, modelling unbounded recursion |
| Reference.NoListenersIsPlain | index.js:30-104 | with no listener anywhere, serializing yields the independent plain rendering, and the event fires at every node in pre-order |
| Reference.RenderIsPlain | index.js:57-96 | default rendering with no listeners equals the plain rendering, with events at all strict descendants in pre-order |
| Reference.ChildrenArePlain | index.js:86-88 | the children loop with no listeners equals the plain rendering of the children |
| Reference.NeverReplacesTerminates | index.js:30-65 | a hook that never supplies a replacement node always finishes within fuel equal to the tree height |
| Reference.RenderTerminates | index.js:57-96 | the same for default rendering |
| Reference.ChildrenTerminate | index.js:86-88 | the same for the children loop |
| SerializerLoop.SerializeNode | index.js:30-65 | the imperative `serialize`, with early returns and the reassigned `node`, returns exactly the functional model's output |
| SerializerLoop.SerializeElementNode | index.js:71-96 | the imperative `serializeElement`, built by attribute and child index loops and a final join, returns exactly the functional model's output |
| SerializerLoop.PushChildren | index.js:86-88 | the child loop succeeds exactly when the functional children loop does, and then appends exactly its output |
| Examples.SpanElement | test/test.js:7-10 | an empty `span` yields `<span></span>` with one event |
| Examples.BrElement | test/test.js:12-15 | an empty `br` yields `<br>` |
| Examples.TextNode | test/test.js:17-20 | a text node `test` yields `test` |
| Examples.HelloWorldHeight | test/test.js:22-29 | the test tree has height 3 |
| Examples.PlainB | test/test.js:25-26 | `<B>` with text `world` renders as `<b>world</b>` |
| Examples.PlainBr | test/test.js:29 | `br` renders as `<br>` |
| Examples.HelloWorldPlain | test/test.js:22-30 | the test tree renders as `<div>hello <b>world</b>!<br></div>` |
| Examples.HelloWorldPreorder | test/test.js:22-29 | the events of the test tree fire at the root, then `[0]`, `[1]`, `[1,0]`, `[2]`, `[3]` |
| Examples.DivWithChildren | test/test.js:22-31 | serializing the test tree yields the expected markup, and the events fire in pre-order |
| Examples.AttributesLiteral | test/test.js:33-37 | with the escaping the test pins, the attributes render as ` foo="bar" escape="&#60;&#62;&#38;&#34;&#39;"` |
| Examples.DivWithAttributes | test/test.js:33-38 | the `div` with those attributes yields the expected markup |
| Examples.ValueOverrideOnDiv | test/test.js:40-50 | a listener setting `MEOW` on a div yields `MEOW` and fires once |
| Examples.ValueOverrideOnText | test/test.js:52-62 | a listener setting `MEOW` on a text node yields `MEOW` and fires once |
| Examples.CancelledChild | test/test.js:64-75 | cancelling the text child of `<div>!</div>` yields `<div></div>`, and the child's event fires once |
| Examples.NodeOverrideByText | index.js:49-51 | replacing any node by a text node yields that text, with a single event |
| Examples.ConstructorElement | index.js:91-92 | as written, an element named `constructor` has no closing tag; under the intended table it gets `</constructor>` |

## Left out

- DOM event machinery (`CustomEvent`, `dispatchEvent`, bubbling, `addEventListener`, `preventDefault`; index.js:7, 33-39). This is a foreign event system, so it becomes a pure hook on (path, node). Listeners that keep state between events are not modelled. The tests' counters appear only as the number of events in the trace.
- `escapeHTML` (index.js:6, 18): the `ent/encode` library is not part of this model. Its behaviour is a parameter. The examples require only the two input/output pairs the tests pin.
- The `void-elements` package is not part of this model. Its list is taken here to be the HTML void elements (`VoidTable.VoidNames`). The `reduce` at index.js:8-11 is modelled only by its resulting lookup.
- Null, undefined and objects that are not event targets: `serialize` calls `node.dispatchEvent` unguarded (index.js:39), so `serialize(null)`, or a duck-typed replacement node whose children are not DOM nodes, throws a `TypeError`. The model's nodes are always present DOM nodes, so this error path is not represented.
- `String(...)` of an arbitrary override value (index.js:53): JavaScript coercion is out of scope, so an override value is already a string.
- The branch at index.js:47-48, a value whose `nodeType` is itself a string, is folded into the string override. An ordinary string reaches line 53 and gives the same result.
- Serializer.SerializeElement: decides the closing tag with the intended table `VoidTable.CloseTag`, and so do `SerializerLoop.SerializeElementNode` and `Reference.Plain`. Elements named `constructor` and `__proto__` therefore keep a closing tag that index.js:91 drops; the lookup as written is modelled separately by `VoidTable.CloseTagAsWritten` (see "## Findings").
- Dom.ToLower: models ASCII upper case only, not full Unicode `toLowerCase`.
- Serializer.Serialize: recursion that does not end, which in JavaScript exhausts the stack, is modelled as `None` once fuel runs out. `FuelMonotone` shows fuel never changes a result that exists. `NeverReplacesTerminates` gives fuel that always suffices when no node is replaced.
- Serializer.Serialize: a replacement node's children see the paths of the replaced node's position. A real replacement node may be detached, or located elsewhere in the document.
- SerializerLoop.SerializeElementNode: the local array `r` (index.js:76) is a `seq` that is reassigned by appending, not an array pushed in place. `r` is never shared, so no aliasing is lost.
- Attribute lists and child lists are immutable `seq`s. Live `NamedNodeMap`/`NodeList` mutation during serialization is not modelled.
- The `exports.*` indirection (index.js:17-20, 60, 62, 80), which lets a caller monkey-patch the renderers, is not modelled. The model calls the functions directly.

## Findings

| source | as written | input that shows it | evidently intended | confidence | as-written member | corrected member |
|---|---|---|---|---|---|---|
| index.js:8-11, 91 | `voidElements` is a plain object literal, so `voidElements[name]` is also truthy for keys inherited from `Object.prototype` | an element named `constructor` (or `__proto__`) serializes to `<constructor>` with no closing tag | only names in the void-element list omit the closing tag: `<constructor></constructor>` | not executed | VoidTable.CloseTagAsWritten (shown by VoidTable.ConstructorLosesClosingTag, Examples.ConstructorElement) | VoidTable.CloseTag |
