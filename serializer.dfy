/**
 * The serializer of index.js as functions over node values: the dispatcher
 * `serialize` (index.js:30-65), `serializeElement` (index.js:71-96) and
 * `serializeText` (index.js:102-104).
 *
 * The "serialize" event is a hook consulted with the node and its path (the
 * child indices leading to it from the node the call started on), which is
 * all a bubbling listener on the node or on one of its ancestors can tell
 * apart. A replacement node may contain further nodes the hook replaces, so
 * the recursion need not end: every call carries a fuel bound on the nesting
 * depth of dispatcher calls and yields `None` when it runs out.
 */
module Serializer {
  import opened Wrappers
  import opened Dom
  import opened VoidTable

  /** Child indices from the node the serialization started on. */
  type Path = seq<nat>

  /** What listeners left in `e.detail.serialize` (index.js:42-55). */
  datatype Override =
    | NoOverride               // null or undefined: keep the node
    | ValueOverride(text: string)  // any value without a numeric `nodeType`, in its string form
    | NodeOverride(node: Node)     // a value with a numeric `nodeType`: render it instead

  /** The "serialize" event after dispatch: whether a listener cancelled it, and the detail. */
  datatype EventOutcome = EventOutcome(cancelled: bool, detail: Override)

  /**
   * What the serializer calls out to: the listeners of the "serialize" event,
   * and `escapeHTML` (the `ent` entity encoder).
   */
  datatype Env = Env(hook: (Path, Node) -> EventOutcome, escapeHTML: string -> string)

  /** One serialization: the markup, and the paths at which the event was fired, in order. */
  datatype Run = Run(out: string, fired: seq<Path>)

  /** `q` is the path of a node strictly inside the node at `p`. */
  predicate Below(p: Path, q: Path) {
    |p| < |q| && q[..|p|] == p
  }

  lemma BelowChild(p: Path, k: nat, q: Path)
    requires q == p + [k] || Below(p + [k], q)
    ensures Below(p, q)
  {
    assert q[..|p| + 1][..|p|] == q[..|p|];
  }

  /** The markup of a run, dropping the trace. */
  function Out(r: Option<Run>): (o: Option<string>)
    ensures o.Some? <==> r.Some?
    ensures r.Some? ==> o.value == r.value.out
  {
    match r
    case None => None
    case Some(run) => Some(run.out)
  }

  /** Concatenation of a list of strings, as `Array.prototype.join('')`. */
  function Join(parts: seq<string>): (s: string) {
    if parts == [] then "" else Join(parts[..|parts| - 1]) + parts[|parts| - 1]
  }

  lemma JoinPush(parts: seq<string>, s: string)
    ensures Join(parts + [s]) == Join(parts) + s
  {
    assert (parts + [s])[..|parts|] == parts;
  }

  /** One attribute: its name as-is and its escaped value in double quotes (index.js:80). */
  function AttrText(escape: string -> string, a: Attr): (s: string) {
    " " + a.name + "=\"" + escape(a.value) + "\""
  }

  /** Every attribute in order, with no separator but the leading space of each. */
  function AttributesText(escape: string -> string, attrs: seq<Attr>): (s: string) {
    if attrs == [] then ""
    else AttributesText(escape, attrs[..|attrs| - 1]) + AttrText(escape, attrs[|attrs| - 1])
  }

  /** The opening tag: `<`, the name, the attributes, `>` (index.js:76-83). */
  function StartTag(escape: string -> string, name: string, attrs: seq<Attr>): (s: string) {
    "<" + name + AttributesText(escape, attrs) + ">"
  }

  /** `serializeText`: the node's value, not escaped. */
  function SerializeText(node: Node): (s: string)
    requires node.Text?
  {
    node.nodeValue
  }

  /**
   * `serialize`: the event first (a cancel wins over any detail), then the
   * kind-based rendering of the node or of its replacement.
   */
  function Serialize(env: Env, path: Path, node: Node, fuel: nat): (r: Option<Run>)
    decreases fuel, 0
    ensures r.Some? ==> |r.value.fired| > 0 && r.value.fired[0] == path
    ensures r.Some? ==> forall j :: 1 <= j < |r.value.fired| ==> Below(path, r.value.fired[j])
  {
    if fuel == 0 then None
    else
      var e := env.hook(path, node);
      if e.cancelled then Some(Run("", [path]))
      else
        match e.detail
        case ValueOverride(s) => Some(Run(s, [path]))
        case NodeOverride(m) => Consulted(path, Render(env, path, m, fuel - 1))
        case NoOverride => Consulted(path, Render(env, path, node, fuel - 1))
  }

  /** Prepends the event fired at `path` to the trace of a rendering beneath it. */
  function Consulted(path: Path, r: Option<Run>): (c: Option<Run>)
    requires r.Some? ==> forall j :: 0 <= j < |r.value.fired| ==> Below(path, r.value.fired[j])
    ensures c.Some? <==> r.Some?
    ensures c.Some? ==> c.value.out == r.value.out && c.value.fired == [path] + r.value.fired
  {
    match r
    case None => None
    case Some(run) => Some(Run(run.out, [path] + run.fired))
  }

  /** The switch on `nodeType` (index.js:57-64): no event is fired for `node` itself. */
  function Render(env: Env, path: Path, node: Node, fuel: nat): (r: Option<Run>)
    decreases fuel, 3
    ensures r.Some? ==> forall j :: 0 <= j < |r.value.fired| ==> Below(path, r.value.fired[j])
  {
    if NodeType(node) == 1 then SerializeElement(env, path, node, fuel)
    else if NodeType(node) == 3 then Some(Run(SerializeText(node), []))
    else Some(Run("", []))
  }

  /** `serializeElement`: opening tag, children, and the closing tag unless void. */
  function SerializeElement(env: Env, path: Path, node: Node, fuel: nat): (r: Option<Run>)
    requires node.Element?
    decreases fuel, 2
    ensures r.Some? ==> forall j :: 0 <= j < |r.value.fired| ==> Below(path, r.value.fired[j])
  {
    var name := ToLower(node.nodeName);
    match SerializeChildren(env, path, node.childNodes, |node.childNodes|, fuel)
    case None => None
    case Some(c) => Some(Run(StartTag(env.escapeHTML, name, node.attributes) + c.out + CloseTag(name), c.fired))
  }

  /** The serializations of the first `k` children, concatenated in order. */
  function SerializeChildren(env: Env, path: Path, cs: seq<Node>, k: nat, fuel: nat): (r: Option<Run>)
    requires k <= |cs|
    decreases fuel, 1, k
    ensures r.Some? ==> forall j :: 0 <= j < |r.value.fired| ==> Below(path, r.value.fired[j])
  {
    if k == 0 then Some(Run("", []))
    else
      match (SerializeChildren(env, path, cs, k - 1, fuel), Serialize(env, path + [k - 1], cs[k - 1], fuel))
      case (Some(a), Some(b)) =>
        ChildTraceBelow(path, k - 1, b.fired);
        Some(Run(a.out + b.out, a.fired + b.fired))
      case _ => None
  }

  /** A child's trace, which starts at the child's own path, lies below its parent. */
  lemma ChildTraceBelow(path: Path, k: nat, fired: seq<Path>)
    requires |fired| > 0 && fired[0] == path + [k]
    requires forall j :: 1 <= j < |fired| ==> Below(path + [k], fired[j])
    ensures forall j :: 0 <= j < |fired| ==> Below(path, fired[j])
  {
    forall j | 0 <= j < |fired| ensures Below(path, fired[j]) {
      BelowChild(path, k, fired[j]);
    }
  }
}
