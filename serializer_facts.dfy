/**
 * What the serializer promises: how the event's outcome decides the result,
 * that the event fires once per node, how an element's markup is composed
 * from its parts, and that the fuel bound only decides whether a result
 * exists, never what it is.
 */
module SerializerFacts {
  import opened Wrappers
  import opened Dom
  import opened VoidTable
  import opened Serializer

  /** A cancelled event yields `''` and nothing else is serialized, whatever the detail says. */
  lemma CancelWins(env: Env, path: Path, node: Node, fuel: nat)
    requires fuel > 0 && env.hook(path, node).cancelled
    ensures Serialize(env, path, node, fuel) == Some(Run("", [path]))
  {
  }

  /** A value override is the result verbatim, whatever the node's kind or children. */
  lemma ValueOverrideVerbatim(env: Env, path: Path, node: Node, fuel: nat, s: string)
    requires fuel > 0 && env.hook(path, node) == EventOutcome(false, ValueOverride(s))
    ensures Serialize(env, path, node, fuel) == Some(Run(s, [path]))
  {
  }

  /**
   * A node override is rendered by the kind-based rules in place of the
   * node, and the replacement itself gets no event of its own.
   */
  lemma NodeOverrideRendersReplacement(env: Env, path: Path, node: Node, fuel: nat, m: Node)
    requires fuel > 0 && env.hook(path, node) == EventOutcome(false, NodeOverride(m))
    ensures Out(Serialize(env, path, node, fuel)) == Out(Render(env, path, m, fuel - 1))
    ensures Render(env, path, m, fuel - 1).Some? ==>
      Serialize(env, path, node, fuel).value.fired == [path] + Render(env, path, m, fuel - 1).value.fired
      && path !in Render(env, path, m, fuel - 1).value.fired
  {
    var r := Render(env, path, m, fuel - 1);
    if r.Some? {
      forall q | q in r.value.fired ensures q != path {
        var j :| 0 <= j < |r.value.fired| && r.value.fired[j] == q;
      }
    }
  }

  /** Without a cancel or an override, a text node yields its value unchanged. */
  lemma TextVerbatim(env: Env, path: Path, value: string, fuel: nat)
    requires fuel > 0 && env.hook(path, Text(value)) == EventOutcome(false, NoOverride)
    ensures Serialize(env, path, Text(value), fuel) == Some(Run(value, [path]))
  {
    assert [path] + [] == [path];
  }

  /** Without a cancel or an override, a node that is neither element nor text yields `''`. */
  lemma OtherKindsEmpty(env: Env, path: Path, fuel: nat)
    requires fuel > 0 && env.hook(path, Other) == EventOutcome(false, NoOverride)
    ensures Serialize(env, path, Other, fuel) == Some(Run("", [path]))
  {
    assert [path] + [] == [path];
  }

  /** Each call consults the hook on its node exactly once, at the start. */
  lemma HookFiresOnce(env: Env, path: Path, node: Node, fuel: nat)
    requires Serialize(env, path, node, fuel).Some?
    ensures multiset(Serialize(env, path, node, fuel).value.fired)[path] == 1
    ensures Serialize(env, path, node, fuel).value.fired[0] == path
  {
    var fired := Serialize(env, path, node, fuel).value.fired;
    var rest := fired[1..];
    assert fired == [path] + rest;
    assert path !in rest by {
      forall j | 0 <= j < |rest| ensures rest[j] != path {
        assert Below(path, fired[j + 1]);
      }
    }
    assert multiset(fired) == multiset{path} + multiset(rest);
  }

  /** The children's serialization exists exactly when every child's does. */
  lemma {:induction false} ChildrenDefined(env: Env, path: Path, cs: seq<Node>, k: nat, fuel: nat)
    requires k <= |cs|
    ensures SerializeChildren(env, path, cs, k, fuel).Some?
      <==> forall i :: 0 <= i < k ==> Serialize(env, path + [i], cs[i], fuel).Some?
  {
    if k > 0 {
      ChildrenDefined(env, path, cs, k - 1, fuel);
    }
  }

  /** The children's markup is each child's markup, concatenated in order with no separator. */
  lemma {:induction false} ChildrenConcat(env: Env, path: Path, cs: seq<Node>, k: nat, fuel: nat, outs: seq<string>)
    requires k <= |cs| && |outs| == k
    requires forall i :: 0 <= i < k ==> Out(Serialize(env, path + [i], cs[i], fuel)) == Some(outs[i])
    ensures Out(SerializeChildren(env, path, cs, k, fuel)) == Some(Join(outs))
  {
    if k > 0 {
      ChildrenConcat(env, path, cs, k - 1, fuel, outs[..k - 1]);
      assert outs == outs[..k - 1] + [outs[k - 1]];
      JoinPush(outs[..k - 1], outs[k - 1]);
    }
  }

  /**
   * An element is `<name`, its attributes, `>`, its children's markup in
   * order, and `</name>` unless the lower-cased name is void.
   */
  lemma ElementMarkup(env: Env, path: Path, name: string, attrs: seq<Attr>, cs: seq<Node>, fuel: nat, outs: seq<string>)
    requires |outs| == |cs|
    requires forall i :: 0 <= i < |cs| ==> Out(Serialize(env, path + [i], cs[i], fuel)) == Some(outs[i])
    ensures Out(Render(env, path, Element(name, attrs, cs), fuel)) ==
      Some("<" + ToLower(name) + AttributesText(env.escapeHTML, attrs) + ">" + Join(outs)
           + (if IsVoid(ToLower(name)) then "" else "</" + ToLower(name) + ">"))
  {
    ChildrenConcat(env, path, cs, |cs|, fuel, outs);
  }

  /** A childless element is `<name ...>` if void, and `<name ...></name>` otherwise. */
  lemma EmptyElement(env: Env, path: Path, name: string, attrs: seq<Attr>, fuel: nat)
    ensures Out(Render(env, path, Element(name, attrs, []), fuel)) ==
      Some(if IsVoid(ToLower(name))
           then StartTag(env.escapeHTML, ToLower(name), attrs)
           else StartTag(env.escapeHTML, ToLower(name), attrs) + "</" + ToLower(name) + ">")
  {
    ElementMarkup(env, path, name, attrs, [], fuel, []);
    var l := ToLower(name);
    var start := StartTag(env.escapeHTML, l, attrs);
    assert "<" + l + AttributesText(env.escapeHTML, attrs) + ">" + Join([]) == start;
    if IsVoid(l) {
      assert start + "" == start;
    } else {
      assert start + ("</" + l + ">") == start + "</" + l + ">";
    }
  }

  /** The attribute text distributes over concatenation of attribute lists. */
  lemma {:induction false} AttributesSplit(escape: string -> string, a: seq<Attr>, b: seq<Attr>)
    ensures AttributesText(escape, a + b) == AttributesText(escape, a) + AttributesText(escape, b)
  {
    if b != [] {
      var b' := b[..|b| - 1];
      assert (a + b)[..|a + b| - 1] == a + b';
      AttributesSplit(escape, a, b');
    } else {
      assert a + b == a;
    }
  }

  /** One attribute is ` name="escaped value"`: the name as-is, the value escaped. */
  lemma SingleAttribute(escape: string -> string, name: string, value: string)
    ensures AttributesText(escape, [Attr(name, value)]) == " " + name + "=\"" + escape(value) + "\""
  {
    assert [Attr(name, value)][..0] == [];
  }

  /** More fuel never changes a result that exists. */
  lemma {:induction false} FuelMonotone(env: Env, path: Path, node: Node, fuel: nat, more: nat)
    requires fuel <= more && Serialize(env, path, node, fuel).Some?
    ensures Serialize(env, path, node, more) == Serialize(env, path, node, fuel)
    decreases fuel, 0
  {
    var e := env.hook(path, node);
    if !e.cancelled {
      match e.detail
      case ValueOverride(_) =>
      case NodeOverride(m) => RenderFuelMonotone(env, path, m, fuel - 1, more - 1);
      case NoOverride => RenderFuelMonotone(env, path, node, fuel - 1, more - 1);
    }
  }

  lemma {:induction false} RenderFuelMonotone(env: Env, path: Path, node: Node, fuel: nat, more: nat)
    requires fuel <= more && Render(env, path, node, fuel).Some?
    ensures Render(env, path, node, more) == Render(env, path, node, fuel)
    decreases fuel, 2
  {
    if node.Element? {
      ChildrenFuelMonotone(env, path, node.childNodes, |node.childNodes|, fuel, more);
    }
  }

  lemma {:induction false} ChildrenFuelMonotone(env: Env, path: Path, cs: seq<Node>, k: nat, fuel: nat, more: nat)
    requires k <= |cs| && fuel <= more && SerializeChildren(env, path, cs, k, fuel).Some?
    ensures SerializeChildren(env, path, cs, k, more) == SerializeChildren(env, path, cs, k, fuel)
    decreases fuel, 1, k
  {
    if k > 0 {
      ChildrenFuelMonotone(env, path, cs, k - 1, fuel, more);
      FuelMonotone(env, path + [k - 1], cs[k - 1], fuel, more);
    }
  }

  /** Every listener replaces its node by a `<div>` holding one more node. */
  ghost predicate AlwaysWraps(env: Env) {
    forall p, m :: env.hook(p, m) == EventOutcome(false, NodeOverride(Element("div", [], [Other])))
  }

  /**
   * The serializer itself does not end whatever the listeners do: a
   * replacement with a child is serialized, child and all, and the child's
   * event may replace it again; no fuel suffices.
   */
  lemma {:induction false} ReplacementMayNotEnd(env: Env, path: Path, n: Node, fuel: nat)
    requires AlwaysWraps(env)
    ensures Serialize(env, path, n, fuel) == None
    decreases fuel
  {
    if fuel > 0 {
      assert env.hook(path, n) == EventOutcome(false, NodeOverride(Element("div", [], [Other])));
      var div := Element("div", [], [Other]);
      ReplacementMayNotEnd(env, path + [0], Other, fuel - 1);
      assert SerializeChildren(env, path, div.childNodes, 1, fuel - 1) == None;
      assert Render(env, path, div, fuel - 1) == None;
    }
  }
}
