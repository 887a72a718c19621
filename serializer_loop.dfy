/**
 * The serializer in the imperative form of index.js: `serialize` reassigns
 * its node and returns early, and `serializeElement` pushes fragments onto a
 * list in two index loops and joins them. Each method is proved equal to the
 * function of the same rules in module Serializer, which decides the closing
 * tag with the intended void table `VoidTable.CloseTag`.
 */
module SerializerLoop {
  import opened Wrappers
  import opened Dom
  import opened VoidTable
  import opened Serializer
  import SerializerFacts

  /** `serialize` (index.js:30-65). */
  method SerializeNode(env: Env, path: Path, node: Node, fuel: nat) returns (r: Option<string>)
    ensures r == Out(Serialize(env, path, node, fuel))
    decreases fuel, 0
  {
    if fuel == 0 {
      return None;
    }
    var e := env.hook(path, node);
    if e.cancelled {
      return Some("");
    }
    var n := node;
    match e.detail {
      case ValueOverride(s) =>
        return Some(s);
      case NodeOverride(m) =>
        n := m;
      case NoOverride =>
    }
    var t := NodeType(n);
    if t == 1 {
      r := SerializeElementNode(env, path, n, fuel - 1);
    } else if t == 3 {
      r := Some(SerializeText(n));
    } else {
      r := Some("");
    }
  }

  /** `serializeElement` (index.js:71-96). */
  method SerializeElementNode(env: Env, path: Path, node: Node, fuel: nat) returns (r: Option<string>)
    requires node.Element?
    ensures r == Out(SerializeElement(env, path, node, fuel))
    decreases fuel, 2
  {
    var name := ToLower(node.nodeName);
    var parts: seq<string> := ["<" + name];
    assert Join(parts) == "<" + name by {
      assert parts[..0] == [];
    }

    var attrs := node.attributes;
    var i := 0;
    while i < |attrs|
      invariant 0 <= i <= |attrs|
      invariant Join(parts) == "<" + name + AttributesText(env.escapeHTML, attrs[..i])
    {
      JoinPush(parts, AttrText(env.escapeHTML, attrs[i]));
      assert attrs[..i + 1][..i] == attrs[..i];
      parts := parts + [AttrText(env.escapeHTML, attrs[i])];
      i := i + 1;
    }
    assert attrs[..i] == attrs;
    JoinPush(parts, ">");
    parts := parts + [">"];

    var start := StartTag(env.escapeHTML, name, attrs);
    ElementFromChildren(env, path, node, fuel);
    var withChildren := PushChildren(env, path, node.childNodes, fuel, parts);
    if withChildren.None? {
      return None;
    }
    parts := withChildren.value;
    ghost var markup := start + SerializeChildren(env, path, node.childNodes, |node.childNodes|, fuel).value.out;
    assert Join(parts) == markup;

    if !IsVoid(name) {
      JoinPush(parts, "</" + name + ">");
      parts := parts + ["</" + name + ">"];
    } else {
      assert markup + CloseTag(name) == markup;
    }
    assert Join(parts) == markup + CloseTag(name);
    r := Some(Join(parts));
  }

  /** The loop over `childNodes` (index.js:86-88): pushes each child's markup in order. */
  method PushChildren(env: Env, path: Path, cs: seq<Node>, fuel: nat, parts: seq<string>)
    returns (r: Option<seq<string>>)
    ensures r.Some? <==> SerializeChildren(env, path, cs, |cs|, fuel).Some?
    ensures r.Some? ==> Join(r.value) == Join(parts) + SerializeChildren(env, path, cs, |cs|, fuel).value.out
    decreases fuel, 1
  {
    var acc := parts;
    ghost var done := "";
    var i := 0;
    while i < |cs|
      invariant 0 <= i <= |cs|
      invariant Out(SerializeChildren(env, path, cs, i, fuel)) == Some(done)
      invariant Join(acc) == Join(parts) + done
    {
      var c := SerializeNode(env, path + [i], cs[i], fuel);
      if c.None? {
        SerializerFacts.ChildrenDefined(env, path, cs, i + 1, fuel);
        SerializerFacts.ChildrenDefined(env, path, cs, |cs|, fuel);
        return None;
      }
      ChildStep(env, path, cs, i, fuel, done, c.value);
      JoinPush(acc, c.value);
      acc := acc + [c.value];
      done := done + c.value;
      i := i + 1;
    }
    r := Some(acc);
  }

  /** One more child extends the children's markup by that child's markup. */
  lemma ChildStep(env: Env, path: Path, cs: seq<Node>, i: nat, fuel: nat, done: string, child: string)
    requires i < |cs|
    requires Out(SerializeChildren(env, path, cs, i, fuel)) == Some(done)
    requires Out(Serialize(env, path + [i], cs[i], fuel)) == Some(child)
    ensures Out(SerializeChildren(env, path, cs, i + 1, fuel)) == Some(done + child)
  {
  }

  /** An element's markup is its tags around its children's markup, or fails with the children. */
  lemma ElementFromChildren(env: Env, path: Path, node: Node, fuel: nat)
    requires node.Element?
    ensures Out(SerializeElement(env, path, node, fuel)) ==
      match Out(SerializeChildren(env, path, node.childNodes, |node.childNodes|, fuel))
      case None => None
      case Some(c) =>
        var name := ToLower(node.nodeName);
        Some(StartTag(env.escapeHTML, name, node.attributes) + c + CloseTag(name))
  {
  }
}
