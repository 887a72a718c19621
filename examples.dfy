/**
 * The scenarios of test/test.js, stated over the model: with no listener,
 * elements, void elements, text and attributes; with a listener, a value
 * override, a node override and a cancelled child.
 */
module Examples {
  import opened Wrappers
  import opened Dom
  import opened VoidTable
  import opened Serializer
  import opened SerializerFacts
  import opened Reference

  /** `document.createElement('span')` serializes to `<span></span>`. */
  lemma SpanElement(env: Env)
    requires NoListeners(env)
    ensures Serialize(env, [], Element("SPAN", [], []), 1) == Some(Run("<span></span>", [[]]))
  {
    var span := Element("SPAN", [], []);
    NoListenersIsPlain(env, [], span, 1);
    KnownNames();
    assert ToLower("SPAN") == "span";
    assert CloseTag("span") == "</" + "span" + ">";
    assert StartTag(env.escapeHTML, "span", []) == "<" + "span" + "" + ">";
    assert PlainChildren(env.escapeHTML, span, 0) == "";
    SpanText();
    assert Preorder([], span) == [[]];
  }

  lemma SpanText()
    ensures "<" + "span" + "" + ">" + "" + ("</" + "span" + ">") == "<span></span>"
  {
  }

  /** `document.createElement('br')` serializes to `<br>`: void, so no closing tag. */
  lemma BrElement(env: Env)
    requires NoListeners(env)
    ensures Serialize(env, [], Element("BR", [], []), 1) == Some(Run("<br>", [[]]))
  {
    var br := Element("BR", [], []);
    NoListenersIsPlain(env, [], br, 1);
    assert ToLower("BR") == "br";
    assert Plain(env.escapeHTML, br) == "<br>";
    assert Preorder([], br) == [[]];
  }

  /** A text node `test` serializes to `test`. */
  lemma TextNode(env: Env)
    requires NoListeners(env)
    ensures Serialize(env, [], Text("test"), 1) == Some(Run("test", [[]]))
  {
    NoListenersIsPlain(env, [], Text("test"), 1);
    assert Preorder([], Text("test")) == [[]];
  }

  /** The tree `<div>hello <b>world</b>!<br></div>` of the tests, as `createElement` builds it. */
  function HelloWorld(): Node {
    Element("DIV", [], [Text("hello "), Element("B", [], [Text("world")]), Text("!"), Element("BR", [], [])])
  }

  lemma HelloWorldHeight()
    ensures Height(HelloWorld()) == 3
  {
    var div := HelloWorld();
    var b := div.childNodes[1];
    assert Height(b) == 2 by {
      assert HeightChildren(b, 1) == 1;
    }
    assert HeightChildren(div, 1) == 1;
    assert HeightChildren(div, 2) == 2;
    assert HeightChildren(div, 3) == 2;
    assert HeightChildren(div, 4) == 2;
  }

  lemma PlainB(esc: string -> string)
    ensures Plain(esc, Element("B", [], [Text("world")])) == "<b>world</b>"
  {
    var b := Element("B", [], [Text("world")]);
    KnownNames();
    assert ToLower("B") == "b";
    assert CloseTag("b") == "</" + "b" + ">";
    assert StartTag(esc, "b", []) == "<" + "b" + "" + ">";
    assert PlainChildren(esc, b, 1) == "" + "world";
    BText();
  }

  lemma BText()
    ensures "<" + "b" + "" + ">" + ("" + "world") + ("</" + "b" + ">") == "<b>world</b>"
  {
  }

  lemma PlainBr(esc: string -> string)
    ensures Plain(esc, Element("BR", [], [])) == "<br>"
  {
    KnownNames();
    assert ToLower("BR") == "br";
  }

  lemma HelloWorldPlain(esc: string -> string)
    ensures Plain(esc, HelloWorld()) == "<div>hello <b>world</b>!<br></div>"
  {
    var div := HelloWorld();
    PlainB(esc);
    PlainBr(esc);
    KnownNames();
    assert ToLower("DIV") == "div";
    assert CloseTag("div") == "</div>";
    assert StartTag(esc, "div", []) == "<div>";
    assert PlainChildren(esc, div, 1) == "" + "hello ";
    assert PlainChildren(esc, div, 2) == "" + "hello " + "<b>world</b>";
    assert PlainChildren(esc, div, 3) == "" + "hello " + "<b>world</b>" + "!";
    assert PlainChildren(esc, div, 4) == "" + "hello " + "<b>world</b>" + "!" + "<br>";
    assert Plain(esc, div) == "<div>" + ("" + "hello " + "<b>world</b>" + "!" + "<br>") + "</div>";
    HelloWorldText();
  }

  lemma HelloWorldText()
    ensures "<div>" + ("" + "hello " + "<b>world</b>" + "!" + "<br>") + "</div>" == "<div>hello <b>world</b>!<br></div>"
  {
  }

  lemma HelloWorldPreorder()
    ensures Preorder([], HelloWorld()) == [[], [0], [1], [1, 0], [2], [3]]
  {
    var div := HelloWorld();
    var b := div.childNodes[1];
    assert [] + [0] == [0] && [] + [1] == [1] && [] + [2] == [2] && [] + [3] == [3] && [1] + [0] == [1, 0];
    assert Preorder([1, 0], Text("world")) == [[1, 0]];
    assert PreorderChildren([1], b, 1) == [[1, 0]];
    assert Preorder([1], b) == [[1], [1, 0]];
    assert Preorder([0], Text("hello ")) == [[0]];
    assert Preorder([2], Text("!")) == [[2]];
    assert Preorder([3], div.childNodes[3]) == [[3]];
    assert PreorderChildren([], div, 1) == [[0]];
    assert PreorderChildren([], div, 2) == [[0], [1], [1, 0]];
    assert PreorderChildren([], div, 3) == [[0], [1], [1, 0], [2]];
    assert PreorderChildren([], div, 4) == [[0], [1], [1, 0], [2], [3]];
  }

  /** `<div>hello <b>world</b>!<br></div>`, with one event per node in document order. */
  lemma DivWithChildren(env: Env)
    requires NoListeners(env)
    ensures Serialize(env, [], HelloWorld(), 3)
      == Some(Run("<div>hello <b>world</b>!<br></div>", [[], [0], [1], [1, 0], [2], [3]]))
  {
    HelloWorldHeight();
    HelloWorldPlain(env.escapeHTML);
    HelloWorldPreorder();
    NoListenersIsPlain(env, [], HelloWorld(), 3);
  }

  /** The two input/output pairs of `escapeHTML` the tests pin. */
  predicate EscapeAgreesWithTests(escape: string -> string) {
    && escape("<>&\"'") == "&#60;&#62;&#38;&#34;&#39;"
    && escape("bar") == "bar"
  }

  /** The attributes of the test, one ` name="escaped value"` each, in order. */
  lemma AttributesLiteral(escape: string -> string)
    requires EscapeAgreesWithTests(escape)
    ensures AttributesText(escape, [Attr("foo", "bar"), Attr("escape", "<>&\"'")])
      == " foo=\"bar\"" + " escape=\"&#60;&#62;&#38;&#34;&#39;\""
  {
    var attrs := [Attr("foo", "bar"), Attr("escape", "<>&\"'")];
    assert attrs[..1] == [attrs[0]];
    SingleAttribute(escape, "foo", "bar");
    FooText();
    EscapeText();
  }

  lemma FooText()
    ensures " " + "foo" + "=\"" + "bar" + "\"" == " foo=\"bar\""
  {
  }

  lemma EscapeText()
    ensures " " + "escape" + "=\"" + "&#60;&#62;&#38;&#34;&#39;" + "\"" == " escape=\"&#60;&#62;&#38;&#34;&#39;\""
  {
  }

  /**
   * `<div foo="bar" escape="...">`: names as-is, values through `escapeHTML`,
   * in the order they were set.
   */
  lemma DivWithAttributes(env: Env)
    requires NoListeners(env) && EscapeAgreesWithTests(env.escapeHTML)
    ensures Out(Serialize(env, [], Element("DIV", [Attr("foo", "bar"), Attr("escape", "<>&\"'")], []), 1))
      == Some("<div foo=\"bar\" escape=\"&#60;&#62;&#38;&#34;&#39;\"></div>")
  {
    var attrs := [Attr("foo", "bar"), Attr("escape", "<>&\"'")];
    var div := Element("DIV", attrs, []);
    assert env.hook([], div) == EventOutcome(false, NoOverride);
    assert Out(Serialize(env, [], div, 1)) == Out(Render(env, [], div, 0));
    KnownNames();
    assert ToLower("DIV") == "div";
    EmptyElement(env, [], "DIV", attrs, 0);
    AttributesLiteral(env.escapeHTML);
    DivWithAttributesText();
  }

  lemma DivWithAttributesText()
    ensures "<" + "div" + (" foo=\"bar\"" + " escape=\"&#60;&#62;&#38;&#34;&#39;\"") + ">" + "</" + "div" + ">" == "<div foo=\"bar\" escape=\"&#60;&#62;&#38;&#34;&#39;\"></div>"
  {
    DivFooText();
    DivFooEscText();
    DivCloseText();
  }

  lemma DivCloseText()
    ensures "<div foo=\"bar\" escape=\"&#60;&#62;&#38;&#34;&#39;\"" + ">" + "</" + "div" + ">" == "<div foo=\"bar\" escape=\"&#60;&#62;&#38;&#34;&#39;\"></div>"
  {
  }

  lemma DivFooText()
    ensures "<" + "div" + " foo=\"bar\"" == "<div foo=\"bar\""
  {
  }

  lemma DivFooEscText()
    ensures "<div foo=\"bar\"" + " escape=\"&#60;&#62;&#38;&#34;&#39;\"" == "<div foo=\"bar\" escape=\"&#60;&#62;&#38;&#34;&#39;\""
  {
  }

  /** A listener on a `<div>` that sets the detail to `MEOW`: the result is `MEOW`, and the listener fires once. */
  lemma ValueOverrideOnDiv(env: Env)
    requires env.hook([], Element("DIV", [], [])) == EventOutcome(false, ValueOverride("MEOW"))
    ensures Serialize(env, [], Element("DIV", [], []), 1) == Some(Run("MEOW", [[]]))
    ensures multiset(Serialize(env, [], Element("DIV", [], []), 1).value.fired)[[]] == 1
  {
    ValueOverrideVerbatim(env, [], Element("DIV", [], []), 1, "MEOW");
    HookFiresOnce(env, [], Element("DIV", [], []), 1);
  }

  /** The same listener on a text node: its value is ignored and the result is `MEOW`. */
  lemma ValueOverrideOnText(env: Env)
    requires env.hook([], Text("whaaaaa!!!!!!")) == EventOutcome(false, ValueOverride("MEOW"))
    ensures Serialize(env, [], Text("whaaaaa!!!!!!"), 1) == Some(Run("MEOW", [[]]))
    ensures multiset(Serialize(env, [], Text("whaaaaa!!!!!!"), 1).value.fired)[[]] == 1
  {
    ValueOverrideVerbatim(env, [], Text("whaaaaa!!!!!!"), 1, "MEOW");
    HookFiresOnce(env, [], Text("whaaaaa!!!!!!"), 1);
  }

  /**
   * A listener on the first child of `<div>!</div>` that cancels: the child
   * vanishes, the result is `<div></div>`, and the listener fires once.
   */
  lemma CancelledChild(env: Env)
    requires env.hook([], Element("DIV", [], [Text("!")])) == EventOutcome(false, NoOverride)
    requires env.hook([0], Text("!")).cancelled
    ensures Serialize(env, [], Element("DIV", [], [Text("!")]), 2) == Some(Run("<div></div>", [[], [0]]))
    ensures multiset(Serialize(env, [], Element("DIV", [], [Text("!")]), 2).value.fired)[[0]] == 1
  {
    var div := Element("DIV", [], [Text("!")]);
    var child: Path := [0];
    assert [] + [0] == child;
    CancelWins(env, child, Text("!"), 1);
    assert SerializeChildren(env, [], div.childNodes, 0, 1) == Some(Run("", []));
    assert SerializeChildren(env, [], div.childNodes, 1, 1) == Some(Run("" + "", [] + [child]));
    KnownNames();
    assert ToLower("DIV") == "div";
    assert StartTag(env.escapeHTML, "div", []) + ("" + "") + CloseTag("div") == "<div></div>";
    assert SerializeElement(env, [], div, 1)
      == Some(Run(StartTag(env.escapeHTML, "div", []) + ("" + "") + CloseTag("div"), [] + [child]));
    assert [] + [child] == [child];
    assert Render(env, [], div, 1) == Some(Run("<div></div>", [child]));
    var fired := Serialize(env, [], div, 2).value.fired;
    assert fired == [[], child];
    assert multiset(fired) == multiset{[], child};
  }

  /** A listener that sets the detail to a text node `foo`: the replacement is rendered, giving `foo`. */
  lemma NodeOverrideByText(env: Env, node: Node)
    requires env.hook([], node) == EventOutcome(false, NodeOverride(Text("foo")))
    ensures Serialize(env, [], node, 1) == Some(Run("foo", [[]]))
  {
    var top: Path := [];
    assert [top] + [] == [top];
  }

  /**
   * A `<constructor>` element keeps its closing tag in the model; the lookup
   * as written would find the inherited `constructor` property and drop it.
   */
  lemma ConstructorElement(env: Env)
    requires NoListeners(env)
    ensures Out(Serialize(env, [], Element("CONSTRUCTOR", [], []), 1)) == Some("<constructor></constructor>")
    ensures CloseTagAsWritten(ToLower("CONSTRUCTOR")) == ""
  {
    var n := Element("CONSTRUCTOR", [], []);
    assert env.hook([], n) == EventOutcome(false, NoOverride);
    assert Out(Serialize(env, [], n, 1)) == Out(Render(env, [], n, 0));
    LowerConstructor();
    ConstructorLosesClosingTag();
    EmptyElement(env, [], "CONSTRUCTOR", [], 0);
    assert StartTag(env.escapeHTML, "constructor", []) == "<" + "constructor" + "" + ">";
    ConstructorText();
  }

  lemma LowerConstructor()
    ensures ToLower("CONSTRUCTOR") == "constructor"
  {
  }

  lemma ConstructorText()
    ensures "<" + "constructor" + "" + ">" + "</" + "constructor" + ">" == "<constructor></constructor>"
  {
  }
}
