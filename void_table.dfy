/**
 * The void-element table (index.js:8-11) and the closing-tag decision that
 * consults it (index.js:90-93).
 */
module VoidTable {
  import opened Dom

  /**
   * Element names with no closing tag. The source builds an object with one
   * `true` property per name imported from the `void-elements` package; its
   * list is taken here to be the HTML void elements.
   */
  const VoidNames: set<string> := {
    "area", "base", "br", "col", "embed", "hr", "img", "input", "keygen",
    "link", "menuitem", "meta", "param", "source", "track", "wbr"
  }

  /**
   * The properties every JavaScript object literal inherits from
   * `Object.prototype`; each has a truthy value.
   */
  const InheritedKeys: set<string> := {
    "constructor", "__proto__", "__defineGetter__", "__defineSetter__",
    "__lookupGetter__", "__lookupSetter__", "hasOwnProperty", "isPrototypeOf",
    "propertyIsEnumerable", "toLocaleString", "toString", "valueOf"
  }

  /** Whether `name` is a void element: membership in the table's own entries. */
  predicate IsVoid(name: string) {
    name in VoidNames
  }

  /**
   * The lookup `voidElements[name]` as written: the table is a plain object
   * literal, so an inherited property is found as well as an own one.
   */
  predicate IsVoidAsWritten(name: string) {
    name in VoidNames || name in InheritedKeys
  }

  /** The closing tag emitted after the children: none for a void element. */
  function CloseTag(name: string): (t: string)
    ensures IsVoid(name) <==> t == ""
    ensures !IsVoid(name) ==> t == "</" + name + ">"
  {
    if IsVoid(name) then "" else "</" + name + ">"
  }

  /** The closing-tag decision as written, through `IsVoidAsWritten`. */
  function CloseTagAsWritten(name: string): (t: string)
    ensures IsVoidAsWritten(name) <==> t == ""
    ensures !IsVoidAsWritten(name) ==> t == "</" + name + ">"
  {
    if IsVoidAsWritten(name) then "" else "</" + name + ">"
  }

  /** The names the tests pin: `br` is void; `span`, `div` and `b` are not. */
  lemma KnownNames()
    ensures IsVoid("br")
    ensures !IsVoid("span") && !IsVoid("div") && !IsVoid("b")
  {
  }

  /** A name holding an upper-case letter is not a lower-case name. */
  lemma UpperAt(s: string, i: nat)
    requires i < |s| && IsUpper(s[i])
    ensures !IsLowerName(s)
  {
  }

  /** Every inherited key but `constructor` and `__proto__` holds an upper-case letter. */
  lemma InheritedKeysWithUpperCase()
    ensures forall k :: k in InheritedKeys && IsLowerName(k) ==> k == "constructor" || k == "__proto__"
  {
    UpperAt("__defineGetter__", 8);
    UpperAt("__defineSetter__", 8);
    UpperAt("__lookupGetter__", 8);
    UpperAt("__lookupSetter__", 8);
    UpperAt("hasOwnProperty", 3);
    UpperAt("isPrototypeOf", 2);
    UpperAt("propertyIsEnumerable", 8);
    UpperAt("toLocaleString", 2);
    UpperAt("toString", 2);
    UpperAt("valueOf", 5);
  }

  /**
   * The two tables disagree on a lower-case name (the only names ever
   * looked up) exactly when it is `constructor` or `__proto__`.
   */
  lemma AsWrittenDiffers(name: string)
    requires IsLowerName(name)
    ensures IsVoidAsWritten(name) != IsVoid(name) <==> name == "constructor" || name == "__proto__"
  {
    assert "constructor" !in VoidNames && "__proto__" !in VoidNames;
    if name in InheritedKeys {
      InheritedKeysWithUpperCase();
      assert name == "constructor" || name == "__proto__";
    }
  }

  /** A `<constructor>` element loses its closing tag as written. */
  lemma ConstructorLosesClosingTag()
    ensures CloseTagAsWritten("constructor") == ""
    ensures CloseTag("constructor") == "</constructor>"
  {
  }
}
