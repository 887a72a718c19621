/**
 * The read-only slice of the document object model that the serializer
 * consumes: element nodes (tag name, attributes, child nodes), text nodes,
 * and every other node kind, which the serializer does not render.
 */
module Dom {

  /** One entry of an element's `attributes` collection. */
  datatype Attr = Attr(name: string, value: string)

  /**
   * A node, discriminated by its `nodeType`: 1 is an element, 3 is a text
   * node, and `Other` stands for every remaining kind (comment, document,
   * doctype, fragment, ...).
   */
  datatype Node =
    | Element(nodeName: string, attributes: seq<Attr>, childNodes: seq<Node>)
    | Text(nodeValue: string)
    | Other

  /** The numeric `nodeType` the serializer switches on; 0 for the other kinds. */
  function NodeType(n: Node): (t: nat)
    ensures t == 1 <==> n.Element?
    ensures t == 3 <==> n.Text?
  {
    match n
    case Element(_, _, _) => 1
    case Text(_) => 3
    case Other => 0
  }

  predicate IsUpper(c: char) {
    'A' <= c <= 'Z'
  }

  /** Lower-cases one character; only the ASCII letters A-Z are mapped. */
  function LowerChar(c: char): (d: char)
    ensures !IsUpper(d)
    ensures IsUpper(c) ==> d as int == c as int + 32
    ensures !IsUpper(c) ==> d == c
  {
    if IsUpper(c) then (c as int + 32) as char else c
  }

  /** `String.prototype.toLowerCase`, restricted to ASCII letters. */
  function ToLower(s: string): (r: string)
    ensures |r| == |s|
    ensures forall i :: 0 <= i < |s| ==> r[i] == LowerChar(s[i])
  {
    seq(|s|, i requires 0 <= i < |s| => LowerChar(s[i]))
  }

  lemma ToLowerIdempotent(s: string)
    ensures ToLower(ToLower(s)) == ToLower(s)
  {
  }

  /** A name with no upper-case letter, as `toLowerCase` produces. */
  predicate IsLowerName(s: string) {
    forall i :: 0 <= i < |s| ==> !IsUpper(s[i])
  }

  /** A name with no upper-case ASCII letter is its own lower-case form. */
  lemma ToLowerOfLower(s: string)
    requires IsLowerName(s)
    ensures ToLower(s) == s
  {
  }
}
