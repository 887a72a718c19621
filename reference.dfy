/**
 * A reference rendering with no "serialize" listeners at all: structural
 * recursion over the tree. With no listener, the serializer agrees with it,
 * fires the event at every node in document order, and needs no more fuel
 * than the height of the tree.
 */
module Reference {
  import opened Wrappers
  import opened Dom
  import opened VoidTable
  import opened Serializer

  /** The markup of a tree when no listener intervenes anywhere. */
  function Plain(escape: string -> string, n: Node): (s: string)
    decreases n
  {
    match n
    case Element(name, attrs, cs) =>
      StartTag(escape, ToLower(name), attrs) + PlainChildren(escape, n, |cs|) + CloseTag(ToLower(name))
    case Text(value) => value
    case Other => ""
  }

  /** The markup of the first `k` children of element `n`, in order. */
  function PlainChildren(escape: string -> string, n: Node, k: nat): (s: string)
    requires n.Element? && k <= |n.childNodes|
    decreases n, k
  {
    if k == 0 then "" else PlainChildren(escape, n, k - 1) + Plain(escape, n.childNodes[k - 1])
  }

  /** The paths of every node of the tree rooted at `path`, in document order (pre-order). */
  function Preorder(path: Path, n: Node): (ps: seq<Path>)
    decreases n
  {
    [path] + (if n.Element? then PreorderChildren(path, n, |n.childNodes|) else [])
  }

  /** The pre-order paths of the first `k` children's subtrees of element `n`. */
  function PreorderChildren(path: Path, n: Node, k: nat): (ps: seq<Path>)
    requires n.Element? && k <= |n.childNodes|
    decreases n, k
  {
    if k == 0 then [] else PreorderChildren(path, n, k - 1) + Preorder(path + [k - 1], n.childNodes[k - 1])
  }

  /** The number of nodes on the longest root-to-leaf path. */
  function Height(n: Node): (h: nat)
    decreases n
    ensures h >= 1
  {
    if n.Element? then 1 + HeightChildren(n, |n.childNodes|) else 1
  }

  /** The largest height among the first `k` children of element `n`, 0 if none. */
  function HeightChildren(n: Node, k: nat): (h: nat)
    requires n.Element? && k <= |n.childNodes|
    decreases n, k
    ensures forall i :: 0 <= i < k ==> Height(n.childNodes[i]) <= h
  {
    if k == 0 then 0
    else
      var a, b := HeightChildren(n, k - 1), Height(n.childNodes[k - 1]);
      if a < b then b else a
  }

  /** No listener cancels or overrides anything, at any node. */
  ghost predicate NoListeners(env: Env) {
    forall p, m :: env.hook(p, m) == EventOutcome(false, NoOverride)
  }

  /**
   * With no listener, serializing a tree yields its reference markup and
   * fires the event once at each of its nodes in document order, provided
   * the fuel covers the tree's height.
   */
  lemma {:induction false} NoListenersIsPlain(env: Env, path: Path, n: Node, fuel: nat)
    requires NoListeners(env) && Height(n) <= fuel
    ensures Serialize(env, path, n, fuel) == Some(Run(Plain(env.escapeHTML, n), Preorder(path, n)))
    decreases n, 2
  {
    assert env.hook(path, n) == EventOutcome(false, NoOverride);
    RenderIsPlain(env, path, n, fuel - 1);
  }

  lemma {:induction false} RenderIsPlain(env: Env, path: Path, n: Node, fuel: nat)
    requires NoListeners(env) && Height(n) <= fuel + 1
    ensures Render(env, path, n, fuel) == Some(Run(Plain(env.escapeHTML, n), Preorder(path, n)[1..]))
    decreases n, 1
  {
    match n
    case Element(name, attrs, cs) =>
      ChildrenArePlain(env, path, n, |cs|, fuel);
    case Text(_) =>
    case Other =>
  }

  lemma {:induction false} ChildrenArePlain(env: Env, path: Path, n: Node, k: nat, fuel: nat)
    requires NoListeners(env) && n.Element? && k <= |n.childNodes|
    requires HeightChildren(n, k) <= fuel
    ensures SerializeChildren(env, path, n.childNodes, k, fuel)
      == Some(Run(PlainChildren(env.escapeHTML, n, k), PreorderChildren(path, n, k)))
    decreases n, 0, k
  {
    if k > 0 {
      ChildrenArePlain(env, path, n, k - 1, fuel);
      NoListenersIsPlain(env, path + [k - 1], n.childNodes[k - 1], fuel);
    }
  }

  /** No listener ever substitutes a node (cancels and value overrides are allowed). */
  ghost predicate NeverReplaces(env: Env) {
    forall p, m :: env.hook(p, m).cancelled || !env.hook(p, m).detail.NodeOverride?
  }

  /**
   * Unless a listener substitutes nodes, the recursion ends: fuel as large
   * as the tree's height always yields a result.
   */
  lemma {:induction false} NeverReplacesTerminates(env: Env, path: Path, n: Node, fuel: nat)
    requires NeverReplaces(env) && Height(n) <= fuel
    ensures Serialize(env, path, n, fuel).Some?
    decreases n, 2
  {
    var e := env.hook(path, n);
    if !e.cancelled && e.detail.NoOverride? {
      RenderTerminates(env, path, n, fuel - 1);
    }
  }

  lemma {:induction false} RenderTerminates(env: Env, path: Path, n: Node, fuel: nat)
    requires NeverReplaces(env) && Height(n) <= fuel + 1
    ensures Render(env, path, n, fuel).Some?
    decreases n, 1
  {
    if n.Element? {
      ChildrenTerminate(env, path, n, |n.childNodes|, fuel);
    }
  }

  lemma {:induction false} ChildrenTerminate(env: Env, path: Path, n: Node, k: nat, fuel: nat)
    requires NeverReplaces(env) && n.Element? && k <= |n.childNodes|
    requires HeightChildren(n, k) <= fuel
    ensures SerializeChildren(env, path, n.childNodes, k, fuel).Some?
    decreases n, 0, k
  {
    if k > 0 {
      ChildrenTerminate(env, path, n, k - 1, fuel);
      NeverReplacesTerminates(env, path + [k - 1], n.childNodes[k - 1], fuel);
    }
  }
}
