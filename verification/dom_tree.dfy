/** The part of the DOM that the context-menu resolver consults: a node's
    `parentElement`, the distinguished `document.body`, and which nodes carry a
    `data-prevent-context-menu` attribute. */
module DomTree {
  import opened Wrappers

  /** Identity of a DOM element. */
  type Node = nat

  /** `parent` is partial: a node outside its domain has `parentElement === null`.
      `depth` ranks nodes so that a parent always ranks strictly below its
      child; it witnesses that every parent chain is finite and acyclic.
      `marked` holds the nodes whose `dataset.preventContextMenu` is defined. */
  datatype Dom = Dom(parent: map<Node, Node>, depth: map<Node, nat>, body: Node, marked: set<Node>)

  /** The parent relation is acyclic, as `depth` shows. */
  predicate Valid(dom: Dom)
  {
    forall n :: n in dom.parent ==>
      && n in dom.depth
      && dom.parent[n] in dom.depth
      && dom.depth[dom.parent[n]] < dom.depth[n]
  }

  function ParentElement(dom: Dom, n: Node): Option<Node>
  {
    if n in dom.parent then Some(dom.parent[n]) else None
  }

  /** Termination measure of an upward walk: zero at a root. */
  function Rank(dom: Dom, n: Node): nat
    requires Valid(dom)
  {
    if n in dom.parent then dom.depth[n] else 0
  }

  /** The ancestor-or-self chain of `n`: `n`, its `parentElement`, that node's
      `parentElement`, ..., up to the node whose `parentElement` is null. */
  function Chain(dom: Dom, n: Node): (ch: seq<Node>)
    requires Valid(dom)
    ensures |ch| >= 1 && ch[0] == n
    ensures forall i :: 0 <= i < |ch| - 1 ==> ParentElement(dom, ch[i]) == Some(ch[i + 1])
    ensures ParentElement(dom, ch[|ch| - 1]) == None
    ensures |ch| <= Rank(dom, n) + 1
    decreases Rank(dom, n)
  {
    match ParentElement(dom, n)
    case None => [n]
    case Some(p) => [n] + Chain(dom, p)
  }
}
