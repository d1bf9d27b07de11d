/** Properties of the context-menu resolver: the walk is a scan of the ancestor
    chain, anonymous `{}` keys are never reached, and rebinding an element is
    seen by that element and by the unbound descendants that inherit from it. */
module ContextMenuProps {
  import opened Wrappers
  import opened DomTree
  import opened ContextMenu

  /** Index of the first node of `ch` the walk does not pass through, or `|ch|`. */
  function FirstStop(dom: Dom, reg: Registry, ch: seq<Node>): (k: nat)
    ensures k <= |ch|
    ensures forall j :: 0 <= j < k ==> PassesThrough(dom, reg, ch[j])
    ensures k < |ch| ==> !PassesThrough(dom, reg, ch[k])
  {
    if |ch| == 0 then 0
    else if PassesThrough(dom, reg, ch[0]) then 1 + FirstStop(dom, reg, ch[1..])
    else 0
  }

  /** Reference resolution: scan the whole ancestor-or-self chain as a list. */
  function ScanChain(dom: Dom, reg: Registry, ch: seq<Node>): Bubbled
  {
    var k := FirstStop(dom, reg, ch);
    if k == |ch| then Sentinel
    else if Claims(dom, reg, ch[k]) then Found(ch[k])
    else Suppressed
  }

  /** The first index satisfying the stop condition is the one `FirstStop` finds. */
  lemma FirstStopUnique(dom: Dom, reg: Registry, ch: seq<Node>, k: nat)
    requires k <= |ch|
    requires forall j :: 0 <= j < k ==> PassesThrough(dom, reg, ch[j])
    requires k < |ch| ==> !PassesThrough(dom, reg, ch[k])
    ensures FirstStop(dom, reg, ch) == k
  {
  }

  /** The recursive walk agrees with the scan of the chain it climbs. */
  lemma {:induction false} WalkIsChainScan(dom: Dom, reg: Registry, n: Node)
    requires Valid(dom)
    ensures Walk(dom, reg, n) == ScanChain(dom, reg, Chain(dom, n))
    decreases Rank(dom, n)
  {
    var ch := Chain(dom, n);
    if PassesThrough(dom, reg, n) {
      match ParentElement(dom, n)
      case None =>
        assert ch == [n];
      case Some(p) =>
        WalkIsChainScan(dom, reg, p);
        assert ch[1..] == Chain(dom, p);
    }
  }

  lemma ScanFoundIff(dom: Dom, reg: Registry, ch: seq<Node>, m: Node)
    ensures ScanChain(dom, reg, ch) == Found(m) <==>
              exists k :: 0 <= k < |ch| && ch[k] == m && Claims(dom, reg, m) &&
                          forall j :: 0 <= j < k ==> PassesThrough(dom, reg, ch[j])
  {
    if exists k :: 0 <= k < |ch| && ch[k] == m && Claims(dom, reg, m) &&
                   forall j :: 0 <= j < k ==> PassesThrough(dom, reg, ch[j]) {
      var k :| 0 <= k < |ch| && ch[k] == m && Claims(dom, reg, m) &&
               forall j :: 0 <= j < k ==> PassesThrough(dom, reg, ch[j]);
      FirstStopUnique(dom, reg, ch, k);
    }
  }

  lemma ScanSuppressedIff(dom: Dom, reg: Registry, ch: seq<Node>)
    ensures ScanChain(dom, reg, ch) == Suppressed <==>
              exists k :: 0 <= k < |ch| && ch[k] in dom.marked && !Claims(dom, reg, ch[k]) &&
                          forall j :: 0 <= j < k ==> PassesThrough(dom, reg, ch[j])
  {
    if exists k :: 0 <= k < |ch| && ch[k] in dom.marked && !Claims(dom, reg, ch[k]) &&
                   forall j :: 0 <= j < k ==> PassesThrough(dom, reg, ch[j]) {
      var k :| 0 <= k < |ch| && ch[k] in dom.marked && !Claims(dom, reg, ch[k]) &&
               forall j :: 0 <= j < k ==> PassesThrough(dom, reg, ch[j]);
      FirstStopUnique(dom, reg, ch, k);
    }
  }

  lemma ScanSentinelIff(dom: Dom, reg: Registry, ch: seq<Node>)
    ensures ScanChain(dom, reg, ch) == Sentinel <==>
              forall j :: 0 <= j < |ch| ==> PassesThrough(dom, reg, ch[j])
  {
    if forall j :: 0 <= j < |ch| ==> PassesThrough(dom, reg, ch[j]) {
      FirstStopUnique(dom, reg, ch, |ch|);
    }
  }

  /** `bubble` returns element `m` exactly when `m` is the first node of the
      reference's ancestor-or-self chain that has an entry and is not
      `document.body`, and every node before it was unbound (or body) and
      unmarked. */
  lemma BubbleFoundIff(dom: Dom, reg: Registry, n: Node, m: Node)
    requires Valid(dom)
    ensures var ch := Chain(dom, n);
            Bubble(dom, reg, Some(n)) == Found(m) <==>
              exists k :: 0 <= k < |ch| && ch[k] == m && Claims(dom, reg, m) &&
                          forall j :: 0 <= j < k ==> PassesThrough(dom, reg, ch[j])
  {
    WalkIsChainScan(dom, reg, n);
    ScanFoundIff(dom, reg, Chain(dom, n), m);
  }

  /** `bubble` returns `null` exactly when, before any node claims the walk, it
      visits a node carrying the `preventContextMenu` marker. */
  lemma BubbleSuppressedIff(dom: Dom, reg: Registry, n: Node)
    requires Valid(dom)
    ensures var ch := Chain(dom, n);
            Bubble(dom, reg, Some(n)) == Suppressed <==>
              exists k :: 0 <= k < |ch| && ch[k] in dom.marked && !Claims(dom, reg, ch[k]) &&
                          forall j :: 0 <= j < k ==> PassesThrough(dom, reg, ch[j])
  {
    WalkIsChainScan(dom, reg, n);
    ScanSuppressedIff(dom, reg, Chain(dom, n));
  }

  /** `bubble` runs off the top of the chain, returning the `{}` sentinel,
      exactly when it passes through every ancestor-or-self of the reference. */
  lemma BubbleSentinelIff(dom: Dom, reg: Registry, n: Node)
    requires Valid(dom)
    ensures var ch := Chain(dom, n);
            Bubble(dom, reg, Some(n)) == Sentinel <==>
              forall j :: 0 <= j < |ch| ==> PassesThrough(dom, reg, ch[j])
  {
    WalkIsChainScan(dom, reg, n);
    ScanSentinelIff(dom, reg, Chain(dom, n));
  }

  /** `document.body` is walked past even when it has its own entry: resolving
      it is resolving its parent, unless it is marked. */
  lemma BodyIsWalkedPast(dom: Dom, reg: Registry)
    requires Valid(dom)
    requires dom.body !in dom.marked
    ensures Bubble(dom, reg, Some(dom.body)) == Bubble(dom, reg, ParentElement(dom, dom.body))
  {
  }

  /** The two maps agree on every element key (they may differ on `{}` keys). */
  ghost predicate SameElementEntries(a: Registry, b: Registry)
  {
    forall n :: Lookup(a, Elem(n)) == Lookup(b, Elem(n))
  }

  lemma {:induction false} WalkIgnoresAnonKeys(dom: Dom, a: Registry, b: Registry, n: Node)
    requires Valid(dom)
    requires SameElementEntries(a, b)
    ensures Walk(dom, a, n) == Walk(dom, b, n)
    decreases Rank(dom, n)
  {
    assert Lookup(a, Elem(n)) == Lookup(b, Elem(n));
    match ParentElement(dom, n)
    case None =>
    case Some(p) =>
      WalkIgnoresAnonKeys(dom, a, b, p);
  }

  /** No resolution ever reads an entry stored under a `{}` key. */
  lemma MenuIgnoresAnonKeys(dom: Dom, a: Registry, b: Registry, reference: Option<Node>)
    requires Valid(dom)
    requires WellKeyed(a) && WellKeyed(b)
    requires SameElementEntries(a, b)
    ensures UseContextMenu(dom, a, reference) == UseContextMenu(dom, b, reference)
  {
    if reference.Some? {
      WalkIgnoresAnonKeys(dom, a, b, reference.value);
      var r := Bubble(dom, a, reference);
      if r.Found? {
        assert Lookup(a, Elem(r.node)) == Lookup(b, Elem(r.node));
      }
    }
  }

  /** `update` through a handle with a null reference stores its result where no
      later resolution, of any reference, can see it. */
  lemma NullUpdateIsInvisible(dom: Dom, reg: Registry, h: Handle,
                              fn: Option<seq<MenuItem>> -> seq<MenuItem>, reference: Option<Node>)
    requires Valid(dom)
    requires WellKeyed(reg)
    requires h.reference.None?
    ensures UseContextMenu(dom, Update(reg, h, fn), reference) == UseContextMenu(dom, reg, reference)
  {
    var reg' := Update(reg, h, fn);
    forall n
      ensures Lookup(reg, Elem(n)) == Lookup(reg', Elem(n))
    {
      assert Elem(n) != FreshKey(reg);
    }
    MenuIgnoresAnonKeys(dom, reg, reg', reference);
  }

  /** The default list stored at module initialisation is never shown: before
      any element is bound, every reference resolves to `undefined` or to the
      empty list. */
  lemma DefaultListUnreachable(dom: Dom, reference: Option<Node>)
    requires Valid(dom)
    ensures var m := UseContextMenu(dom, Init(), reference).menu;
            (m.None? || m == Some([])) && m != Some(DefaultItems())
  {
  }

  /** After `set(items)` on a non-body element `c`, a child `d` with no entry of
      its own (or that is the body) and no marker inherits `items`. */
  lemma SetIsInherited(dom: Dom, reg: Registry, c: Node, d: Node, items: seq<MenuItem>)
    requires Valid(dom)
    requires ParentElement(dom, d) == Some(c)
    requires c != dom.body
    requires !Claims(dom, reg, d) && d !in dom.marked
    ensures UseContextMenu(dom, Set(dom, reg, Some(c), items).reg, Some(d)).menu == Some(items)
  {
    assert d != c;
  }

  /** `update(fn)` on a non-body element stores `fn` applied to the menu the
      handle resolved when it was created, and resolving the element then
      yields exactly that list. */
  lemma UpdateThenResolve(dom: Dom, reg: Registry, h: Handle,
                          fn: Option<seq<MenuItem>> -> seq<MenuItem>)
    requires Valid(dom)
    requires h.reference.Some? && h.reference.value != dom.body
    ensures UseContextMenu(dom, Update(reg, h, fn), h.reference).menu == Some(fn(h.menu))
  {
  }

  /** A marked, unbound parent hides the menu of an unbound child (marked or
      not), whatever the parent's own ancestors are bound to. */
  lemma MarkedParentSuppresses(dom: Dom, reg: Registry, c: Node, d: Node)
    requires Valid(dom)
    requires ParentElement(dom, d) == Some(c)
    requires !Claims(dom, reg, d)
    requires !Claims(dom, reg, c) && c in dom.marked
    ensures UseContextMenu(dom, reg, Some(d)).menu == Some([])
  {
    assert Walk(dom, reg, d) == Walk(dom, reg, c);
  }
}
