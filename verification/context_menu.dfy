/** The context-menu resolver: a WeakMap from DOM elements to menu lists, an
    upward walk (`bubble`) that finds the element whose menu applies, and the
    `set` / `restore` / `update` closures that rebind an element. */
module ContextMenu {
  import opened Wrappers
  import opened DomTree

  /** Opaque token standing in for an `action` callback. */
  type Action = nat

  /** One entry of a menu; every field is optional, and `items` nests a submenu. */
  datatype MenuItem = MenuItem(
    title: Option<string>,
    icon: Option<string>,
    shortcut: Option<string>,
    action: Option<Action>,
    disabled: Option<bool>,
    divider: Option<bool>,
    labelText: Option<string>,
    items: Option<seq<MenuItem>>,
    selected: Option<bool>,
    checked: Option<bool>)

  function LabelItem(text: string): MenuItem
  {
    MenuItem(None, None, None, None, None, None, Some(text), None, None, None)
  }

  function DividerItem(): MenuItem
  {
    MenuItem(None, None, None, None, None, Some(true), None, None, None, None)
  }

  function EntryItem(title: string, icon: string, shortcut: string): MenuItem
  {
    MenuItem(Some(title), Some(icon), Some(shortcut), None, None, None, None, None, None, None)
  }

  function SubmenuItem(title: string, icon: string, items: seq<MenuItem>): MenuItem
  {
    MenuItem(Some(title), Some(icon), None, None, None, None, None, Some(items), None, None)
  }

  /** The application's baseline menu, `defaultItems`. */
  function DefaultItems(): seq<MenuItem>
  {
    [ LabelItem("Main Menu"),
      DividerItem(),
      EntryItem("Open", "ph:folder-open", "⌘O"),
      EntryItem("Save", "ph:floppy-disk", "⌘S"),
      EntryItem("Export", "ph:export", "⇧⌘E"),
      DividerItem(),
      EntryItem("Edit", "ph:pencil", "⌘E"),
      SubmenuItem("Share", "ph:share-network",
        [ EntryItem("Email", "ph:envelope", "⌘M"),
          EntryItem("Slack", "logos:slack", "⌘L"),
          EntryItem("Copy Link", "ph:link", "⌘C") ]),
      DividerItem(),
      EntryItem("Preferences", "ph:gear", "⌘,"),
      EntryItem("Help", "ph:question", "F1"),
      DividerItem(),
      EntryItem("Log out", "ph:sign-out", "⇧⌘Q") ]
  }

  /** A WeakMap key: a DOM element, or the identity of an anonymous `{}`
      object literal. Two `{}` literals are never the same key. */
  datatype Key = Elem(node: Node) | Anon(id: nat)

  /** `menuMap`, with value semantics. `anons` counts the `{}` identities that
      have been used as keys so far; the next `{}` literal is `Anon(anons)`. */
  datatype Registry = Registry(entries: map<Key, seq<MenuItem>>, anons: nat)

  /** Every anonymous key in the map was allocated before the next fresh one. */
  predicate WellKeyed(reg: Registry)
  {
    forall k :: k in reg.entries && k.Anon? ==> k.id < reg.anons
  }

  /** The identity of a `{}` literal evaluated now. */
  function FreshKey(reg: Registry): (k: Key)
    ensures WellKeyed(reg) ==> k !in reg.entries
  {
    Anon(reg.anons)
  }

  /** `menuMap.get(key)`. */
  function Lookup(reg: Registry, k: Key): Option<seq<MenuItem>>
  {
    if k in reg.entries then Some(reg.entries[k]) else None
  }

  /** `b` differs from `a` in the entry for `k` alone, which now holds `v`. */
  predicate RebindsOnly(a: Registry, b: Registry, k: Key, v: seq<MenuItem>)
  {
    && k in b.entries && b.entries[k] == v
    && a.entries.Keys - {k} == b.entries.Keys - {k}
    && (forall k' :: k' != k && k' in a.entries ==> k' in b.entries && b.entries[k'] == a.entries[k'])
  }

  /** Module initialisation: the default list stored under an anonymous `{}`. */
  function Init(): (reg: Registry)
    ensures WellKeyed(reg)
    ensures forall n :: Elem(n) !in reg.entries
    ensures exists k :: k in reg.entries && k.Anon? && reg.entries[k] == DefaultItems()
  {
    assert Anon(0) in map[Anon(0) := DefaultItems()];
    Registry(map[Anon(0) := DefaultItems()], 1)
  }

  /** What `bubble` returns: an element, the `{}` sentinel, or `null`. */
  datatype Bubbled = Found(node: Node) | Sentinel | Suppressed

  /** The walk stops at `n`: it has a map entry and is not `document.body`. */
  predicate Claims(dom: Dom, reg: Registry, n: Node)
  {
    Elem(n) in reg.entries && n != dom.body
  }

  /** The walk moves on from `n` to its parent: `n` does not claim the walk and
      carries no `preventContextMenu` marker. */
  predicate PassesThrough(dom: Dom, reg: Registry, n: Node)
  {
    !Claims(dom, reg, n) && n !in dom.marked
  }

  /** The `while` loop of `bubble`, started at a non-null `current`. */
  function Walk(dom: Dom, reg: Registry, current: Node): (r: Bubbled)
    requires Valid(dom)
    ensures r.Found? ==> Claims(dom, reg, r.node) && r.node in Chain(dom, current)
    decreases Rank(dom, current)
  {
    if !Claims(dom, reg, current) then
      if current in dom.marked then Suppressed
      else
        match ParentElement(dom, current)
        case None => Sentinel
        case Some(p) => Walk(dom, reg, p)
    else
      Found(current)
  }

  /** `bubble(reference)`. */
  function Bubble(dom: Dom, reg: Registry, reference: Option<Node>): (r: Bubbled)
    requires Valid(dom)
    ensures reference.None? ==> r == Sentinel
    ensures reference.Some? && Claims(dom, reg, reference.value) ==> r == Found(reference.value)
    ensures reference.Some? && !Claims(dom, reg, reference.value) && reference.value in dom.marked ==>
              r == Suppressed
    ensures r.Found? ==>
              && reference.Some?
              && r.node in Chain(dom, reference.value)
              && Elem(r.node) in reg.entries
              && r.node != dom.body
  {
    match reference
    case None => Sentinel
    case Some(n) => Walk(dom, reg, n)
  }

  /** `getMenu(bubbled)`. A found element's list is an array and so truthy; the
      sentinel is looked up under itself and then under another `{}`, and
      neither key can be in the map, so the result is `undefined`. */
  function GetMenu(reg: Registry, b: Bubbled): (r: Option<seq<MenuItem>>)
    ensures b.Suppressed? ==> r == Some([])
    ensures b.Sentinel? && WellKeyed(reg) ==> r.None?
    ensures b.Found? && Elem(b.node) in reg.entries ==> r == Some(reg.entries[Elem(b.node)])
  {
    match b
    case Suppressed => Some([])
    case Found(n) =>
      if Elem(n) in reg.entries then Some(reg.entries[Elem(n)]) else Lookup(reg, FreshKey(reg))
    case Sentinel => Lookup(reg, FreshKey(reg))
  }

  /** What `useContextMenuNew(reference)` returns: the reference its closures
      capture and the menu resolved when it was called. */
  datatype Handle = Handle(reference: Option<Node>, menu: Option<seq<MenuItem>>)

  function UseContextMenu(dom: Dom, reg: Registry, reference: Option<Node>): (h: Handle)
    requires Valid(dom)
    ensures h.reference == reference
    ensures reference.None? && WellKeyed(reg) ==> h.menu.None?
    ensures reference.Some? && Claims(dom, reg, reference.value) ==>
              h.menu == Some(reg.entries[Elem(reference.value)])
  {
    Handle(reference, GetMenu(reg, Bubble(dom, reg, reference)))
  }

  /** Result of `set` and `restore`: the updated map and a fresh handle. */
  datatype Rebound = Rebound(reg: Registry, handle: Handle)

  /** The `set(items)` closure of the handle for `reference`. */
  function Set(dom: Dom, reg: Registry, reference: Option<Node>, items: seq<MenuItem>): (r: Rebound)
    requires Valid(dom)
    ensures reference.None? ==> r.reg == reg
    ensures reference.Some? ==> RebindsOnly(reg, r.reg, Elem(reference.value), items)
    ensures r.reg.anons == reg.anons
    ensures WellKeyed(reg) ==> WellKeyed(r.reg)
    ensures r.handle.reference == reference
    ensures reference.Some? && reference.value != dom.body ==> r.handle.menu == Some(items)
  {
    var reg' := if reference.Some? then reg.(entries := reg.entries[Elem(reference.value) := items]) else reg;
    Rebound(reg', UseContextMenu(dom, reg', reference))
  }

  /** The `restore()` closure: rebinds `reference` to a copy of the default list. */
  function Restore(dom: Dom, reg: Registry, reference: Option<Node>): (r: Rebound)
    requires Valid(dom)
    ensures reference.None? ==> r.reg == reg
    ensures reference.Some? ==> RebindsOnly(reg, r.reg, Elem(reference.value), DefaultItems())
    ensures r.reg.anons == reg.anons
    ensures WellKeyed(reg) ==> WellKeyed(r.reg)
    ensures r.handle.reference == reference
    ensures reference.Some? && reference.value != dom.body ==> r.handle.menu == Some(DefaultItems())
  {
    Set(dom, reg, reference, DefaultItems())
  }

  /** The `update(fn)` closure of handle `h`. `fn` receives the menu `h` resolved
      when it was created, which is `undefined` when that was the sentinel. A null
      reference stores the result under a new `{}` key. */
  function Update(reg: Registry, h: Handle, fn: Option<seq<MenuItem>> -> seq<MenuItem>): (r: Registry)
    ensures h.reference.Some? ==> RebindsOnly(reg, r, Elem(h.reference.value), fn(h.menu)) && r.anons == reg.anons
    ensures h.reference.None? ==> RebindsOnly(reg, r, FreshKey(reg), fn(h.menu)) && r.anons == reg.anons + 1
    ensures h.reference.None? && WellKeyed(reg) ==> FreshKey(reg) !in reg.entries
    ensures WellKeyed(reg) ==> WellKeyed(r)
  {
    match h.reference
    case Some(n) => reg.(entries := reg.entries[Elem(n) := fn(h.menu)])
    case None => Registry(reg.entries[FreshKey(reg) := fn(h.menu)], reg.anons + 1)
  }
}
