// The trees a blob stands for, their events in document order, and the edits
// of the tree that the library promises.
module FdtTree {
  import opened ByteStrings

  // A node keeps its properties and subnodes in one list, in document order:
  // the readers stop looking for properties at the first subnode.
  datatype Tree = Tree(name: bytes, items: seq<Item>)
  datatype Item = P(name: bytes, value: bytes) | N(sub: Tree)

  datatype Event = Open(name: bytes) | Attr(name: bytes, value: bytes) | Shut
  type events = seq<Event>

  function Events(t: Tree): events
    decreases t, 1
  {
    [Open(t.name)] + ItemEvents(t.items) + [Shut]
  }

  function ItemEvents(items: seq<Item>): events
    decreases items, 0
  {
    if items == [] then [] else OneEvents(items[0]) + ItemEvents(items[1..])
  }

  function OneEvents(i: Item): events
    decreases i, 2
  {
    match i
    case P(name, value) => [Attr(name, value)]
    case N(sub) => Events(sub)
  }

  lemma {:induction false} ItemEventsCat(a: seq<Item>, b: seq<Item>)
    ensures ItemEvents(a + b) == ItemEvents(a) + ItemEvents(b)
  {
    if a == [] {
      assert a + b == b;
    } else {
      assert (a + b)[1..] == a[1..] + b;
      ItemEventsCat(a[1..], b);
    }
  }

  lemma ItemEventsOne(i: Item)
    ensures ItemEvents([i]) == OneEvents(i)
  {
    assert [i][1..] == [];
  }

  // Nesting depth gained over a stretch of events.
  function Depth(evs: events): int {
    if evs == [] then 0
    else (match evs[0] case Open(_) => 1 case Attr(_, _) => 0 case Shut => -1) + Depth(evs[1..])
  }

  lemma {:induction false} DepthCat(a: events, b: events)
    ensures Depth(a + b) == Depth(a) + Depth(b)
  {
    if a == [] {
      assert a + b == b;
    } else {
      assert (a + b)[1..] == a[1..] + b;
      DepthCat(a[1..], b);
    }
  }

  // A node's events balance at its last event and nowhere before.
  lemma {:induction false} NodeDepth(t: Tree, k: nat)
    requires k <= |Events(t)|
    ensures k == |Events(t)| ==> Depth(Events(t)[..k]) == 0
    ensures 0 < k < |Events(t)| ==> Depth(Events(t)[..k]) > 0
    decreases t, 1
  {
    var inner := ItemEvents(t.items);
    if k == 0 {
    } else if k < |Events(t)| {
      assert Events(t)[..k] == [Open(t.name)] + inner[..k - 1];
      ItemsDepth(t.items, k - 1);
    } else {
      assert Events(t)[..k] == [Open(t.name)] + (inner + [Shut]);
      ItemsDepth(t.items, |inner|);
      assert inner[..|inner|] == inner;
      DepthCat(inner, [Shut]);
    }
  }

  lemma {:induction false} ItemsDepth(items: seq<Item>, k: nat)
    requires k <= |ItemEvents(items)|
    ensures Depth(ItemEvents(items)[..k]) >= 0
    ensures k == |ItemEvents(items)| ==> Depth(ItemEvents(items)[..k]) == 0
    decreases items, 0
  {
    if items != [] {
      var first, rest := OneEvents(items[0]), ItemEvents(items[1..]);
      if k <= |first| {
        assert ItemEvents(items)[..k] == first[..k];
        OneDepth(items[0], k);
        if k == |ItemEvents(items)| {
          assert rest == [];
          ItemsDepth(items[1..], 0);
        }
      } else {
        assert ItemEvents(items)[..k] == first + rest[..k - |first|];
        OneDepth(items[0], |first|);
        assert first[..|first|] == first;
        ItemsDepth(items[1..], k - |first|);
        DepthCat(first, rest[..k - |first|]);
      }
    }
  }

  lemma {:induction false} OneDepth(i: Item, k: nat)
    requires k <= |OneEvents(i)|
    ensures Depth(OneEvents(i)[..k]) >= 0
    ensures k == |OneEvents(i)| ==> Depth(OneEvents(i)[..k]) == 0
    decreases i, 2
  {
    match i
    case P(_, _) =>
    case N(sub) => NodeDepth(sub, k);
  }

  // The events determine the tree, even with more events behind them.
  lemma {:induction false} EventsInjective(t: Tree, u: Tree, r: events, q: events)
    requires Events(t) + r == Events(u) + q
    ensures t == u && r == q
    decreases t, 1
  {
    var (a, b) := (ItemEvents(t.items), ItemEvents(u.items));
    var whole := Events(t) + r;
    assert whole[0] == Open(t.name) && whole[0] == Open(u.name);
    assert whole[1..] == a + ([Shut] + r);
    assert whole[1..] == b + ([Shut] + q);
    ItemsInjective(t.items, u.items, r, q);
  }

  lemma {:induction false} ItemsInjective(a: seq<Item>, b: seq<Item>, r: events, q: events)
    requires ItemEvents(a) + ([Shut] + r) == ItemEvents(b) + ([Shut] + q)
    ensures a == b && r == q
    decreases a, 0
  {
    var whole := ItemEvents(a) + ([Shut] + r);
    if a == [] || b == [] {
      FirstOfItems(a, [Shut] + r);
      FirstOfItems(b, [Shut] + q);
      assert whole == [Shut] + r && whole == [Shut] + q;
      assert r == ([Shut] + r)[1..] && q == ([Shut] + q)[1..];
    } else {
      var (ra, rb) := (ItemEvents(a[1..]) + ([Shut] + r), ItemEvents(b[1..]) + ([Shut] + q));
      assert whole == OneEvents(a[0]) + ra;
      assert whole == OneEvents(b[0]) + rb;
      OneInjective(a[0], b[0], ra, rb);
      ItemsInjective(a[1..], b[1..], r, q);
      assert a == [a[0]] + a[1..] && b == [b[0]] + b[1..];
    }
  }

  lemma OneStarts(i: Item)
    ensures OneEvents(i) != [] && OneEvents(i)[0] != Shut
  {
    match i
    case P(_, _) =>
    case N(_) =>
  }

  lemma FirstOfItems(a: seq<Item>, r: events)
    requires r != [] && r[0] == Shut
    ensures (ItemEvents(a) + r)[0] == Shut <==> a == []
  {
    if a != [] {
      var first := OneEvents(a[0]);
      OneStarts(a[0]);
      assert (ItemEvents(a) + r)[0] == first[0];
    } else {
      assert ItemEvents(a) + r == r;
    }
  }

  lemma {:induction false} OneInjective(i: Item, j: Item, r: events, q: events)
    requires OneEvents(i) + r == OneEvents(j) + q
    ensures i == j && r == q
    decreases i, 2
  {
    var whole := OneEvents(i) + r;
    assert whole[0] == OneEvents(i)[0] && whole[0] == OneEvents(j)[0];
    if i.P? {
      assert r == whole[1..] && q == whole[1..];
    } else {
      EventsInjective(i.sub, j.sub, r, q);
    }
  }

  // A tree with a hole where one node goes, outermost node first.
  datatype Ctx = Hole | Under(name: bytes, before: seq<Item>, inner: Ctx, after: seq<Item>)

  function Plug(c: Ctx, t: Tree): Tree {
    match c
    case Hole => t
    case Under(name, before, inner, after) => Tree(name, before + [N(Plug(inner, t))] + after)
  }

  // The tree without the node; the root cannot be taken out of itself.
  function Cut(c: Ctx): Tree
    requires c.Under?
  {
    if c.inner.Hole? then Tree(c.name, c.before + c.after)
    else Tree(c.name, c.before + [N(Cut(c.inner))] + c.after)
  }

  function Pre(c: Ctx): events {
    match c
    case Hole => []
    case Under(name, before, inner, _) => [Open(name)] + ItemEvents(before) + Pre(inner)
  }

  function Post(c: Ctx): events {
    match c
    case Hole => []
    case Under(_, _, inner, after) => Post(inner) + ItemEvents(after) + [Shut]
  }

  lemma ItemEventsAround(before: seq<Item>, i: Item, after: seq<Item>)
    ensures ItemEvents(before + [i] + after) == ItemEvents(before) + OneEvents(i) + ItemEvents(after)
  {
    ItemEventsCat(before + [i], after);
    ItemEventsCat(before, [i]);
    ItemEventsOne(i);
  }

  lemma {:induction false} EventsPlug(c: Ctx, t: Tree)
    ensures Events(Plug(c, t)) == Pre(c) + Events(t) + Post(c)
  {
    match c
    case Hole =>
    case Under(name, before, inner, after) =>
      EventsPlug(inner, t);
      EventsUnder(name, before, Plug(inner, t), after);
      Regroup([Open(name)] + ItemEvents(before), Pre(inner), Events(t), Post(inner), ItemEvents(after) + [Shut]);
  }

  lemma EventsUnder(name: bytes, before: seq<Item>, sub: Tree, after: seq<Item>)
    ensures Events(Tree(name, before + [N(sub)] + after))
            == ([Open(name)] + ItemEvents(before)) + Events(sub) + (ItemEvents(after) + [Shut])
  {
    hide ItemEvents;
    ItemEventsAround(before, N(sub), after);
  }

  lemma Regroup(a: events, b: events, c: events, d: events, e: events)
    ensures a + (b + c + d) + e == (a + b) + c + (d + e)
  {
  }

  lemma {:induction false} EventsCut(c: Ctx)
    requires c.Under?
    ensures Events(Cut(c)) == Pre(c) + Post(c)
  {
    if c.inner.Hole? {
      ItemEventsCat(c.before, c.after);
      assert Pre(c.inner) == [] && Post(c.inner) == [];
    } else {
      EventsCut(c.inner);
      ItemEventsAround(c.before, N(Cut(c.inner)), c.after);
    }
  }

  // Every Open event of a tree belongs to exactly one node of it.
  lemma {:induction false} Locate(t: Tree, k: nat) returns (c: Ctx, n: Tree)
    requires k < |Events(t)| && Events(t)[k].Open?
    ensures Plug(c, n) == t && Pre(c) == Events(t)[..k]
    decreases t, 1
  {
    if k == 0 {
      c, n := Hole, t;
    } else {
      var inner := ItemEvents(t.items);
      assert k - 1 < |inner| && inner[k - 1] == Events(t)[k];
      var before, i, after := LocateItem(t.items, k - 1);
      n := i.1;
      c := Under(t.name, before, i.0, after);
      assert Events(t)[..k] == [Open(t.name)] + inner[..k - 1];
      assert t == Tree(t.name, t.items);
    }
  }

  lemma {:induction false} LocateItem(items: seq<Item>, k: nat)
    returns (before: seq<Item>, at: (Ctx, Tree), after: seq<Item>)
    requires k < |ItemEvents(items)| && ItemEvents(items)[k].Open?
    ensures items == before + [N(Plug(at.0, at.1))] + after
    ensures ItemEvents(items)[..k] == ItemEvents(before) + Pre(at.0)
    decreases items, 0
  {
    var first := OneEvents(items[0]);
    if k < |first| {
      assert first[k] == ItemEvents(items)[k];
      var c, n := LocateOne(items[0], k);
      before, at, after := [], (c, n), items[1..];
      assert ItemEvents(items)[..k] == first[..k];
    } else {
      var rest := ItemEvents(items[1..]);
      assert rest[k - |first|] == ItemEvents(items)[k];
      var tail;
      tail, at, after := LocateItem(items[1..], k - |first|);
      before := [items[0]] + tail;
      assert before[1..] == tail;
      assert ItemEvents(items)[..k] == first + rest[..k - |first|];
      assert ItemEvents(before) == first + ItemEvents(tail);
    }
  }

  lemma {:induction false} LocateOne(i: Item, k: nat) returns (c: Ctx, n: Tree)
    requires k < |OneEvents(i)| && OneEvents(i)[k].Open?
    ensures i == N(Plug(c, n)) && Pre(c) == OneEvents(i)[..k]
    decreases i, 2
  {
    match i
    case N(sub) => c, n := Locate(sub, k);
  }

  // The first property of that name among those before the first subnode.
  function FindProp(items: seq<Item>, name: bytes): (r: Option<nat>)
    ensures r.Some? ==> r.value < |items| && items[r.value].P? && items[r.value].name == name
                        && forall i :: 0 <= i < r.value ==> items[i].P? && items[i].name != name
  {
    if items == [] || items[0].N? then None
    else if items[0].name == name then Some(0)
    else
      match FindProp(items[1..], name)
      case None => None
      case Some(k) => Some(k + 1)
  }

  function Lookup(t: Tree, name: bytes): Option<bytes> {
    match FindProp(t.items, name)
    case None => None
    case Some(k) => Some(t.items[k].value)
  }

  function WithProp(t: Tree, name: bytes, value: bytes): Tree {
    match FindProp(t.items, name)
    case None => Tree(t.name, [P(name, value)] + t.items)
    case Some(k) => Tree(t.name, t.items[k := P(name, value)])
  }

  function WithoutProp(t: Tree, name: bytes): Tree
    requires FindProp(t.items, name).Some?
  {
    var k := FindProp(t.items, name).value;
    Tree(t.name, t.items[..k] + t.items[k + 1..])
  }

  // FindProp is the first match, and None means there is none to find.
  lemma {:induction false} FindPropFirst(items: seq<Item>, name: bytes, k: nat)
    requires k < |items| && items[k].P? && items[k].name == name
    requires forall i :: 0 <= i < k ==> items[i].P? && items[i].name != name
    ensures FindProp(items, name) == Some(k)
  {
    if k > 0 {
      FindPropFirst(items[1..], name, k - 1);
    }
  }

  lemma {:induction false} FindPropNone(items: seq<Item>, name: bytes, k: nat)
    requires k <= |items| && (k < |items| ==> items[k].N?)
    requires forall i :: 0 <= i < k ==> items[i].P? && items[i].name != name
    ensures FindProp(items, name) == None
  {
    if k > 0 {
      FindPropNone(items[1..], name, k - 1);
    }
  }

  // What a setprop is for: the property reads back, every other one is as it was.
  lemma WithPropReads(t: Tree, name: bytes, value: bytes, other: bytes)
    ensures Lookup(WithProp(t, name, value), name) == Some(value)
    ensures other != name ==> Lookup(WithProp(t, name, value), other) == Lookup(t, other)
  {
    match FindProp(t.items, name)
    case None =>
      assert ([P(name, value)] + t.items)[1..] == t.items;
    case Some(k) =>
      FindPropFirst(t.items[k := P(name, value)], name, k);
      if other != name {
        FindPropSkips(t.items, name, value, other, k);
      }
  }

  lemma {:induction false} FindPropSkips(items: seq<Item>, name: bytes, value: bytes, other: bytes, k: nat)
    requires k < |items| && items[k].P? && items[k].name == name != other
    ensures FindProp(items[k := P(name, value)], other) == FindProp(items, other)
    ensures FindProp(items, other) != Some(k)
  {
    if k > 0 {
      assert items[k := P(name, value)][1..] == items[1..][k - 1 := P(name, value)];
      FindPropSkips(items[1..], name, value, other, k - 1);
    } else {
      assert items[k := P(name, value)][1..] == items[1..];
    }
  }

  lemma WithPropTwice(t: Tree, name: bytes, v: bytes, w: bytes)
    ensures WithProp(WithProp(t, name, v), name, w) == WithProp(t, name, w)
  {
    match FindProp(t.items, name)
    case None =>
      assert ([P(name, v)] + t.items)[0 := P(name, w)] == [P(name, w)] + t.items;
    case Some(k) =>
      FindPropFirst(t.items[k := P(name, v)], name, k);
      assert t.items[k := P(name, v)][k := P(name, w)] == t.items[k := P(name, w)];
  }
}
