// From chunk positions to tree positions: what a scan over the chunks of a
// node says about the node.
module FdtNode {
  import opened ByteStrings
  import opened FdtFormat
  import opened FdtTree
  import opened FdtBlob

  // Events that are all properties, at the start of a node, are its first items.
  lemma {:induction false} LeadingProps(items: seq<Item>, rest: events, evs: events, more: events)
    requires ItemEvents(items) + ([Shut] + rest) == evs + more
    requires forall x :: 0 <= x < |evs| ==> evs[x].Attr?
    ensures |evs| <= |items|
    ensures forall x :: 0 <= x < |evs| ==> items[x] == P(evs[x].name, evs[x].value)
    ensures ItemEvents(items[..|evs|]) == evs
    ensures ItemEvents(items[|evs|..]) + ([Shut] + rest) == more
  {
    if evs == [] {
      assert evs + more == more && items[0..] == items;
    } else {
      var whole := evs + more;
      assert whole[0] == evs[0];
      FirstOfItems(items, [Shut] + rest);
      FirstIsProp(items, [Shut] + rest);
      assert whole[1..] == ItemEvents(items[1..]) + ([Shut] + rest);
      assert whole[1..] == evs[1..] + more;
      LeadingProps(items[1..], rest, evs[1..], more);
      var n := |evs|;
      assert items[..n] == [items[0]] + items[1..][..n - 1];
      ItemEventsCat([items[0]], items[1..][..n - 1]);
      ItemEventsOne(items[0]);
      assert items[1..][n - 1..] == items[n..];
      assert evs == [evs[0]] + evs[1..];
      forall x | 0 <= x < n ensures items[x] == P(evs[x].name, evs[x].value) {
        if x > 0 {
          assert items[x] == items[1..][x - 1] && evs[x] == evs[1..][x - 1];
        }
      }
    }
  }

  lemma FirstIsProp(items: seq<Item>, r: events)
    requires items != []
    ensures ItemEvents(items) != []
    ensures var first := (ItemEvents(items) + r)[0];
            match items[0]
            case P(name, value) => first == Attr(name, value)
            case N(sub) => first == Open(sub.name)
    ensures items[0].P? ==> (ItemEvents(items) + r)[1..] == ItemEvents(items[1..]) + r
  {
    assert ItemEvents(items) == OneEvents(items[0]) + ItemEvents(items[1..]);
    match items[0]
    case P(_, _) =>
    case N(_) =>
  }

  // Chunks strictly between i and k are NOPs and properties of other names.
  ghost predicate OtherProps(cs: chunks, strs: bytes, name: bytes, i: nat, k: nat) {
    && i < k <= |cs|
    && forall x :: i < x < k ==> IsOther(cs[x], strs, name)
  }

  predicate IsOther(c: bytes, strs: bytes, name: bytes) {
    match TokenOf(c)
    case Some(Nop) => true
    case Some(Prop(o, _)) => NameAt(strs, o) != name
    case _ => false
  }

  // Events of properties of other names.
  predicate OtherAttrs(evs: events, name: bytes) {
    forall x :: 0 <= x < |evs| ==> evs[x].Attr? && evs[x].name != name
  }

  lemma OtherEvent(c: bytes, strs: bytes, name: bytes)
    requires IsOther(c, strs, name)
    ensures OtherAttrs(ChunkEvents(c, strs), name)
  {
    hide TokenOf, NameAt;
  }

  lemma OtherAttrsCat(a: events, b: events, name: bytes)
    requires OtherAttrs(a, name) && OtherAttrs(b, name)
    ensures OtherAttrs(a + b, name)
  {
  }

  lemma {:induction false} OtherEvents(cs: chunks, strs: bytes, name: bytes, i: nat, k: nat)
    requires OtherProps(cs, strs, name, i, k)
    ensures OtherAttrs(EventsOf(cs[i + 1..k], strs), name)
    decreases k
  {
    hide IsOther, EventsOf, ChunkEvents, OtherAttrs;
    if k == i + 1 {
      EventsOfNone(cs[i + 1..k], strs);
      NoAttrs(name);
    } else {
      OtherEvents(cs, strs, name, i, k - 1);
      OtherEvent(cs[k - 1], strs, name);
      assert cs[i + 1..k] == cs[i + 1..k - 1] + [cs[k - 1]];
      EventsOfCat(cs[i + 1..k - 1], [cs[k - 1]], strs);
      EventsOfOne(cs[k - 1], strs);
      OtherAttrsCat(EventsOf(cs[i + 1..k - 1], strs), ChunkEvents(cs[k - 1], strs), name);
    }
  }

  lemma NoAttrs(name: bytes)
    ensures OtherAttrs([], name)
  {
  }

  // The events from a node's chunk on are the node's, then what follows it.
  lemma NodeEvents(cs: chunks, strs: bytes, i: nat, c: Ctx, n: Tree)
    requires NodeChunk(cs, strs, i, c)
    requires EventsOf(cs, strs) == Events(Plug(c, n))
    ensures EventsOf(cs[i..], strs) == Events(n) + Post(c)
    ensures ChunkEvents(cs[i], strs) == [Open(n.name)]
    ensures EventsOf(cs[i + 1..], strs) == ItemEvents(n.items) + ([Shut] + Post(c))
  {
    hide TokenOf, EventsOf, ItemEvents, Pre, Post, Plug;
    EventsPlug(c, n);
    EventsOfSplit(cs, i, strs);
    Cat3(Pre(c), Events(n), Post(c));
    CancelLeft(Pre(c), EventsOf(cs[i..], strs), Events(n) + Post(c));
    EventsOfNext(cs, i, strs);
    NodeOpens(n, Post(c));
    var first := ChunkEvents(cs[i], strs);
    assert first == [(first + EventsOf(cs[i + 1..], strs))[0]];
    CancelLeft(first, EventsOf(cs[i + 1..], strs), ItemEvents(n.items) + ([Shut] + Post(c)));
  }

  lemma NodeOpens(n: Tree, rest: events)
    ensures Events(n) + rest == [Open(n.name)] + (ItemEvents(n.items) + ([Shut] + rest))
    ensures (Events(n) + rest)[0] == Open(n.name)
  {
    hide ItemEvents;
  }

  // After a scan over other properties: m items are passed, and here is what
  // chunk k, the first one not passed, can be.
  lemma Scanned(cs: chunks, strs: bytes, name: bytes, i: nat, k: nat, c: Ctx, n: Tree) returns (m: nat)
    requires NodeChunk(cs, strs, i, c)
    requires EventsOf(cs, strs) == Events(Plug(c, n))
    requires OtherProps(cs, strs, name, i, k)
    ensures m <= |n.items| && forall x :: 0 <= x < m ==> n.items[x].P? && n.items[x].name != name
    ensures EventsOf(cs[..k], strs) == Pre(c) + [Open(n.name)] + ItemEvents(n.items[..m])
    ensures EventsOf(cs[k..], strs) == ItemEvents(n.items[m..]) + ([Shut] + Post(c))
    ensures k < |cs|
  {
    hide TokenOf, EventsOf, ItemEvents, Pre, Post, Plug, OneEvents;
    NodeEvents(cs, strs, i, c, n);
    OtherEvents(cs, strs, name, i, k);
    var evs := EventsOf(cs[i + 1..k], strs);
    var more := EventsOf(cs[k..], strs);
    assert cs[i + 1..] == cs[i + 1..k] + cs[k..];
    EventsOfCat(cs[i + 1..k], cs[k..], strs);
    LeadingProps(n.items, Post(c), evs, more);
    m := |evs|;
    EventsOfNext(cs, i, strs);
    assert cs[..k] == cs[..i + 1] + cs[i + 1..k];
    EventsOfCat(cs[..i + 1], cs[i + 1..k], strs);
    if k == |cs| {
      EventsOfNone(cs[k..], strs);
    }
  }

  lemma EventsOfNone(cs: chunks, strs: bytes)
    requires cs == []
    ensures EventsOf(cs, strs) == []
  {
  }

  ghost predicate PropChunk(cs: chunks, strs: bytes, name: bytes, i: nat, k: nat) {
    && OtherProps(cs, strs, name, i, k) && k < |cs|
    && TokenOf(cs[k]).Some? && TokenOf(cs[k]).value.Prop?
    && NameAt(strs, TokenOf(cs[k]).value.nameoff) == name
  }

  // The property found by the scan is the first of its name, and editing that
  // chunk edits that item.
  lemma FoundProp(cs: chunks, strs: bytes, name: bytes, i: nat, k: nat, c: Ctx, n: Tree)
    requires NodeChunk(cs, strs, i, c)
    requires EventsOf(cs, strs) == Events(Plug(c, n))
    requires PropChunk(cs, strs, name, i, k)
    ensures FindProp(n.items, name).Some? && Lookup(n, name) == Some(TokenOf(cs[k]).value.value)
    ensures forall v {:trigger WithProp(n, name, v)} ::
              EventsOf(cs[..k], strs) + [Attr(name, v)] + EventsOf(cs[k + 1..], strs)
              == Events(Plug(c, WithProp(n, name, v)))
    ensures EventsOf(cs[..k], strs) + EventsOf(cs[k + 1..], strs)
            == Events(Plug(c, WithoutProp(n, name)))
  {
    hide TokenOf, EventsOf, ItemEvents, Pre, Post, Plug, OneEvents;
    var m := Scanned(cs, strs, name, i, k, c, n);
    var value := TokenOf(cs[k]).value.value;
    var (front, tail) := (n.items[..m], n.items[m..]);
    EventsOfNext(cs, k, strs);
    var rest := ChunkEvents(cs[k], strs) + EventsOf(cs[k + 1..], strs);
    assert rest[0] == Attr(name, value);
    FirstOfItems(tail, [Shut] + Post(c));
    FirstIsProp(tail, [Shut] + Post(c));
    assert n.items[m] == tail[0] == P(name, value);
    FindPropFirst(n.items, name, m);
    var back := n.items[m + 1..];
    assert tail[1..] == back;
    assert rest[1..] == EventsOf(cs[k + 1..], strs) == ItemEvents(back) + ([Shut] + Post(c));
    forall v ensures EventsOf(cs[..k], strs) + [Attr(name, v)] + EventsOf(cs[k + 1..], strs)
                     == Events(Plug(c, WithProp(n, name, v))) {
      ReplacedEvents(c, n, name, m, v);
    }
    EventsOfItems(c, n.name, front, [], back);
    assert front + [] + back == front + back;
    NoItemEvents();
    assert EventsOf(cs[..k], strs) + [] == EventsOf(cs[..k], strs);
  }

  lemma ReplacedEvents(c: Ctx, n: Tree, name: bytes, m: nat, v: bytes)
    requires FindProp(n.items, name) == Some(m) && m < |n.items|
    ensures Events(Plug(c, WithProp(n, name, v)))
            == Pre(c) + [Open(n.name)] + ItemEvents(n.items[..m]) + [Attr(name, v)]
               + (ItemEvents(n.items[m + 1..]) + ([Shut] + Post(c)))
  {
    hide ItemEvents, Pre, Post, Plug, OneEvents, Events;
    EventsOfItems(c, n.name, n.items[..m], [P(name, v)], n.items[m + 1..]);
    PropEvents(name, v);
    assert n.items[..m] + [P(name, v)] + n.items[m + 1..] == n.items[m := P(name, v)];
  }

  lemma PropEvents(name: bytes, value: bytes)
    ensures ItemEvents([P(name, value)]) == [Attr(name, value)]
  {
    ItemEventsOne(P(name, value));
  }

  lemma NoItemEvents()
    ensures ItemEvents([]) == []
  {
  }

  // Events of a tree whose node at the hole has the items front, mid, back.
  lemma EventsOfItems(c: Ctx, name: bytes, front: seq<Item>, mid: seq<Item>, back: seq<Item>)
    ensures Events(Plug(c, Tree(name, front + mid + back)))
            == Pre(c) + [Open(name)] + ItemEvents(front) + ItemEvents(mid)
               + (ItemEvents(back) + ([Shut] + Post(c)))
  {
    hide ItemEvents, Pre, Post, Plug;
    var n := Tree(name, front + mid + back);
    EventsPlug(c, n);
    NodeOpens(n, Post(c));
    ItemEventsCat(front + mid, back);
    ItemEventsCat(front, mid);
    var (a, f, m, b, z) := (Pre(c), ItemEvents(front), ItemEvents(mid), ItemEvents(back), [Shut] + Post(c));
    var o := [Open(name)];
    Cat3(a, Events(n), Post(c));
    assert Events(Plug(c, n)) == a + (o + (f + m + b + z));
    assert a + (o + (f + m + b + z)) == a + o + f + m + (b + z);
  }

  // The scan stopped at a subnode or at the node's end: no such property, and
  // a property chunk put right after the node's tag becomes the first item.
  lemma MissingProp(cs: chunks, strs: bytes, name: bytes, i: nat, k: nat, c: Ctx, n: Tree)
    requires NodeChunk(cs, strs, i, c)
    requires EventsOf(cs, strs) == Events(Plug(c, n))
    requires OtherProps(cs, strs, name, i, k)
    requires k < |cs| ==> TokenOf(cs[k]).Some? && (TokenOf(cs[k]).value.Begin? || TokenOf(cs[k]).value.Close?)
    ensures FindProp(n.items, name) == None
    ensures forall v {:trigger WithProp(n, name, v)} ::
              EventsOf(cs[..i + 1], strs) + [Attr(name, v)] + EventsOf(cs[i + 1..], strs)
              == Events(Plug(c, WithProp(n, name, v)))
  {
    hide TokenOf, EventsOf, ItemEvents, Pre, Post, Plug, OneEvents, Events;
    var m := Scanned(cs, strs, name, i, k, c, n);
    EventsOfNext(cs, k, strs);
    var rest := ChunkEvents(cs[k], strs) + EventsOf(cs[k + 1..], strs);
    assert !rest[0].Attr?;
    if m < |n.items| {
      FirstIsProp(n.items[m..], [Shut] + Post(c));
    }
    FindPropNone(n.items, name, m);
    NodeEvents(cs, strs, i, c, n);
    EventsOfNext(cs, i, strs);
    forall v ensures EventsOf(cs[..i + 1], strs) + [Attr(name, v)] + EventsOf(cs[i + 1..], strs)
                     == Events(Plug(c, WithProp(n, name, v))) {
      EventsOfItems(c, n.name, [], [P(name, v)], n.items);
      PropEvents(name, v);
      NoItemEvents();
      assert [] + [P(name, v)] + n.items == [P(name, v)] + n.items;
      assert Pre(c) + [Open(n.name)] + [] == Pre(c) + [Open(n.name)];
    }
  }

  // Nesting depth gained over chunks i to j.
  ghost function ChunkDepth(cs: chunks, strs: bytes, i: nat, j: nat): int
    requires i <= j <= |cs|
  {
    Depth(EventsOf(cs[i..j], strs))
  }

  lemma ChunkDepthNext(cs: chunks, strs: bytes, i: nat, j: nat)
    requires i <= j < |cs|
    ensures ChunkDepth(cs, strs, i, j + 1) == ChunkDepth(cs, strs, i, j) + Depth(ChunkEvents(cs[j], strs))
  {
    assert cs[i..j + 1] == cs[i..j] + [cs[j]];
    EventsOfCat(cs[i..j], [cs[j]], strs);
    EventsOfOne(cs[j], strs);
    DepthCat(EventsOf(cs[i..j], strs), ChunkEvents(cs[j], strs));
  }

  // j is the first position after the node's tag where the depth is back to zero.
  ghost predicate NodeEnd(cs: chunks, strs: bytes, i: nat, j: nat) {
    && i < j <= |cs|
    && ChunkDepth(cs, strs, i, j) == 0
    && forall k :: i < k < j ==> ChunkDepth(cs, strs, i, k) > 0
  }

  // The chunks up to there are exactly the node.
  lemma NodeEndIsNode(cs: chunks, strs: bytes, i: nat, j: nat, c: Ctx, n: Tree)
    requires NodeChunk(cs, strs, i, c)
    requires EventsOf(cs, strs) == Events(Plug(c, n))
    requires NodeEnd(cs, strs, i, j)
    ensures EventsOf(cs[i..j], strs) == Events(n)
    ensures EventsOf(cs[j..], strs) == Post(c)
  {
    hide TokenOf, EventsOf, ItemEvents, Pre, Post, Plug, Depth;
    NodeEvents(cs, strs, i, c, n);
    var (whole, mine) := (EventsOf(cs[i..], strs), EventsOf(cs[i..j], strs));
    assert cs[i..] == cs[i..j] + cs[j..];
    EventsOfCat(cs[i..j], cs[j..], strs);
    assert mine == whole[..|mine|];
    if |mine| < |Events(n)| {
      assert cs[i..j] == [cs[i]] + cs[i + 1..j];
      EventsOfCat([cs[i]], cs[i + 1..j], strs);
      EventsOfOne(cs[i], strs);
      assert mine == Events(n)[..|mine|];
      NodeDepth(n, |mine|);
      assert false;
    } else if |mine| > |Events(n)| {
      var k := Reaches(cs, strs, i, j, |Events(n)|);
      assert EventsOf(cs[i..k], strs) == whole[..|Events(n)|] by {
        assert cs[i..j] == cs[i..k] + cs[k..j];
        EventsOfCat(cs[i..k], cs[k..j], strs);
      }
      assert whole[..|Events(n)|] == Events(n)[..|Events(n)|];
      NodeDepth(n, |Events(n)|);
      var back := ChunkDepth(cs, strs, i, k);
      assert false;
    }
    assert mine == Events(n);
  }

  // Chunks carry at most one event each, so every event count is reached.
  lemma {:induction false} Reaches(cs: chunks, strs: bytes, i: nat, j: nat, m: nat) returns (k: nat)
    requires i < j <= |cs| && 0 < m < |EventsOf(cs[i..j], strs)|
    ensures i < k < j && |EventsOf(cs[i..k], strs)| == m
    decreases j
  {
    hide TokenOf;
    assert cs[i..j] == cs[i..j - 1] + [cs[j - 1]];
    EventsOfCat(cs[i..j - 1], [cs[j - 1]], strs);
    EventsOfOne(cs[j - 1], strs);
    if |EventsOf(cs[i..j - 1], strs)| == m {
      k := j - 1;
    } else {
      k := Reaches(cs, strs, i, j - 1, m);
    }
  }
}
