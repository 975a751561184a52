// fdt_subnode_offset_namelen: the first subnode whose name matches, at the
// tree level and in the loop over nodes.
module FdtChild {
  import opened ByteStrings
  import opened FdtFormat
  import opened FdtTree
  import opened FdtBlob
  import opened FdtNode
  import opened FdtWalk

  const AT_SIGN: byte := 64
  const SLASH: byte := 47

  // A node name is asked for in full, or without its unit address.
  predicate NameMatches(name: bytes, s: bytes) {
    && |s| <= |name|
    && name[..|s|] == s
    && (|s| == |name| || (AT_SIGN !in s && name[|s|] == AT_SIGN))
  }

  // The first subnode among the items with a matching name.
  function FirstChild(items: seq<Item>, s: bytes): (r: Option<nat>)
    ensures r.Some? ==> r.value < |items| && items[r.value].N? && NameMatches(items[r.value].sub.name, s)
                        && forall m :: 0 <= m < r.value && items[m].N? ==> !NameMatches(items[m].sub.name, s)
    ensures r.None? ==> forall m :: 0 <= m < |items| && items[m].N? ==> !NameMatches(items[m].sub.name, s)
  {
    if items == [] then None
    else if items[0].N? && NameMatches(items[0].sub.name, s) then Some(0)
    else
      match FirstChild(items[1..], s)
      case None =>
        assert forall m :: 0 < m < |items| ==> items[m] == items[1..][m - 1];
        None
      case Some(m) =>
        assert forall k :: 0 < k < |items| ==> items[k] == items[1..][k - 1];
        Some(m + 1)
  }

  // The context of subnode m of the node that fills the hole of c.
  function Into(c: Ctx, n: Tree, m: nat): Ctx
    requires m < |n.items|
  {
    match c
    case Hole => Under(n.name, n.items[..m], Hole, n.items[m + 1..])
    case Under(name, before, inner, after) => Under(name, before, Into(inner, n, m), after)
  }

  lemma {:induction false} PlugInto(c: Ctx, n: Tree, m: nat)
    requires m < |n.items| && n.items[m].N?
    ensures Plug(Into(c, n, m), n.items[m].sub) == Plug(c, n)
    ensures Pre(Into(c, n, m)) == Pre(c) + [Open(n.name)] + ItemEvents(n.items[..m])
  {
    match c
    case Hole =>
      assert n.items == n.items[..m] + [N(n.items[m].sub)] + n.items[m + 1..];
      assert Pre(Hole) + [Open(n.name)] == [Open(n.name)];
    case Under(name, before, inner, after) =>
      PlugInto(inner, n, m);
      Cat4([Open(name)] + ItemEvents(before), Pre(inner), [Open(n.name)], ItemEvents(n.items[..m]));
  }

  // Whole items lie before an opening tag at depth zero.
  lemma {:induction false} ChildAt(items: seq<Item>, rest: events, evs: events, more: events) returns (m: nat)
    requires ItemEvents(items) + ([Shut] + rest) == evs + more
    requires more != [] && more[0].Open?
    requires forall p :: 0 <= p <= |evs| ==> Depth(evs[..p]) >= 0
    requires Depth(evs) == 0
    ensures m < |items| && items[m].N? && items[m].sub.name == more[0].name
    ensures ItemEvents(items[..m]) == evs
    decreases |items|
  {
    hide Depth, ItemEvents, OneEvents;
    var whole := evs + more;
    m := 0;
    FirstNotShut(evs, more);
    FirstOfItems(items, [Shut] + rest);
    NoItemEvents();
    if items != [] {
      FirstIsProp(items, [Shut] + rest);
      ItemsFrom(items);
      if evs == [] {
        assert whole == more;
        assert items[..0] == [];
      } else {
        var first := OneEvents(items[0]);
        PassItem(items, rest, evs, more);
        var evs' := evs[|first|..];
        assert whole[|first|..] == ItemEvents(items[1..]) + ([Shut] + rest);
        assert whole[|first|..] == evs' + more;
        var m' := ChildAt(items[1..], rest, evs', more);
        m := m' + 1;
        assert items[..m] == [items[0]] + items[1..][..m'];
        ItemEventsCat([items[0]], items[1..][..m']);
        ItemEventsOne(items[0]);
        assert evs == first + evs';
      }
    }
  }

  lemma ItemsFrom(items: seq<Item>)
    requires items != []
    ensures ItemEvents(items) == OneEvents(items[0]) + ItemEvents(items[1..])
  {
  }

  lemma FirstNotShut(evs: events, more: events)
    requires more != [] && more[0].Open?
    requires forall p :: 0 <= p <= |evs| ==> Depth(evs[..p]) >= 0
    ensures (evs + more)[0] != Shut
  {
    if evs != [] {
      var one := evs[..1];
      assert one[1..] == [] && Depth(one) >= 0;
    }
  }

  // The first item lies wholly before the tag.
  lemma PassItem(items: seq<Item>, rest: events, evs: events, more: events)
    requires items != [] && evs != []
    requires ItemEvents(items) + ([Shut] + rest) == evs + more
    requires forall p :: 0 <= p <= |evs| ==> Depth(evs[..p]) >= 0
    requires Depth(evs) == 0
    ensures var first := OneEvents(items[0]);
            && |first| <= |evs| && evs[..|first|] == first
            && (forall p :: 0 <= p <= |evs| - |first| ==> Depth(evs[|first|..][..p]) >= 0)
            && Depth(evs[|first|..]) == 0
  {
    hide Depth, ItemEvents, OneEvents;
    var first := OneEvents(items[0]);
    ItemPrefix(items, rest, evs, more);
    OneDepth(items[0], |first|);
    assert first[..|first|] == first;
    var tail := evs[|first|..];
    forall p | 0 <= p <= |tail| ensures Depth(tail[..p]) >= 0 {
      assert evs[..|first| + p] == first + tail[..p];
      DepthCat(first, tail[..p]);
    }
    assert evs == first + tail;
    DepthCat(first, tail);
  }

  lemma ItemPrefix(items: seq<Item>, rest: events, evs: events, more: events)
    requires items != [] && evs != []
    requires ItemEvents(items) + ([Shut] + rest) == evs + more
    requires Depth(evs) == 0
    ensures |OneEvents(items[0])| <= |evs| && evs[..|OneEvents(items[0])|] == OneEvents(items[0])
  {
    hide Depth, OneEvents;
    var first := OneEvents(items[0]);
    Cat3(first, ItemEvents(items[1..]), [Shut] + rest);
    TwoPrefixes(first, ItemEvents(items[1..]) + ([Shut] + rest), evs, more);
    if |evs| < |first| {
      OneInside(items[0], |evs|);
    }
  }

  lemma OneInside(i: Item, k: nat)
    requires 0 < k < |OneEvents(i)|
    ensures Depth(OneEvents(i)[..k]) > 0
  {
    hide Depth;
    match i
    case P(_, _) =>
    case N(sub) => NodeDepth(sub, k);
  }

  // The chunk that carries event e of the chunks from i on.
  lemma {:induction false} EventChunk(cs: chunks, strs: bytes, i: nat, e: nat) returns (x: nat)
    requires i <= |cs| && e < |EventsOf(cs[i..], strs)|
    ensures i <= x < |cs| && EventsOf(cs[i..x], strs) == EventsOf(cs[i..], strs)[..e]
    ensures ChunkEvents(cs[x], strs) == [EventsOf(cs[i..], strs)[e]]
    decreases |cs| - i
  {
    hide TokenOf, EventsOf, ChunkEvents;
    if i == |cs| {
      EventsOfNone(cs[i..], strs);
    }
    var first := ChunkEvents(cs[i], strs);
    EventsOfNext(cs, i, strs);
    AtMostOne(cs[i], strs);
    if e < |first| {
      x := i;
      EventsOfNone(cs[i..i], strs);
    } else {
      x := EventChunk(cs, strs, i + 1, e - |first|);
      assert cs[i..x] == [cs[i]] + cs[i + 1..x];
      EventsOfCat([cs[i]], cs[i + 1..x], strs);
      EventsOfOne(cs[i], strs);
    }
  }

  lemma AtMostOne(c: bytes, strs: bytes)
    ensures |ChunkEvents(c, strs)| <= 1
  {
    hide TokenOf, NameAt;
  }

  // A node chunk at depth one below chunk i.
  ghost predicate ChildChunk(cs: chunks, strs: bytes, i: nat, k: nat) {
    && i < k < |cs|
    && TokenOf(cs[k]).Some? && TokenOf(cs[k]).value.Begin?
    && ChunkDepth(cs, strs, i, k) == 1
  }

  ghost predicate NoMatch(cs: chunks, strs: bytes, i: nat, k: nat, name: bytes) {
    forall x {:trigger ChildChunk(cs, strs, i, x)} ::
      i < x < k && ChildChunk(cs, strs, i, x) ==> !NameMatches(TokenOf(cs[x]).value.name, name)
  }

  // Every event prefix of chunks i+1 to k is the events of some chunk prefix.
  lemma PrefixDepths(cs: chunks, strs: bytes, i: nat, k: nat)
    requires i < k <= |cs| && Inside(cs, strs, i, k)
    requires TokenOf(cs[i]).Some? && TokenOf(cs[i]).value.Begin?
    ensures var evs := EventsOf(cs[i + 1..k], strs);
            forall p :: 0 <= p <= |evs| ==> Depth(evs[..p]) >= 0
  {
    hide TokenOf, EventsOf, Depth;
    var evs := EventsOf(cs[i + 1..k], strs);
    if i + 1 == k {
      EventsOfNone(cs[i + 1..k], strs);
    }
    forall p | 0 <= p <= |evs| ensures Depth(evs[..p]) >= 0 {
      var x := k;
      if 0 < p < |evs| {
        x := Reaches(cs, strs, i + 1, k, p);
        assert cs[i + 1..k] == cs[i + 1..x] + cs[x..k];
        EventsOfCat(cs[i + 1..x], cs[x..k], strs);
      }
      if p == 0 {
        DepthNone(evs[..p]);
      } else {
        assert evs[..p] == EventsOf(cs[i + 1..x], strs);
        DepthFromNode(cs, strs, i, x);
        assert ChunkDepth(cs, strs, i, x) > 0;
      }
    }
  }

  lemma DepthNone(evs: events)
    requires evs == []
    ensures Depth(evs) == 0
  {
  }

  // A chunk at depth one opens one of the node's subnodes.
  lemma ChildIsItem(cs: chunks, strs: bytes, i: nat, k: nat, c: Ctx, n: Tree) returns (m: nat)
    requires NodeChunk(cs, strs, i, c) && EventsOf(cs, strs) == Events(Plug(c, n))
    requires ChildChunk(cs, strs, i, k) && Inside(cs, strs, i, k)
    ensures m < |n.items| && n.items[m].N? && n.items[m].sub.name == TokenOf(cs[k]).value.name
    ensures EventsOf(cs[i + 1..k], strs) == ItemEvents(n.items[..m])
    ensures NodeChunk(cs, strs, k, Into(c, n, m))
  {
    hide TokenOf, EventsOf, Depth, ItemEvents, Events, Pre, Post, Plug;
    NodeEvents(cs, strs, i, c, n);
    var (evs, more) := (EventsOf(cs[i + 1..k], strs), EventsOf(cs[k..], strs));
    assert cs[i + 1..] == cs[i + 1..k] + cs[k..];
    EventsOfCat(cs[i + 1..k], cs[k..], strs);
    EventsOfNext(cs, k, strs);
    assert more[0] == Open(TokenOf(cs[k]).value.name);
    PrefixDepths(cs, strs, i, k);
    DepthFromNode(cs, strs, i, k);
    m := ChildAt(n.items, Post(c), evs, more);
    PlugInto(c, n, m);
    EventsOfNext(cs, i, strs);
    assert cs[..k] == cs[..i + 1] + cs[i + 1..k];
    EventsOfCat(cs[..i + 1], cs[i + 1..k], strs);
  }

  // Every subnode before the events of chunk k has its chunk before k.
  lemma ItemIsChild(cs: chunks, strs: bytes, i: nat, k: nat, c: Ctx, n: Tree, m: nat) returns (x: nat)
    requires NodeChunk(cs, strs, i, c) && EventsOf(cs, strs) == Events(Plug(c, n))
    requires i < k <= |cs| && m < |n.items| && n.items[m].N?
    requires |ItemEvents(n.items[..m])| < |EventsOf(cs[i + 1..k], strs)|
    ensures x < k && ChildChunk(cs, strs, i, x) && TokenOf(cs[x]).value.name == n.items[m].sub.name
  {
    hide TokenOf, Depth, Pre, Post, Plug, Events, EventsOf, ItemEvents;
    NodeEvents(cs, strs, i, c, n);
    var e := |ItemEvents(n.items[..m])|;
    var whole := EventsOf(cs[i + 1..], strs);
    ItemAt(n.items, [Shut] + Post(c), m);
    assert cs[i + 1..] == cs[i + 1..k] + cs[k..];
    EventsOfCat(cs[i + 1..k], cs[k..], strs);
    x := EventChunk(cs, strs, i + 1, e);
    OneOpen(cs[x], strs, n.items[m].sub.name);
    if x >= k {
      assert cs[i + 1..x] == cs[i + 1..k] + cs[k..x];
      EventsOfCat(cs[i + 1..k], cs[k..x], strs);
      assert false;
    }
    assert whole[..e] == ItemEvents(n.items[..m]);
    ItemsDepth(n.items[..m], e);
    assert ItemEvents(n.items[..m])[..e] == ItemEvents(n.items[..m]);
    DepthFromNode(cs, strs, i, x);
  }

  lemma ItemAt(items: seq<Item>, rest: events, m: nat)
    requires m < |items| && items[m].N?
    ensures var (e, whole) := (|ItemEvents(items[..m])|, ItemEvents(items) + rest);
            && e < |whole| && whole[..e] == ItemEvents(items[..m]) && whole[e] == Open(items[m].sub.name)
  {
    assert items == items[..m] + items[m..];
    ItemEventsCat(items[..m], items[m..]);
    FirstIsProp(items[m..], rest);
    assert items[m..][0] == items[m];
    Cat3(ItemEvents(items[..m]), ItemEvents(items[m..]), rest);
  }

  lemma OneOpen(c: bytes, strs: bytes, name: bytes)
    requires ChunkEvents(c, strs) == [Open(name)]
    ensures TokenOf(c) == Some(Begin(name))
  {
    hide TokenOf, NameAt;
  }

  // The first match among the node chunks at depth one is the first match
  // among the subnodes.
  lemma FirstMatch(cs: chunks, strs: bytes, i: nat, k: nat, c: Ctx, n: Tree, name: bytes) returns (m: nat)
    requires NodeChunk(cs, strs, i, c) && EventsOf(cs, strs) == Events(Plug(c, n))
    requires ChildChunk(cs, strs, i, k) && Inside(cs, strs, i, k)
    requires NoMatch(cs, strs, i, k, name) && NameMatches(TokenOf(cs[k]).value.name, name)
    ensures FirstChild(n.items, name) == Some(m)
    ensures NodeChunk(cs, strs, k, Into(c, n, m)) && Plug(Into(c, n, m), n.items[m].sub) == Plug(c, n)
  {
    hide TokenOf, EventsOf, Depth, Events, Pre, Post, Plug, NameMatches, ChunkDepth;
    m := ChildIsItem(cs, strs, i, k, c, n);
    PlugInto(c, n, m);
    forall m' | 0 <= m' < m && n.items[m'].N? ensures !NameMatches(n.items[m'].sub.name, name) {
      ShorterItems(n.items, m', m);
      var x := ItemIsChild(cs, strs, i, k, c, n, m');
    }
  }

  lemma ShorterItems(items: seq<Item>, m': nat, m: nat)
    requires m' < m <= |items| && items[m'].N?
    ensures |ItemEvents(items[..m'])| < |ItemEvents(items[..m])|
  {
    assert items[..m] == items[..m'] + items[m'..m];
    ItemEventsCat(items[..m'], items[m'..m]);
    FirstIsProp(items[m'..m], []);
  }

  lemma NoChildMatches(cs: chunks, strs: bytes, i: nat, j: nat, c: Ctx, n: Tree, name: bytes)
    requires NodeChunk(cs, strs, i, c) && EventsOf(cs, strs) == Events(Plug(c, n))
    requires NodeEnd(cs, strs, i, j) && NoMatch(cs, strs, i, j, name)
    ensures FirstChild(n.items, name) == None
  {
    hide TokenOf, EventsOf, Depth, Pre, Post, Plug, NameMatches, ChunkDepth;
    NodeEndIsNode(cs, strs, i, j, c, n);
    NodeEvents(cs, strs, i, c, n);
    assert cs[i..j] == [cs[i]] + cs[i + 1..j];
    EventsOfCat([cs[i]], cs[i + 1..j], strs);
    EventsOfOne(cs[i], strs);
    assert |EventsOf(cs[i + 1..j], strs)| == |ItemEvents(n.items)| + 1;
    assert n.items[..|n.items|] == n.items;
    forall m | 0 <= m < |n.items| && n.items[m].N? ensures !NameMatches(n.items[m].sub.name, name) {
      ShorterItems(n.items, m, |n.items|);
      var x := ItemIsChild(cs, strs, i, j, c, n, m);
    }
  }

  // _fdt_nodename_eq.
  predicate NodenameEq(st: bytes, offset: nat, s: bytes) {
    var p := offset + 4;
    && InStruct(st, p, |s| + 1)
    && p + |s| + 1 <= |st|
    && st[p..p + |s|] == s
    && (st[p + |s|] == 0 || (AT_SIGN !in s && st[p + |s|] == AT_SIGN))
  }

  lemma NodenameIs(s: bytes, k: nat, name: bytes)
    requires Walkable(s) && k < |Chunks(s)| && NoNul(name) && 0 < |name| < INT_LIMIT
    requires TokenOf(Chunks(s)[k]).Some? && TokenOf(Chunks(s)[k]).value.Begin?
    ensures NodenameEq(StructBlock(s), Off(Chunks(s), k), name)
            <==> NameMatches(TokenOf(Chunks(s)[k]).value.name, name)
  {
    hide Walk, Decodes, Off, Align4, Be32, InStruct, NodenameEq, NameMatches, TokenOf, StrAt, Chunks, CheckHeader;
    hide SkipName, Flat, StructBlock;
    var (st, cs) := (StructBlock(s), Chunks(s));
    var (o, nm) := (Off(cs, k), TokenOf(cs[k]).value.name);
    OffsetsInBlock(s, k, k + 1);
    DecodesAt(st, cs, k);
    BeginSize(cs[k]);
    NameInBlock(st, o, cs[k]);
    NameCompared(st, o + 4, nm, name);
    NodenameEqMeans(st, o, name);
  }

  lemma NodenameEqMeans(st: bytes, o: nat, name: bytes)
    requires |st| < INT_LIMIT && |name| < INT_LIMIT && o + 4 <= |st|
    ensures NodenameEq(st, o, name) <==>
              && o + 4 + |name| + 1 <= |st| && st[o + 4..o + 4 + |name|] == name
              && (st[o + 4 + |name|] == 0 || (AT_SIGN !in name && st[o + 4 + |name|] == AT_SIGN))
  {
    hide InStruct;
    InStructMeans(st, o + 4, |name| + 1);
  }

  // Comparing at a C string: the terminator stops a longer name from matching.
  lemma NameCompared(st: bytes, p: nat, nm: bytes, name: bytes)
    requires StrAt(st, p) == Some(nm) && NoNul(name)
    ensures (&& p + |name| + 1 <= |st| && st[p..p + |name|] == name
             && (st[p + |name|] == 0 || (AT_SIGN !in name && st[p + |name|] == AT_SIGN)))
            <==> NameMatches(nm, name)
  {
    hide StrAt;
    assert st[p..p + |nm|] == nm;
    if |name| <= |nm| {
      SliceOfSlice(st, p, p + |nm|, 0, |name|);
      if |name| < |nm| {
        assert st[p + |name|] == st[p..p + |nm|][|name|];
      }
    } else if p + |name| + 1 <= |st| {
      assert st[p + |nm|] == st[p..p + |name|][|nm|];
    }
  }

  // One more node stepped over without a match.
  lemma StepNoMatch(cs: chunks, strs: bytes, i: nat, k: nat, k': nat, depth: int, r: int, d: int, name: bytes)
    requires i <= k < |cs| && TokenOf(cs[k]).Some? && TokenOf(cs[k]).value.Begin?
    requires NoMatch(cs, strs, i, k, name)
    requires depth == ChunkDepth(cs, strs, i, k)
    requires depth == 1 ==> !NameMatches(TokenOf(cs[k]).value.name, name)
    requires NextIs(cs, strs, k, k', depth, r, d)
    ensures NoMatch(cs, strs, i, k', name)
    ensures k' < |cs| && d == -1 ==> NoMatch(cs, strs, i, k' + 1, name)
  {
    hide TokenOf, EventsOf, Off, Depth, NameMatches, ChunkDepth;
    forall x | i < x < k' && ChildChunk(cs, strs, i, x) ensures !NameMatches(TokenOf(cs[x]).value.name, name) {
      if x > k {
        assert false;
      }
    }
  }

  // fdt_subnode_offset_namelen.
  method SubnodeOffset(s: bytes, parentoffset: int32, name: bytes, ghost i: nat)
    returns (offset: int32, ghost k: nat)
    requires Walkable(s) && NodeOrRefused(s, i, parentoffset) && NoNul(name) && 0 < |name| < INT_LIMIT
    ensures Refused(s, parentoffset) ==> offset == if parentoffset < 0 then parentoffset else BADOFFSET
    ensures OnNode(s, i, parentoffset) ==>
              forall c, n :: NodeHere(s, i, c, n) ==>
                match FirstChild(n.items, name)
                case None => offset == NOTFOUND
                case Some(m) => OnNode(s, k, offset) && NodeHere(s, k, Into(c, n, m), n.items[m].sub)
  {
    hide TokenOf, EventsOf, Off, Depth, Decodes, Flat, NextTag, Walk, NodenameEq, Plug, Pre, Events;
    ghost var (cs, strs) := (Chunks(s), StringBlock(s));
    var depth := 0;
    k := i;
    offset := parentoffset;
    if OnNode(s, i, parentoffset) {
      OnNodeNotRefused(s, i, parentoffset);
      OnNodeAligned(s, i, parentoffset);
      ChunkDepthNone(cs, strs, i);
    }
    while offset >= 0 && depth >= 0
      invariant Refused(s, parentoffset) ==>
                  (offset == parentoffset && depth == 0) || (offset == BADOFFSET && parentoffset >= 0 && depth == 0)
      invariant OnNode(s, i, parentoffset) && depth >= 0 ==>
                  && offset >= 0 && OnNode(s, k, offset) && Inside(cs, strs, i, k)
                  && depth == ChunkDepth(cs, strs, i, k) && NoMatch(cs, strs, i, k, name)
      invariant OnNode(s, i, parentoffset) && depth < 0 ==>
                  k < |cs| && NodeEnd(cs, strs, i, k + 1) && NoMatch(cs, strs, i, k + 1, name)
      decreases if offset < 0 || depth < 0 then 0 else 1, |cs| - k
    {
      if depth == 1 && NodenameEq(StructBlock(s), offset, name) {
        NodenameIs(s, k, name);
        forall c, n | NodeHere(s, i, c, n)
          ensures FirstChild(n.items, name).Some?
          ensures var m := FirstChild(n.items, name).value;
                  NodeHere(s, k, Into(c, n, m), n.items[m].sub)
        {
          var m := FirstMatch(cs, strs, i, k, c, n, name);
        }
        return;
      }
      ghost var k0, depth0 := k, depth;
      if OnNode(s, i, parentoffset) {
        NodenameIs(s, k0, name);
      }
      offset, depth, k := FdtNextNode(s, offset, depth, k);
      if OnNode(s, i, parentoffset) {
        StepInside(cs, strs, i, k0, k, depth0, offset, depth);
        StepNoMatch(cs, strs, i, k0, k, depth0, offset, depth, name);
        if k == |cs| {
          var c, n :| NodeHere(s, i, c, n);
          NodeCloses(cs, strs, i, c, n);
        }
        StepFrom(s, k);
      }
    }
    if OnNode(s, i, parentoffset) {
      forall c, n | NodeHere(s, i, c, n) ensures FirstChild(n.items, name) == None {
        NoChildMatches(cs, strs, i, k + 1, c, n, name);
      }
    }
    if depth < 0 {
      offset := NOTFOUND;
    }
  }
}
