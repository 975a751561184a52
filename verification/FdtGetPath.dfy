// fdt_get_path: the path printed for a node offset.
module FdtGetPath {
  import opened ByteStrings
  import opened Memory
  import opened FdtFormat
  import opened FdtTree
  import opened FdtBlob
  import opened FdtNode
  import opened FdtWalk
  import opened FdtChild
  import opened FdtPath

  // The names of the nodes still open after these events, outermost first.
  function OpenNames(evs: events): seq<bytes> {
    if evs == [] then [] else After(OpenNames(evs[..|evs| - 1]), evs[|evs| - 1])
  }

  function After(names: seq<bytes>, e: Event): seq<bytes> {
    match e
    case Open(name) => names + [name]
    case Attr(_, _) => names
    case Shut => if names == [] then [] else names[..|names| - 1]
  }

  lemma OpenNamesNext(evs: events, e: Event)
    ensures OpenNames(evs + [e]) == After(OpenNames(evs), e)
  {
    assert (evs + [e])[..|evs|] == evs;
  }

  lemma {:induction false} OpenNamesCat(a: events, b: events, c: events)
    requires OpenNames(a) == OpenNames(b)
    ensures OpenNames(a + c) == OpenNames(b + c)
    decreases |c|
  {
    hide OpenNames, After;
    if c == [] {
      assert a + c == a && b + c == b;
    } else {
      var (init, e) := (c[..|c| - 1], c[|c| - 1]);
      assert c == init + [e];
      OpenNamesCat(a, b, init);
      assert a + c == (a + init) + [e];
      OpenNamesNext(a + init, e);
      assert b + c == (b + init) + [e];
      OpenNamesNext(b + init, e);
    }
  }

  // Whole items leave nothing open.
  lemma {:induction false} OpenNamesNode(pre: events, t: Tree)
    ensures OpenNames(pre + Events(t)) == OpenNames(pre)
    decreases t, 1
  {
    var inside := pre + [Open(t.name)];
    OpenNamesNext(pre, Open(t.name));
    OpenNamesItems(inside, t.items);
    OpenNamesNext(inside + ItemEvents(t.items), Shut);
    assert pre + Events(t) == inside + ItemEvents(t.items) + [Shut];
  }

  lemma {:induction false} OpenNamesItems(pre: events, items: seq<Item>)
    ensures OpenNames(pre + ItemEvents(items)) == OpenNames(pre)
    decreases items, 0
  {
    if items == [] {
      assert pre + ItemEvents(items) == pre;
    } else {
      OpenNamesOne(pre, items[0]);
      OpenNamesItems(pre + OneEvents(items[0]), items[1..]);
      Cat3(pre, OneEvents(items[0]), ItemEvents(items[1..]));
    }
  }

  lemma {:induction false} OpenNamesOne(pre: events, i: Item)
    ensures OpenNames(pre + OneEvents(i)) == OpenNames(pre)
    decreases i, 2
  {
    match i
    case P(name, value) => OpenNamesNext(pre, Attr(name, value));
    case N(sub) => OpenNamesNode(pre, sub);
  }

  // The names of the nodes around the hole.
  function Above(c: Ctx): seq<bytes> {
    match c
    case Hole => []
    case Under(name, _, inner, _) => [name] + Above(inner)
  }

  lemma {:induction false} AboveIsOpen(pre: events, c: Ctx)
    ensures OpenNames(pre + Pre(c)) == OpenNames(pre) + Above(c)
    decreases c
  {
    hide OpenNames, ItemEvents;
    match c
    case Hole =>
      assert pre + Pre(c) == pre;
    case Under(name, before, inner, _) =>
      OpenNamesNext(pre, Open(name));
      OpenNamesItems(pre + [Open(name)], before);
      AboveIsOpen(pre + [Open(name)] + ItemEvents(before), inner);
      Cat4(pre, [Open(name)], ItemEvents(before), Pre(inner));
      Cat3(OpenNames(pre), [name], Above(inner));
  }

  // A node's full name list, root first.
  function NamesOf(c: Ctx, n: Tree): seq<bytes> {
    Above(c) + [n.name]
  }

  // Each name followed by a slash.
  function Text(names: seq<bytes>): bytes {
    if names == [] then [] else Text(names[..|names| - 1]) + names[|names| - 1] + [SLASH]
  }

  lemma TextNext(names: seq<bytes>, name: bytes)
    ensures Text(names + [name]) == Text(names) + name + [SLASH]
  {
    assert (names + [name])[..|names|] == names;
  }

  lemma {:induction false} TextPrefix(names: seq<bytes>, j: nat)
    requires j <= |names|
    ensures |Text(names[..j])| <= |Text(names)| && j <= |Text(names[..j])|
    decreases |names|
  {
    if j < |names| {
      TextPrefix(names[..|names| - 1], j);
      assert names[..|names| - 1][..j] == names[..j];
    } else {
      assert names[..j] == names;
      if j > 0 {
        TextPrefix(names[..j - 1], j - 1);
        assert names[..j - 1][..j - 1] == names[..j - 1];
      }
    }
  }

  // The path as fdt_get_path prints it: "/" for the root, otherwise no slash
  // at the end.
  function PathText(names: seq<bytes>): bytes {
    var text := Text(names);
    if |text| > 1 then text[..|text| - 1] else text
  }

  // Where the last component of a text lies, and that no slash is inside it.
  lemma LastComponent(names: seq<bytes>)
    requires names != []
    ensures var (head, last) := (Text(names[..|names| - 1]), names[|names| - 1]);
            && |Text(names)| == |head| + |last| + 1 && Text(names)[..|head|] == head
            && (|names| > 1 ==> head != [] && head[|head| - 1] == SLASH)
            && (SLASH !in last ==> forall q :: |head| <= q < |Text(names)| - 1 ==> Text(names)[q] != SLASH)
  {
    var last := names[|names| - 1];
    var head := Text(names[..|names| - 1]);
    assert Text(names) == head + last + [SLASH];
    forall q | |head| <= q < |Text(names)| - 1 && SLASH !in last ensures Text(names)[q] != SLASH {
      assert Text(names)[q] == last[q - |head|];
    }
  }

  // Names open at chunk k.
  ghost function OpenAt(cs: chunks, strs: bytes, k: nat): seq<bytes>
    requires k <= |cs|
  {
    OpenNames(EventsOf(cs[..k], strs))
  }

  // Between two opening tags only closing tags change the open names.
  lemma {:induction false} OpenAfter(cs: chunks, strs: bytes, k: nat, x: nat, depth: int, full: seq<bytes>)
    requires k < x <= |cs| && |full| == depth + 1
    requires TokenOf(cs[k]).Some? && TokenOf(cs[k]).value.Begin?
    requires full == OpenAt(cs, strs, k) + [TokenOf(cs[k]).value.name]
    requires PassedTo(cs, strs, k, x, depth)
    ensures 0 <= depth + 1 + ChunkDepth(cs, strs, k + 1, x) <= |full|
    ensures OpenAt(cs, strs, x) == full[..depth + 1 + ChunkDepth(cs, strs, k + 1, x)]
    decreases x
  {
    hide TokenOf, EventsOf, OpenNames, Depth, NameAt;
    EventsOfNext(cs, x - 1, strs);
    if x == k + 1 {
      ChunkDepthNone(cs, strs, x);
      OpenNamesNext(EventsOf(cs[..k], strs), Open(TokenOf(cs[k]).value.name));
      assert full[..|full|] == full;
    } else {
      OpenAfter(cs, strs, k, x - 1, depth, full);
      ChunkDepthNext(cs, strs, k + 1, x - 1);
      assert TokenOf(cs[x - 1]).Some? && !TokenOf(cs[x - 1]).value.Begin?;
      TokenDepth(cs[x - 1], strs);
      OpenChunk(EventsOf(cs[..x - 1], strs), cs[x - 1], strs);
      assert depth + ChunkDepth(cs, strs, k + 1, x) >= 0;
    }
  }

  lemma OpenChunk(evs: events, c: bytes, strs: bytes)
    requires TokenOf(c).Some? && !TokenOf(c).value.Begin?
    ensures OpenNames(evs + ChunkEvents(c, strs)) ==
              if TokenOf(c).value.Close? && OpenNames(evs) != [] then OpenNames(evs)[..|OpenNames(evs)| - 1]
              else OpenNames(evs)
  {
    hide TokenOf, NameAt, OpenNames;
    match TokenOf(c).value
    case Prop(o, v) => OpenNamesNext(evs, Attr(NameAt(strs, o), v));
    case Close => OpenNamesNext(evs, Shut);
    case Nop => assert evs + [] == evs;
  }

  // The next node after chunk k: names open there are those of node k, cut at
  // the new depth.
  lemma NextOpen(cs: chunks, strs: bytes, k: nat, k': nat, depth: int, r: int, d: int)
    requires k < |cs| && TokenOf(cs[k]).Some? && TokenOf(cs[k]).value.Begin?
    requires |OpenAt(cs, strs, k)| == depth
    requires NextIs(cs, strs, k, k', depth, r, d) && k' < |cs| && TokenOf(cs[k']).value.Begin?
    ensures var full := OpenAt(cs, strs, k) + [TokenOf(cs[k]).value.name];
            0 < d <= |full| && OpenAt(cs, strs, k') == full[..d]
  {
    hide TokenOf, EventsOf, OpenNames, Depth;
    OpenAfter(cs, strs, k, k', depth, OpenAt(cs, strs, k) + [TokenOf(cs[k]).value.name]);
    ChunkDepthNext(cs, strs, k + 1, k');
    TokenDepth(cs[k'], strs);
  }

  ghost predicate NamesSlashFree(cs: chunks) {
    forall k :: 0 <= k < |cs| ==> ChunkSlashFree(cs[k])
  }

  predicate ChunkSlashFree(c: bytes) {
    match TokenOf(c)
    case Some(Begin(name)) => SLASH !in name
    case _ => true
  }

  // Nodes lie inside the root: before chunk i, another node, the walk neither
  // ends nor leaves the root.
  lemma StillInside(s: bytes, k: nat, k': nat, i: nat, depth: int, r: int, d: int, t: Tree)
    requires Walkable(s) && NodeHere(s, 0, Hole, t)
    requires var (cs, strs) := (Chunks(s), StringBlock(s));
             && k < i < |cs| && TokenOf(cs[i]).Some? && TokenOf(cs[i]).value.Begin?
             && TokenOf(cs[k]).Some? && TokenOf(cs[k]).value.Begin?
             && Inside(cs, strs, 0, k) && depth == ChunkDepth(cs, strs, 0, k)
             && NextIs(cs, strs, k, k', depth, r, d)
    ensures k' <= i && TokenOf(Chunks(s)[k']).value.Begin? && r == Off(Chunks(s), k') && d > 0
    ensures Inside(Chunks(s), StringBlock(s), 0, k') && d == ChunkDepth(Chunks(s), StringBlock(s), 0, k')
  {
    hide Walk, Decodes, EventsOf, Off, TokenOf, Depth, Events, Plug;
    var (cs, strs) := (Chunks(s), StringBlock(s));
    StepInside(cs, strs, 0, k, k', depth, r, d);
    if k' < |cs| && d == -1 {
      NodeEndIsNode(cs, strs, 0, k' + 1, Hole, t);
      NothingAfter(cs, strs, k' + 1, i);
    }
  }

  lemma NothingAfter(cs: chunks, strs: bytes, j: nat, i: nat)
    requires j <= |cs| && EventsOf(cs[j..], strs) == []
    requires i < |cs| && TokenOf(cs[i]).Some? && TokenOf(cs[i]).value.Begin?
    ensures i < j
  {
    hide TokenOf, EventsOf;
    if j <= i {
      assert cs[j..] == cs[j..i] + cs[i..];
      EventsOfCat(cs[j..i], cs[i..], strs);
      EventsOfNext(cs, i, strs);
    }
  }

  // The state of fdt_get_path's buffer: the first names of the list full, as
  // many as the path stack holds, and no more of them because no more fit.
  ghost predicate Printed(b: bytes, buflen: nat, p: nat, pdepth: nat, full: seq<bytes>) {
    && pdepth <= |full|
    && p == |Text(full[..pdepth])| <= buflen <= |b|
    && b[..p] == Text(full[..pdepth])
    && (pdepth < |full| ==> |Text(full[..pdepth + 1])| > buflen)
  }

  ghost predicate AllSlashFree(names: seq<bytes>) {
    forall i :: 0 <= i < |names| ==> SLASH !in names[i]
  }

  // The path stack shrinks to the depth of the node: back to the slash before
  // the last component, once for each level.
  method PopTo(buf: array<byte>, p0: nat, pdepth0: nat, depth: nat, ghost full: seq<bytes>)
    returns (p: nat, pdepth: nat)
    requires Printed(buf[..], buf.Length, p0, pdepth0, full) && AllSlashFree(full)
    requires depth >= 1 || pdepth0 == 0
    requires depth <= |full|
    ensures pdepth == if pdepth0 > depth then depth else pdepth0
    ensures Printed(buf[..], buf.Length, p, pdepth, full[..depth])
  {
    hide Text;
    p, pdepth := p0, pdepth0;
    while pdepth > depth
      invariant pdepth == pdepth0 || depth <= pdepth < pdepth0
      invariant pdepth <= |full| && p == |Text(full[..pdepth])| <= buf.Length
      invariant buf[..p] == Text(full[..pdepth])
      decreases pdepth
    {
      ghost var names := full[..pdepth];
      ghost var text := Text(names);
      LastComponent(names);
      assert names[..pdepth - 1] == full[..pdepth - 1];
      ghost var head := Text(full[..pdepth - 1]);
      p := p - 1;
      while buf[p - 1] != SLASH
        invariant |head| <= p < |text|
        invariant buf[..|text|] == text
        decreases p
      {
        assert buf[p - 1] == text[p - 1];
        p := p - 1;
      }
      assert buf[p - 1] == text[p - 1];
      assert p == |head|;
      assert buf[..p] == buf[..|text|][..p] == head;
      pdepth := pdepth - 1;
    }
    assert full[..depth][..pdepth] == full[..pdepth];
    if pdepth < depth {
      assert full[..depth][..pdepth + 1] == full[..pdepth + 1];
    }
  }

  // fdt_get_name.
  method GetName(s: bytes, offset: int32, ghost k: nat) returns (name: bytes)
    requires Walkable(s) && OnNode(s, k, offset)
    ensures name == TokenOf(Chunks(s)[k]).value.name
  {
    hide Walk, Decodes, Off, Align4, Be32;
    ghost var (st, cs) := (StructBlock(s), Chunks(s));
    OffsetsInBlock(s, k, k + 1);
    DecodesAt(st, cs, k);
    NameInBlock(st, offset, cs[k]);
    return NameAt(StructBlock(s), offset + 4);
  }

  // One more name at the end, if the stack holds all above it and it fits.
  method Append(buf: array<byte>, p0: nat, pdepth0: nat, depth: nat, name: bytes, ghost above: seq<bytes>)
    returns (p: nat, pdepth: nat)
    requires Printed(buf[..], buf.Length, p0, pdepth0, above) && |above| == depth
    modifies buf
    ensures Printed(buf[..], buf.Length, p, pdepth, above + [name]) && pdepth >= pdepth0
  {
    hide Text;
    p, pdepth := p0, pdepth0;
    PushName(above, name);
    if pdepth >= depth {
      if p + |name| + 1 <= buf.Length {
        PutName(buf, p, name);
        p := p + |name| + 1;
        pdepth := pdepth + 1;
      }
    }
  }

  lemma PathFits(b: bytes, buflen: nat, p: nat, pdepth: nat, full: seq<bytes>)
    requires Printed(b, buflen, p, pdepth, full)
    ensures pdepth <= |full| && (pdepth < |full| <==> |Text(full)| > buflen)
    ensures pdepth == |full| ==> p == |Text(full)| <= buflen && b[..p] == Text(full)
  {
    hide Text;
    if pdepth < |full| {
      TextFits(full, pdepth);
    } else {
      assert full[..pdepth] == full;
    }
  }

  // The slash at the end, unless it is all there is, becomes the terminator.
  method Terminate(buf: array<byte>, p0: nat, ghost full: seq<bytes>)
    requires p0 == |Text(full)| <= buf.Length && buf[..p0] == Text(full) && full != [] && buf.Length >= 2
    modifies buf
    ensures var path := PathText(full);
            |path| < buf.Length && buf[..|path|] == path && buf[|path|] == 0
  {
    TextNotEmpty(full);
    ghost var was := buf[..];
    var p := p0;
    if p > 1 {
      p := p - 1;
    }
    assert was[..p0][..p] == was[..p];
    buf[p] := 0;
    assert buf[..p] == was[..p];
  }

  lemma TextNotEmpty(full: seq<bytes>)
    requires full != []
    ensures Text(full) != []
  {
  }

  // fdt_get_path: the path of the node when it fits, with its terminator.
  method GetPath(s: bytes, nodeoffset: int32, buf: array<byte>, ghost i: nat) returns (err: int)
    requires Walkable(s) && NodeOrRefused(s, 0, 0) && OnNode(s, 0, 0)
    requires NodeOrRefused(s, i, nodeoffset) && OnNode(s, i, nodeoffset)
    requires NamesSlashFree(Chunks(s))
    modifies buf
    ensures forall c, n :: NodeHere(s, i, c, n) ==>
              if buf.Length < 2 || |Text(NamesOf(c, n))| > buf.Length then err == NOSPACE
              else
                var path := PathText(NamesOf(c, n));
                err == 0 && |path| < buf.Length && buf[..|path|] == path && buf[|path|] == 0
  {
    hide Walk, Decodes, NextTag, EventsOf, Off, TokenOf, Depth, Text, OpenNames, NamesSlashFree, NodeHere;
    hide Printed, PathText, NamesOf;
    if buf.Length < 2 {
      return NOSPACE;
    }
    err := BADOFFSET;
    ghost var (cs, strs) := (Chunks(s), StringBlock(s));
    ghost var t := RootHere(s);
    var offset: int32, depth := 0, 0;
    var pdepth: nat, p: nat := 0, 0;
    ghost var k := 0;
    ghost var full: seq<bytes> := [];
    StartOpen(cs, strs);
    PrintedNone(buf[..]);
    while 0 <= offset <= nodeoffset
      invariant k <= i && 0 <= offset <= nodeoffset && OnNode(s, k, offset)
      invariant Inside(cs, strs, 0, k) && depth == ChunkDepth(cs, strs, 0, k) && 0 <= depth <= |full|
      invariant OpenAt(cs, strs, k) == full[..depth]
      invariant Printed(buf[..], buf.Length, p, pdepth, full) && AllSlashFree(full)
      invariant k > 0 ==> depth >= 1
      invariant k == 0 ==> pdepth == 0
      decreases i - k
    {
      p, pdepth := PopTo(buf, p, pdepth, depth, full);
      full := full[..depth];
      NameSlashFree(cs, k);
      var name := GetName(s, offset, k);
      p, pdepth := Append(buf, p, pdepth, depth, name, full);
      full := full + [name];
      if offset == nodeoffset {
        SameChunk(s, k, i);
        PathIs(s, i, full);
        PathFits(buf[..], buf.Length, p, pdepth, full);
        if pdepth < depth + 1 {
          return NOSPACE;
        }
        Terminate(buf, p, full);
        return 0;
      }
      ghost var k0, depth0, offset0 := k, depth, offset;
      assert k < i;
      var next;
      next, depth, k := FdtNextNode(s, offset, depth, k);
      StillInside(s, k0, k, i, depth0, next, depth, t);
      NextOpen(cs, strs, k0, k, depth0, next, depth);
      OffsetsInBlock(s, k, i);
      offset := next;
    }
    assert false;
  }

  lemma StartOpen(cs: chunks, strs: bytes)
    ensures OpenAt(cs, strs, 0) == [] && ChunkDepth(cs, strs, 0, 0) == 0
  {
    assert cs[..0] == [] && cs[0..0] == [];
  }

  lemma PrintedNone(b: bytes)
    ensures Printed(b, |b|, 0, 0, [])
  {
    TextNone([]);
  }

  lemma TextNone(names: seq<bytes>)
    requires names == []
    ensures Text(names) == []
  {
  }

  lemma NameSlashFree(cs: chunks, k: nat)
    requires NamesSlashFree(cs) && k < |cs| && TokenOf(cs[k]).Some? && TokenOf(cs[k]).value.Begin?
    ensures SLASH !in TokenOf(cs[k]).value.name
  {
    hide TokenOf;
    assert ChunkSlashFree(cs[k]);
  }

  lemma PushName(above: seq<bytes>, name: bytes)
    ensures Text(above + [name]) == Text(above) + name + [SLASH]
    ensures forall j :: 0 <= j <= |above| ==> (above + [name])[..j] == above[..j]
    ensures (above + [name])[..|above| + 1] == above + [name]
    ensures above[..|above|] == above
  {
    hide Text;
    TextNext(above, name);
  }

  // memcpy of the name and the slash after it.
  method PutName(buf: array<byte>, p: nat, name: bytes)
    requires p + |name| + 1 <= buf.Length
    modifies buf
    ensures buf[..p + |name| + 1] == old(buf[..p]) + name + [SLASH]
  {
    ghost var was := buf[..];
    MemCpy(buf, p, name);
    PutBefore(was, p, name, 0, p);
    PutSame(was, p, name);
    ghost var now := buf[..];
    buf[p + |name|] := SLASH;
    assert buf[..p + |name| + 1] == now[0..p] + now[p..p + |name|] + [SLASH];
  }

  lemma SameChunk(s: bytes, k: nat, i: nat)
    requires Walkable(s) && k <= |Chunks(s)| && i <= |Chunks(s)| && Off(Chunks(s), k) == Off(Chunks(s), i)
    ensures k == i
  {
    hide TokenOf, Off, Walk;
    OffInjective(Chunks(s), k, i);
  }

  lemma PathIs(s: bytes, i: nat, full: seq<bytes>)
    requires Readable(s) && i < |Chunks(s)| && TokenOf(Chunks(s)[i]).Some? && TokenOf(Chunks(s)[i]).value.Begin?
    requires full == OpenAt(Chunks(s), StringBlock(s), i) + [TokenOf(Chunks(s)[i]).value.name]
    ensures forall c, n :: NodeHere(s, i, c, n) ==> full == NamesOf(c, n)
  {
    hide Walk, Decodes, EventsOf, TokenOf, OpenNames, Pre;
    forall c, n | NodeHere(s, i, c, n) ensures full == NamesOf(c, n) {
      NodeEvents(Chunks(s), StringBlock(s), i, c, n);
      AboveIsOpen([], c);
      assert [] + Pre(c) == Pre(c);
      NothingOpen();
      assert [] + Above(c) == Above(c);
    }
  }

  lemma NothingOpen()
    ensures OpenNames([]) == []
  {
  }

  lemma TextFits(full: seq<bytes>, pdepth: nat)
    requires pdepth < |full|
    ensures |Text(full[..pdepth + 1])| <= |Text(full)|
  {
    hide Text;
    TextPrefix(full, pdepth + 1);
  }
}
