// The tag and node walkers of fdt.c and fdt_wip.c: loops over offsets, proved
// against the chunk list of the blob they walk.
module FdtWalk {
  import opened ByteStrings
  import opened FdtFormat
  import opened FdtTree
  import opened FdtBlob
  import opened FdtNode

  // A blob whose structure block the tag walk reads to its end.
  ghost predicate Walkable(s: bytes) {
    Readable(s) && Decodes(StructBlock(s), Chunks(s))
  }

  // fdt_next_tag.
  method FdtNextTag(s: bytes, startoffset: int32) returns (tag: nat, next: int)
    requires InBounds(s) && Hdr(s, VERSION) >= 17
    ensures (tag, next) == NextTag(StructBlock(s), startoffset)
  {
    hide Align4, StructBlock, InStruct;
    var st := StructBlock(s);
    InStructMeans(st, startoffset, 4);
    if !InStruct(st, startoffset, 4) {
      return FDT_END, TRUNCATED;
    }
    tag := Be32(st, startoffset);
    var offset := startoffset + 4;
    if tag == FDT_BEGIN_NODE {
      InStructMeans(st, offset, 1);
      while InStruct(st, offset, 1) && st[offset] != 0
        invariant startoffset + 4 <= offset <= |st|
        invariant InStruct(st, offset, 1) <==> offset + 1 <= |st|
        invariant SkipName(st, offset) == SkipName(st, startoffset + 4)
        decreases |st| - offset
      {
        offset := offset + 1;
        InStructMeans(st, offset, 1);
      }
      if !InStruct(st, offset, 1) {
        return FDT_END, BADSTRUCTURE;
      }
      offset := offset + 1;
    } else if tag == FDT_PROP {
      InStructMeans(st, offset, 4);
      if !InStruct(st, offset, 4) {
        return FDT_END, BADSTRUCTURE;
      }
      offset := (offset + 8 + Be32(st, offset)) % WORD;
    } else if tag != FDT_END && tag != FDT_END_NODE && tag != FDT_NOP {
      return FDT_END, BADSTRUCTURE;
    }
    if !InStruct(st, startoffset, (offset - startoffset) % WORD) {
      return FDT_END, BADSTRUCTURE;
    }
    next := Align4(offset);
  }

  // offset is where chunk i, a node's opening tag, starts.
  ghost predicate OnNode(s: bytes, i: nat, offset: int)
    requires Readable(s)
  {
    var cs := Chunks(s);
    i < |cs| && TokenOf(cs[i]).Some? && TokenOf(cs[i]).value.Begin? && Off(cs, i) == offset
  }

  ghost predicate Refused(s: bytes, offset: int32)
    requires Readable(s)
  {
    CheckNodeOffset(StructBlock(s), offset) < 0
  }

  lemma StepFrom(s: bytes, k: nat)
    requires Walkable(s) && k <= |Chunks(s)|
    ensures var (st, cs) := (StructBlock(s), Chunks(s));
            && Off(cs, k) < INT_LIMIT && Off(cs, k) % 4 == 0 && Off(cs, k) + 4 <= |st|
            && (k < |cs| ==> TokenOf(cs[k]).Some? && Off(cs, k) < Off(cs, k + 1)
                             && NextTag(st, Off(cs, k)) == (TagOf(TokenOf(cs[k]).value), Off(cs, k + 1)))
            && (k == |cs| ==> NextTag(st, Off(cs, k)) == (FDT_END, Off(cs, k) + 4))
  {
    hide TokenOf, NextTag, StructBlock, CheckHeader, Flat, Hdr;
    NextTagWalks(StructBlock(s), Chunks(s), k);
    if k < |Chunks(s)| {
      OffMonotone(Chunks(s), k, k + 1);
    }
  }

  lemma OnNodeNotRefused(s: bytes, i: nat, offset: int32)
    requires Walkable(s) && OnNode(s, i, offset)
    ensures CheckNodeOffset(StructBlock(s), offset) == Off(Chunks(s), i + 1)
  {
    hide TokenOf, NextTag;
    StepFrom(s, i);
  }

  // No node opens from chunk j up to k, and depth stays at or above zero.
  ghost predicate PassedFrom(cs: chunks, strs: bytes, j: nat, k: nat, depth: int) {
    && j <= k <= |cs|
    && (forall x {:trigger cs[x]} :: j <= x < k ==> TokenOf(cs[x]).Some? && !TokenOf(cs[x]).value.Begin?)
    && (forall x {:trigger ChunkDepth(cs, strs, j, x)} :: j <= x <= k ==> depth + ChunkDepth(cs, strs, j, x) >= 0)
  }

  // What fdt_next_node finds from chunk j on: the next opening tag at chunk k,
  // or the closing tag that takes the depth below zero, or nothing.
  ghost predicate NextFrom(cs: chunks, strs: bytes, j: nat, k: nat, depth: int, r: int, d: int) {
    && PassedFrom(cs, strs, j, k, depth)
    && if k == |cs| then r == NOTFOUND
       else
         && TokenOf(cs[k]).Some?
         && d == depth + ChunkDepth(cs, strs, j, k + 1)
         && ((TokenOf(cs[k]).value.Begin? && r == Off(cs, k) && d > 0)
             || (TokenOf(cs[k]).value.Close? && r == Off(cs, k + 1) && d == -1))
  }

  // The same behind the opening tag of chunk i.
  ghost predicate PassedTo(cs: chunks, strs: bytes, i: nat, k: nat, depth: int) {
    PassedFrom(cs, strs, i + 1, k, depth)
  }

  ghost predicate NextIs(cs: chunks, strs: bytes, i: nat, k: nat, depth: int, r: int, d: int) {
    NextFrom(cs, strs, i + 1, k, depth, r, d)
  }

  // fdt_next_node, with a depth to update.  A negative offset starts the walk at
  // the first tag.
  method FdtNextNode(s: bytes, offset: int32, depth: int, ghost i: nat)
    returns (r: int32, d: int, ghost k: nat)
    requires Walkable(s)
    requires OnNode(s, i, offset) || Refused(s, offset)
    requires depth >= 0
    ensures offset < 0 ==> NextFrom(Chunks(s), StringBlock(s), 0, k, depth, r, d)
    ensures offset >= 0 && Refused(s, offset) ==> r == BADOFFSET && d == depth
    ensures OnNode(s, i, offset) ==> NextIs(Chunks(s), StringBlock(s), i, k, depth, r, d)
  {
    hide TokenOf, NextTag, EventsOf, Decodes, Be32, Walk, NextFrom;
    assert OnNode(s, i, offset) ==> !Refused(s, offset) by {
      if OnNode(s, i, offset) {
        OnNodeNotRefused(s, i, offset);
      }
    }
    StepFrom(s, 0);
    FirstOff(Chunks(s));
    var next: int := 0;
    if offset >= 0 {
      if offset % 4 != 0 {
        return BADOFFSET, depth, 0;
      }
      var tag;
      tag, next := FdtNextTag(s, offset);
      if tag != FDT_BEGIN_NODE {
        return BADOFFSET, depth, 0;
      }
      CheckedOffset(StructBlock(s), offset);
      assert OnNode(s, i, offset);
      StepFrom(s, i);
      StepFrom(s, i + 1);
    }
    r, d, k := NextOpening(s, next, depth, if offset < 0 then 0 else i + 1);
  }

  lemma FirstOff(cs: chunks)
    ensures Off(cs, 0) == 0
  {
    assert cs[..0] == [];
  }

  // The loop of fdt_next_node, from the tag of chunk j on.
  method NextOpening(s: bytes, start: int32, depth: int, ghost j: nat) returns (r: int32, d: int, ghost k: nat)
    requires Walkable(s) && j <= |Chunks(s)| && start == Off(Chunks(s), j) && depth >= 0
    ensures NextFrom(Chunks(s), StringBlock(s), j, k, depth, r, d)
  {
    hide TokenOf, NextTag, EventsOf, Decodes, Be32, Walk;
    ghost var (cs, strs) := (Chunks(s), StringBlock(s));
    d, k := depth, j;
    var next: int := start;
    StepFrom(s, k);
    ChunkDepthNone(cs, strs, k);
    while true
      invariant j <= k <= |cs| && next == Off(cs, k)
      invariant PassedFrom(cs, strs, j, k, depth)
      invariant d == depth + ChunkDepth(cs, strs, j, k)
      decreases |cs| - k
    {
      StepFrom(s, k);
      var here := next;
      var tag;
      tag, next := FdtNextTag(s, here);
      if tag == FDT_END {
        return NOTFOUND, d, k;
      }
      ChunkDepthNext(cs, strs, j, k);
      TokenDepth(cs[k], strs);
      StepFrom(s, k + 1);
      if tag == FDT_BEGIN_NODE {
        d := d + 1;
        return here, d, k;
      }
      if tag == FDT_END_NODE {
        d := d - 1;
        if d < 0 {
          return next, d, k;
        }
      }
      k := k + 1;
    }
  }

  lemma CheckedOffset(st: bytes, offset: int32)
    requires |st| < INT_LIMIT
    requires offset >= 0 && offset % 4 == 0 && NextTag(st, offset).0 == FDT_BEGIN_NODE
    ensures CheckNodeOffset(st, offset) >= 0
  {
    InStructMeans(st, offset, 4);
  }

  lemma ChunkDepthNone(cs: chunks, strs: bytes, i: nat)
    requires i <= |cs|
    ensures ChunkDepth(cs, strs, i, i) == 0
  {
    assert cs[i..i] == [];
  }

  lemma TokenDepth(c: bytes, strs: bytes)
    requires TokenOf(c).Some?
    ensures Depth(ChunkEvents(c, strs)) == match TokenOf(c).value
                                           case Begin(_) => 1
                                           case Close => -1
                                           case _ => 0
  {
    hide TokenOf, StrAt;
    var evs := ChunkEvents(c, strs);
    if evs != [] {
      assert evs[1..] == [];
    }
  }

  // The depth at a chunk, counted from the node's own opening tag.
  lemma DepthFromNode(cs: chunks, strs: bytes, i: nat, x: nat)
    requires i < x <= |cs| && TokenOf(cs[i]).Some? && TokenOf(cs[i]).value.Begin?
    ensures ChunkDepth(cs, strs, i, x) == 1 + ChunkDepth(cs, strs, i + 1, x)
  {
    hide TokenOf;
    assert cs[i..x] == [cs[i]] + cs[i + 1..x];
    EventsOfCat([cs[i]], cs[i + 1..x], strs);
    EventsOfOne(cs[i], strs);
    DepthCat(ChunkEvents(cs[i], strs), EventsOf(cs[i + 1..x], strs));
    TokenDepth(cs[i], strs);
  }

  lemma DepthSplit(cs: chunks, strs: bytes, i: nat, j: nat, x: nat)
    requires i <= j <= x <= |cs|
    ensures ChunkDepth(cs, strs, i, x) == ChunkDepth(cs, strs, i, j) + ChunkDepth(cs, strs, j, x)
  {
    assert cs[i..x] == cs[i..j] + cs[j..x];
    EventsOfCat(cs[i..j], cs[j..x], strs);
    DepthCat(EventsOf(cs[i..j], strs), EventsOf(cs[j..x], strs));
  }

  // A node of a tree closes: scanning on never runs out of chunks first.
  lemma NodeCloses(cs: chunks, strs: bytes, i: nat, c: Ctx, n: Tree)
    requires NodeChunk(cs, strs, i, c)
    requires EventsOf(cs, strs) == Events(Plug(c, n))
    ensures exists x :: i < x <= |cs| && ChunkDepth(cs, strs, i, x) <= 0
  {
    hide TokenOf, EventsOf, Pre, Post, Plug, Depth;
    NodeEvents(cs, strs, i, c, n);
    var whole := EventsOf(cs[i..], strs);
    assert cs[i..|cs|] == cs[i..];
    var x := |cs|;
    if |whole| > |Events(n)| {
      x := Reaches(cs, strs, i, |cs|, |Events(n)|);
      assert cs[i..] == cs[i..x] + cs[x..];
      EventsOfCat(cs[i..x], cs[x..], strs);
    }
    assert EventsOf(cs[i..x], strs) == whole[..|Events(n)|] == Events(n)[..|Events(n)|];
    NodeDepth(n, |Events(n)|);
    assert ChunkDepth(cs, strs, i, x) == 0;
  }

  // All of the node's chunks before k lie inside it.
  ghost predicate Inside(cs: chunks, strs: bytes, i: nat, k: nat) {
    && i <= k <= |cs|
    && forall x {:trigger ChunkDepth(cs, strs, i, x)} :: i < x <= k ==> ChunkDepth(cs, strs, i, x) > 0
  }

  // One fdt_next_node step from chunk k inside the node at chunk i.
  lemma StepInside(cs: chunks, strs: bytes, i: nat, k: nat, k': nat, depth: int, r: int, d: int)
    requires i < |cs| && TokenOf(cs[i]).Some? && TokenOf(cs[i]).value.Begin?
    requires Inside(cs, strs, i, k) && k < |cs| && TokenOf(cs[k]).Some? && TokenOf(cs[k]).value.Begin?
    requires depth == ChunkDepth(cs, strs, i, k)
    requires NextIs(cs, strs, k, k', depth, r, d)
    ensures Inside(cs, strs, i, k')
    ensures k' < |cs| && r == Off(cs, k') && d > 0 ==> d == ChunkDepth(cs, strs, i, k')
    ensures k' < |cs| && d == -1 ==> NodeEnd(cs, strs, i, k' + 1)
  {
    hide TokenOf, EventsOf, Off;
    forall x | i < x <= k' ensures ChunkDepth(cs, strs, i, x) > 0 {
      if x > k {
        DepthSplit(cs, strs, i, k, x);
        DepthFromNode(cs, strs, k, x);
      }
    }
    if k' < |cs| {
      DepthSplit(cs, strs, i, k, k');
      DepthFromNode(cs, strs, k, k');
      DepthSplit(cs, strs, i, k, k' + 1);
      DepthFromNode(cs, strs, k, k' + 1);
      ChunkDepthNext(cs, strs, i, k');
      TokenDepth(cs[k'], strs);
    }
  }

  // offset is a node of the blob's tree, or one the node check turns away.
  ghost predicate NodeOrRefused(s: bytes, i: nat, offset: int32)
    requires Readable(s)
  {
    Refused(s, offset) || (OnNode(s, i, offset) && exists c, n :: NodeHere(s, i, c, n))
  }

  // Chunk i opens n in a blob that denotes the whole of c around n.
  ghost predicate NodeHere(s: bytes, i: nat, c: Ctx, n: Tree)
    requires Readable(s)
  {
    && BlocksDenote(StructBlock(s), StringBlock(s), Chunks(s), Plug(c, n))
    && NodeChunk(Chunks(s), StringBlock(s), i, c)
  }

  // Every opening tag the walk meets is a node of the tree, in its own place.
  lemma OpeningTagIsNode(s: bytes, i: nat, t: Tree) returns (c: Ctx, n: Tree)
    requires Denotes(s, t) && i < |Chunks(s)|
    requires TokenOf(Chunks(s)[i]).Some? && TokenOf(Chunks(s)[i]).value.Begin?
    ensures Plug(c, n) == t && NodeHere(s, i, c, n)
  {
    hide TokenOf, Decodes, Walk, EventsOf, Events, Pre;
    var (cs, strs) := (Chunks(s), StringBlock(s));
    EventsOfSplit(cs, i, strs);
    EventsOfNext(cs, i, strs);
    var k := |EventsOf(cs[..i], strs)|;
    assert Events(t)[k] == (ChunkEvents(cs[i], strs) + EventsOf(cs[i + 1..], strs))[0];
    c, n := Locate(t, k);
    assert Events(t)[..k] == EventsOf(cs[..i], strs);
  }

  // _fdt_node_end_offset.
  method FdtNodeEndOffset(s: bytes, nodeoffset: int32, ghost i: nat)
    returns (offset: int32, ghost j: nat)
    requires Walkable(s) && NodeOrRefused(s, i, nodeoffset)
    ensures Refused(s, nodeoffset) ==> offset == if nodeoffset < 0 then nodeoffset else BADOFFSET
    ensures OnNode(s, i, nodeoffset) ==>
              NodeEnd(Chunks(s), StringBlock(s), i, j) && offset == Off(Chunks(s), j)
  {
    hide TokenOf, EventsOf, Off, Depth, Decodes, Flat, NextTag, Walk;
    ghost var (cs, strs) := (Chunks(s), StringBlock(s));
    var depth := 0;
    ghost var k := i;
    offset := nodeoffset;
    j := 0;
    if OnNode(s, i, nodeoffset) {
      OnNodeNotRefused(s, i, nodeoffset);
      OnNodeAligned(s, i, nodeoffset);
      ChunkDepthNone(cs, strs, i);
    }
    while offset >= 0 && depth >= 0
      invariant Refused(s, nodeoffset) ==>
                  (offset == nodeoffset && depth == 0) || (offset == BADOFFSET && nodeoffset >= 0)
      invariant OnNode(s, i, nodeoffset) && depth >= 0 && offset >= 0 ==>
                  OnNode(s, k, offset) && Inside(cs, strs, i, k) && depth == ChunkDepth(cs, strs, i, k)
      invariant OnNode(s, i, nodeoffset) && depth >= 0 ==> offset >= 0
      invariant OnNode(s, i, nodeoffset) && depth < 0 ==>
                  NodeEnd(cs, strs, i, j) && offset == Off(cs, j)
      decreases if offset < 0 || depth < 0 then 0 else 1, |cs| - k
    {
      ghost var k0, depth0 := k, depth;
      offset, depth, k := FdtNextNode(s, offset, depth, k);
      if OnNode(s, i, nodeoffset) {
        StepInside(cs, strs, i, k0, k, depth0, offset, depth);
        if k == |cs| {
          var c, n :| NodeHere(s, i, c, n);
          NodeCloses(cs, strs, i, c, n);
        }
        if depth == -1 {
          j := k + 1;
        }
        StepFrom(s, k);
      }
    }
  }

  lemma NotBoth(s: bytes, i: nat, nodeoffset: int32)
    requires Walkable(s)
    ensures OnNode(s, i, nodeoffset) ==> !Refused(s, nodeoffset)
  {
    hide Off, TokenOf, Walk, Decodes;
    if OnNode(s, i, nodeoffset) {
      OnNodeNotRefused(s, i, nodeoffset);
    }
  }

  lemma OnNodeAligned(s: bytes, i: nat, offset: int32)
    requires Walkable(s) && OnNode(s, i, offset)
    ensures 0 <= offset && offset % 4 == 0
  {
    StepFrom(s, i);
  }

  lemma OffsetsInBlock(s: bytes, i: nat, j: nat)
    requires Walkable(s) && i <= j <= |Chunks(s)|
    ensures Off(Chunks(s), i) <= Off(Chunks(s), j) && Off(Chunks(s), j) + 4 <= |StructBlock(s)|
    ensures Off(Chunks(s), i) % 4 == 0 && Off(Chunks(s), j) % 4 == 0
    ensures (Off(Chunks(s), j) - Off(Chunks(s), i)) % 4 == 0
  {
    hide TokenOf, Off, Walk, Be32;
    OffMonotone(Chunks(s), i, j);
    DiffAligned(Off(Chunks(s), i), Off(Chunks(s), j));
  }

  lemma DiffAligned(a: nat, b: nat)
    requires a % 4 == 0 && b % 4 == 0
    ensures (b - a) % 4 == 0
  {
  }

  // The effect of an edit on the tree: chunks i to j replaced by mid, and the
  // strings block extended by more.
  lemma EditChunks(s: bytes, s': bytes, i: nat, j: nat, mid: chunks, more: bytes)
    requires Walkable(s) && Resolved(Chunks(s), StringBlock(s))
    requires i <= j <= |Chunks(s)|
    requires Readable(s') && StringBlock(s') == StringBlock(s) + more
    requires Chunked(mid) && Resolved(mid, StringBlock(s'))
    requires Off(Chunks(s), i) <= |StructBlock(s)| && Off(Chunks(s), j) <= |StructBlock(s)|
    requires StructBlock(s') == StructBlock(s)[..Off(Chunks(s), i)] + Flat(mid) + StructBlock(s)[Off(Chunks(s), j)..]
    ensures var (cs, strs) := (Chunks(s), StringBlock(s));
            forall t :: Denotes(s', t) <==>
              Events(t) == EventsOf(cs[..i], strs) + EventsOf(mid, StringBlock(s')) + EventsOf(cs[j..], strs)
    ensures Chunks(s') == Chunks(s)[..i] + mid + Chunks(s)[j..]
    ensures Walkable(s') && Resolved(Chunks(s'), StringBlock(s'))
  {
    hide TokenOf, Walk, Be32, ChunkResolved, EventsOf, Flat, CheckHeader, Decodes, Hdr, Chunks;
    var (st, cs, strs, strs') := (StructBlock(s), Chunks(s), StringBlock(s), StringBlock(s'));
    var cs' := cs[..i] + mid + cs[j..];
    DecodesReplace(st, cs, i, j, mid, StructBlock(s'));
    EventsOfGrow(cs, strs, more);
    ResolvedReplace(cs, strs', i, j, mid);
    EventsOfGrow(cs[..i], strs, more);
    EventsOfGrow(cs[j..], strs, more);
    WalkableWhen(s', cs');
    forall t ensures Denotes(s', t) <==>
                     Events(t) == EventsOf(cs[..i], strs) + EventsOf(mid, strs') + EventsOf(cs[j..], strs)
    {
      assert Denotes(s', t) <==> BlocksDenote(StructBlock(s'), strs', cs', t);
    }
  }

  lemma WalkableWhen(s: bytes, cs: chunks)
    requires Readable(s) && Decodes(StructBlock(s), cs)
    ensures Chunks(s) == cs
  {
    WalkIffDecodes(StructBlock(s), cs);
  }
}
