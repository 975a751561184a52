// fdt_rw.c: edits that move the rest of the blob, each proved to be the edit
// of the tree it is named for.
module FdtRw {
  import opened ByteStrings
  import opened Memory
  import opened FdtFormat
  import opened FdtTree
  import opened FdtBlob
  import opened FdtNode
  import opened FdtWalk
  import opened FdtProps
  import opened FdtWip
  import opened FdtSplice
  import opened FdtStrings

  // What an editor may be called with: any buffer the header check turns away,
  // or a finished blob with a node offset that is a node's or is refused.
  ghost predicate Callable(s: bytes, i: nat, nodeoffset: int32) {
    && Buffer(s)
    && (RwCheck(s) == 0 ==>
          Ordered(s) && Walkable(s) && Resolved(Chunks(s), StringBlock(s)) && NodeOrRefused(s, i, nodeoffset))
  }

  // The parts of an ordered blob that no edit of the structure block touches.
  ghost predicate SameFrame(s: bytes, s': bytes) {
    && Ordered(s) && Ordered(s') && |s'| == |s|
    && Hdr(s', OFF_STRUCT) == Hdr(s, OFF_STRUCT) && Hdr(s', OFF_RSVMAP) == Hdr(s, OFF_RSVMAP)
    && Hdr(s', TOTALSIZE) == Hdr(s, TOTALSIZE)
    && s'[HEADER_SIZE..Hdr(s, OFF_STRUCT)] == s[HEADER_SIZE..Hdr(s, OFF_STRUCT)]
  }

  lemma AfterCheck(s: bytes, s1: bytes, i: nat, nodeoffset: int32)
    requires Callable(s, i, nodeoffset) && RwCheck(s) == 0
    requires SameBlocks(s, s1) && Ordered(s1) && s1[HEADER_SIZE..] == s[HEADER_SIZE..]
    ensures Editable(s1, i, nodeoffset) && SameFrame(s, s1)
    ensures Refused(s1, nodeoffset) == Refused(s, nodeoffset)
    ensures OnNode(s1, i, nodeoffset) == OnNode(s, i, nodeoffset)
    ensures Chunks(s1) == Chunks(s) && DataSize(s1) == DataSize(s)
    ensures forall c, n :: NodeHere(s1, i, c, n) == NodeHere(s, i, c, n)
    ensures forall t :: Denotes(s, t) == Denotes(s1, t)
  {
    hide Be32, TokenOf, Walk, EventsOf, Events, CheckHeader, NextTag, Decodes, Resolved;
    SlicePastHeader(s, s1, HEADER_SIZE, Hdr(s, OFF_STRUCT));
    if !Refused(s, nodeoffset) {
      var c, n :| NodeHere(s, i, c, n);
      assert NodeHere(s1, i, c, n);
    }
  }

  // One splice of whole chunks, tree side: chunks j to k leave the block.
  lemma ChunksGone(s: bytes, j: nat, k: nat, s': bytes)
    requires Ordered(s) && Walkable(s) && Resolved(Chunks(s), StringBlock(s))
    requires j <= k <= |Chunks(s)|
    requires Off(Chunks(s), j) <= Off(Chunks(s), k) <= |StructBlock(s)|
    requires StructSpliced(s, s', Off(Chunks(s), j), Off(Chunks(s), k) - Off(Chunks(s), j), 0)
    ensures forall t :: Denotes(s', t) <==>
              Events(t) == EventsOf(Chunks(s)[..j], StringBlock(s)) + EventsOf(Chunks(s)[k..], StringBlock(s))
  {
    hide TokenOf, Walk, Be32, ChunkResolved, EventsOf, Flat, Hdr, CheckHeader, Decodes, Separate, Off, Chunks;
    var (st, cs, strs) := (StructBlock(s), Chunks(s), StringBlock(s));
    var (oj, ok) := (Off(cs, j), Off(cs, k));
    assert strs + [] == strs;
    var st' := StructBlock(s');
    assert st' == st'[..oj] + st'[oj..];
    FlatNone();
    assert st[..oj] + [] + st[ok..] == st[..oj] + st[ok..];
    EditChunks(s, s', j, k, [], []);
    EventsOfNone([], strs);
    assert EventsOf(cs[..j], strs) + [] == EventsOf(cs[..j], strs);
  }

  // fdt_delprop.
  method DelProp(a: array<byte>, nodeoffset: int32, name: bytes, ghost i: nat) returns (err: int)
    requires Callable(a[..], i, nodeoffset) && name != []
    modifies a
    ensures RwCheck(old(a[..])) != 0 ==> err == RwCheck(old(a[..])) && a[..] == old(a[..])
    ensures RwCheck(old(a[..])) == 0 ==>
              && SameFrame(old(a[..]), a[..])
              && (err != 0 ==> forall t :: Denotes(old(a[..]), t) ==> Denotes(a[..], t))
              && (Refused(old(a[..]), nodeoffset) ==> err == BADOFFSET)
    ensures RwCheck(old(a[..])) == 0 && OnNode(old(a[..]), i, nodeoffset) ==>
              forall c, n :: NodeHere(old(a[..]), i, c, n) ==>
                if FindProp(n.items, name) == None then err == NOTFOUND
                else err == 0 && Denotes(a[..], Plug(c, WithoutProp(n, name)))
  {
    hide TokenOf, Walk, Be32, ChunkResolved, EventsOf, Decodes, Off, NextTag, Put, Flat, Chunks;
    hide CheckHeader, Align4, SplicedStruct, Misordered, Separate;
    ghost var s0 := a[..];
    err := RwCheckHeader(a);
    if err != 0 {
      return;
    }
    ghost var s := a[..];
    AfterCheck(s0, s, i, nodeoffset);
    var prop, len;
    ghost var k;
    prop, len, k := FdtGetProperty(a[..], nodeoffset, name, i);
    if prop == -1 {
      if OnNode(s, i, nodeoffset) {
        NoSuchProp(s, i, k, name);
      }
      return len;
    }
    err := CutProp(a, prop, len, name, i, k);
  }

  // The property chunk k, of the given length, out of the block.
  method CutProp(a: array<byte>, prop: nat, len: nat, ghost name: bytes, ghost i: nat, ghost k: nat) returns (err: int)
    requires Ordered(a[..]) && Walkable(a[..]) && Resolved(Chunks(a[..]), StringBlock(a[..]))
    requires PropChunk(Chunks(a[..]), StringBlock(a[..]), name, i, k)
    requires prop == Off(Chunks(a[..]), k) && len == |TokenOf(Chunks(a[..])[k]).value.value|
    modifies a
    ensures err == 0 && SameFrame(old(a[..]), a[..])
    ensures forall c, n :: NodeHere(old(a[..]), i, c, n) ==>
              FindProp(n.items, name).Some? && Denotes(a[..], Plug(c, WithoutProp(n, name)))
  {
    hide TokenOf, Walk, Be32, EventsOf, Decodes, Off, Put, Flat, Chunks, CheckHeader, Align4, SplicedStruct, Separate;
    ghost var s := a[..];
    PropFields(s, k);
    var p := Hdr(a[..], OFF_STRUCT) + prop;
    var proplen := 12 + Align4(len);
    err := SpliceStruct(a, p, proplen, 0);
    PropDeleted(s, i, k, name, a[..]);
  }

  lemma PropDeleted(s: bytes, i: nat, k: nat, name: bytes, s': bytes)
    requires Ordered(s) && Walkable(s) && Resolved(Chunks(s), StringBlock(s))
    requires PropChunk(Chunks(s), StringBlock(s), name, i, k)
    requires var (o, n) := (Off(Chunks(s), k), 12 + Align4(|TokenOf(Chunks(s)[k]).value.value|));
             && o + n == Off(Chunks(s), k + 1) <= |StructBlock(s)|
             && s' == SplicedStruct(s, Hdr(s, OFF_STRUCT) + o, n, 0)
    ensures SameFrame(s, s')
    ensures forall c, n :: NodeHere(s, i, c, n) ==>
              FindProp(n.items, name).Some? && Denotes(s', Plug(c, WithoutProp(n, name)))
  {
    hide TokenOf, Walk, Be32, ChunkResolved, EventsOf, Decodes, Off, Flat, Chunks, CheckHeader, SplicedStruct;
    hide Align4, Misordered, Separate;
    var (o, n) := (Off(Chunks(s), k), 12 + Align4(|TokenOf(Chunks(s)[k]).value.value|));
    SpliceStructEffect(s, Hdr(s, OFF_STRUCT) + o, n, 0, s');
    PropGone(s, i, k, name, s');
  }

  lemma PropGone(s: bytes, i: nat, k: nat, name: bytes, s': bytes)
    requires Ordered(s) && Walkable(s) && Resolved(Chunks(s), StringBlock(s))
    requires PropChunk(Chunks(s), StringBlock(s), name, i, k)
    requires Off(Chunks(s), k) <= Off(Chunks(s), k + 1) <= |StructBlock(s)|
    requires StructSpliced(s, s', Off(Chunks(s), k), Off(Chunks(s), k + 1) - Off(Chunks(s), k), 0)
    ensures forall c, n :: NodeHere(s, i, c, n) ==>
              FindProp(n.items, name).Some? && Denotes(s', Plug(c, WithoutProp(n, name)))
  {
    hide TokenOf, Walk, Be32, ChunkResolved, EventsOf, Decodes, Off, Flat, Chunks, CheckHeader, Misordered, Separate;
    ChunksGone(s, k, k + 1, s');
    forall c, n | NodeHere(s, i, c, n)
      ensures FindProp(n.items, name).Some? && Denotes(s', Plug(c, WithoutProp(n, name)))
    {
      FoundProp(Chunks(s), StringBlock(s), name, i, k, c, n);
    }
  }

  // fdt_del_node.
  method DelNode(a: array<byte>, nodeoffset: int32, ghost i: nat) returns (err: int)
    requires Callable(a[..], i, nodeoffset)
    modifies a
    ensures RwCheck(old(a[..])) != 0 ==> err == RwCheck(old(a[..])) && a[..] == old(a[..])
    ensures RwCheck(old(a[..])) == 0 ==>
              && SameFrame(old(a[..]), a[..])
              && (Refused(old(a[..]), nodeoffset) ==>
                    && err == (if nodeoffset < 0 then nodeoffset else BADOFFSET)
                    && forall t :: Denotes(old(a[..]), t) ==> Denotes(a[..], t))
    ensures RwCheck(old(a[..])) == 0 && OnNode(old(a[..]), i, nodeoffset) ==>
              && err == 0
              && forall c, n :: NodeHere(old(a[..]), i, c, n) ==> TreeWithout(a[..], c)
  {
    hide TokenOf, Walk, Be32, ChunkResolved, EventsOf, Decodes, Off, NextTag, Put, Flat, Chunks;
    hide CheckHeader, Align4, SplicedStruct, Misordered, Separate, Cut, Pre, Post;
    ghost var s0 := a[..];
    err := RwCheckHeader(a);
    if err != 0 {
      return;
    }
    ghost var s := a[..];
    AfterCheck(s0, s, i, nodeoffset);
    var endoffset;
    ghost var j;
    endoffset, j := FdtNodeEndOffset(a[..], nodeoffset, i);
    if endoffset < 0 {
      return endoffset;
    }
    OnNodeNotRefused(s, i, nodeoffset);
    err := CutNode(a, nodeoffset, endoffset, i, j);
  }

  // The chunks i to j of a node, out of the block.
  method CutNode(a: array<byte>, offset: nat, endoffset: nat, ghost i: nat, ghost j: nat) returns (err: int)
    requires Ordered(a[..]) && Walkable(a[..]) && Resolved(Chunks(a[..]), StringBlock(a[..]))
    requires NodeEnd(Chunks(a[..]), StringBlock(a[..]), i, j)
    requires offset == Off(Chunks(a[..]), i) && endoffset == Off(Chunks(a[..]), j)
    modifies a
    ensures err == 0 && SameFrame(old(a[..]), a[..])
    ensures forall c, n :: NodeHere(old(a[..]), i, c, n) ==> TreeWithout(a[..], c)
  {
    hide TokenOf, Walk, Be32, ChunkResolved, EventsOf, Decodes, Off, NextTag, Put, Flat, Chunks;
    hide CheckHeader, Align4, SplicedStruct, Misordered, Separate, Cut, Pre, Post;
    ghost var s := a[..];
    OffsetsInBlock(s, i, j);
    var p := Hdr(a[..], OFF_STRUCT) + offset;
    err := SpliceStruct(a, p, endoffset - offset, 0);
    SpliceStructEffect(s, p, endoffset - offset, 0, a[..]);
    NodeGone(s, i, j, a[..]);
  }

  lemma NodeGone(s: bytes, i: nat, j: nat, s': bytes)
    requires Ordered(s) && Walkable(s) && Resolved(Chunks(s), StringBlock(s))
    requires NodeEnd(Chunks(s), StringBlock(s), i, j)
    requires Off(Chunks(s), i) <= Off(Chunks(s), j) <= |StructBlock(s)|
    requires StructSpliced(s, s', Off(Chunks(s), i), Off(Chunks(s), j) - Off(Chunks(s), i), 0)
    ensures forall c, n :: NodeHere(s, i, c, n) ==> TreeWithout(s', c)
  {
    hide TokenOf, Walk, Be32, ChunkResolved, EventsOf, Decodes, Off, Flat, Chunks, CheckHeader, Separate, TreeWithout;
    hide Denotes;
    ChunksGone(s, i, j, s');
    NodeErased(s, s', i, j);
  }

  // A property header read back from the block makes a property chunk of the
  // bytes that follow it, whatever they are.
  lemma PropChunkBuilt(st: bytes, o: nat, len: nat, nameoff: nat)
    requires o + 12 + Align4(len) <= |st|
    requires Be32(st, o) == FDT_PROP && Be32(st, o + 4) == len && Be32(st, o + 8) == nameoff
    ensures TokenOf(st[o..o + 12 + Align4(len)]) == Some(Prop(nameoff, st[o + 12..o + 12 + len]))
  {
    hide Align4, Word;
    var c := st[o..o + 12 + Align4(len)];
    SliceOfSlice(st, o, o + |c|, 0, 4);
    Be32OfSlice(st, o, c, 0);
    SliceOfSlice(st, o, o + |c|, 4, 8);
    Be32OfSlice(st, o + 4, c, 4);
    SliceOfSlice(st, o, o + |c|, 8, 12);
    Be32OfSlice(st, o + 8, c, 8);
    SliceOfSlice(st, o, o + |c|, 12, 12 + len);
  }

  // Where a property of this name goes: over the chunk that holds it, or right
  // after the node's tag.
  ghost predicate Slot(cs: chunks, strs: bytes, name: bytes, i: nat, j: nat, k: nat) {
    || (PropChunk(cs, strs, name, i, j) && k == j + 1)
    || (j == k == i + 1 <= |cs| && exists x: nat :: OtherProps(cs, strs, name, i, x) && x < |cs| && EndsProps(cs[x]))
  }

  // A property chunk put into that slot sets the property of the node.
  lemma PropPlaced(s: bytes, s': bytes, i: nat, nodeoffset: int32, name: bytes, j: nat, k: nat, c1: bytes, more: bytes)
    requires Editable(s, i, nodeoffset) && OnNode(s, i, nodeoffset)
    requires Slot(Chunks(s), StringBlock(s), name, i, j, k) && j <= |Chunks(s)| && k <= |Chunks(s)|
    requires Readable(s') && Separate(s') && StringBlock(s') == StringBlock(s) + more
    requires IsProp(c1) && ChunkResolved(c1, StringBlock(s'))
    requires NameAt(StringBlock(s'), TokenOf(c1).value.nameoff) == name
    requires Off(Chunks(s), j) <= Off(Chunks(s), k) <= |StructBlock(s)|
    requires StructBlock(s') == StructBlock(s)[..Off(Chunks(s), j)] + c1 + StructBlock(s)[Off(Chunks(s), k)..]
    ensures forall c, n :: NodeHere(s, i, c, n) ==>
              NodeHere(s', i, c, WithProp(n, name, TokenOf(c1).value.value))
    ensures Editable(s', i, nodeoffset) && OnNode(s', i, nodeoffset)
    ensures Chunks(s') == Chunks(s)[..j] + [c1] + Chunks(s)[k..]
    ensures OtherProps(Chunks(s'), StringBlock(s'), name, i, j)
  {
    hide TokenOf, Walk, Be32, ChunkResolved, EventsOf, Flat, CheckHeader, Decodes, Separate, Chunks, StrAt;
    hide NameAt, Off;
    var (cs, strs, strs') := (Chunks(s), StringBlock(s), StringBlock(s'));
    FlatOne(c1);
    EditChunks(s, s', j, k, [c1], more);
    EventsOfOne(c1, strs');
    var v := TokenOf(c1).value.value;
    forall c, n | NodeHere(s, i, c, n) ensures NodeHere(s', i, c, WithProp(n, name, v)) {
      SlotEvents(cs, strs, name, i, j, k, c, n, v);
      PlacedNode(s, s', i, j, k, c1, more, c, n);
    }
    PlacedHere(s, s', i, name, j, k, c1, more);
    OnNodeNotRefused(s, i, nodeoffset);
    var c0, n0 :| NodeHere(s, i, c0, n0);
    assert NodeHere(s', i, c0, WithProp(n0, name, v));
  }

  lemma SlotEvents(cs: chunks, strs: bytes, name: bytes, i: nat, j: nat, k: nat, c: Ctx, n: Tree, v: bytes)
    requires NodeChunk(cs, strs, i, c)
    requires EventsOf(cs, strs) == Events(Plug(c, n))
    requires Slot(cs, strs, name, i, j, k) && j <= |cs| && k <= |cs|
    ensures EventsOf(cs[..j], strs) + [Attr(name, v)] + EventsOf(cs[k..], strs)
            == Events(Plug(c, WithProp(n, name, v)))
  {
    hide TokenOf, EventsOf, Events, Pre;
    if PropChunk(cs, strs, name, i, j) && k == j + 1 {
      FoundProp(cs, strs, name, i, j, c, n);
      var w := WithProp(n, name, v);
    } else {
      var x: nat :| OtherProps(cs, strs, name, i, x) && x < |cs| && EndsProps(cs[x]);
      MissingProp(cs, strs, name, i, x, c, n);
      var w := WithProp(n, name, v);
    }
  }

  // The node is still opened by chunk i, in the same context.
  lemma PlacedNode(s: bytes, s': bytes, i: nat, j: nat, k: nat, c1: bytes, more: bytes, c: Ctx, n: Tree)
    requires Readable(s) && Readable(s') && NodeHere(s, i, c, n) && i < j <= k <= |Chunks(s)|
    requires StringBlock(s') == StringBlock(s) + more
    requires Chunks(s') == Chunks(s)[..j] + [c1] + Chunks(s)[k..]
    ensures NodeChunk(Chunks(s'), StringBlock(s'), i, c)
  {
    hide TokenOf, Walk, Be32, ChunkResolved, EventsOf, CheckHeader, Decodes, Chunks, Events;
    var cs := Chunks(s);
    assert Chunks(s')[..i] == cs[..i];
    EventsOfGrow(cs[..i], StringBlock(s), more);
  }

  lemma PlacedHere(s: bytes, s': bytes, i: nat, name: bytes, j: nat, k: nat, c1: bytes, more: bytes)
    requires Readable(s) && Readable(s') && j <= k <= |Chunks(s)|
    requires Resolved(Chunks(s), StringBlock(s))
    requires Slot(Chunks(s), StringBlock(s), name, i, j, k)
    requires StringBlock(s') == StringBlock(s) + more
    requires Chunks(s') == Chunks(s)[..j] + [c1] + Chunks(s)[k..]
    ensures OtherProps(Chunks(s'), StringBlock(s'), name, i, j)
    ensures i < j && Off(Chunks(s'), i) == Off(Chunks(s), i) && Chunks(s')[i] == Chunks(s)[i]
  {
    hide TokenOf, Walk, Be32, ChunkResolved, CheckHeader, Chunks, StrAt, NameAt, EndsProps;
    var (cs, cs') := (Chunks(s), Chunks(s'));
    assert cs'[..i] == cs[..i];
    forall x | i < x < j ensures IsOther(cs'[x], StringBlock(s'), name) {
      assert cs'[x] == cs[x];
      OtherGrow(cs[x], StringBlock(s), name, more);
    }
  }

  lemma OtherGrow(c: bytes, strs: bytes, name: bytes, more: bytes)
    requires ChunkResolved(c, strs) && IsOther(c, strs, name)
    ensures IsOther(c, strs + more, name)
  {
    hide StrAt;
    match TokenOf(c)
    case Some(Prop(o, _)) => StrAtPrefix(strs, o, more);
    case _ =>
  }

  // The block after a property was resized: its length field is new, its value
  // is whatever the move left there, the rest is as it was.
  lemma ResizedBlock(st: bytes, st2: bytes, o: nat, old_: nat, len: nat, st3: bytes)
    requires len < WORD && o + 12 + Align4(old_) <= |st| && o + 12 + Align4(len) <= |st2|
    requires Be32(st, o) == FDT_PROP
    requires st2[..o + 12] == st[..o + 12]
    requires st2[o + 12 + Align4(len)..] == st[o + 12 + Align4(old_)..]
    requires st3 == Put(st2, o + 4, Enc32(len))
    ensures TokenOf(st3[o..o + 12 + Align4(len)]) == Some(Prop(Be32(st, o + 8), st3[o + 12..o + 12 + len]))
    ensures st3 == st[..o] + st3[o..o + 12 + Align4(len)] + st[o + 12 + Align4(old_)..]
  {
    hide Align4, Be32, Put, TokenOf, Enc32;
    PutSame(st2, o + 4, Enc32(len));
    SliceOfAll(Enc32(len));
    Be32OfSlice(st3, o + 4, Enc32(len), 0);
    KeptWord(st, st2, st3, o, len, o);
    KeptWord(st, st2, st3, o, len, o + 8);
    PropChunkBuilt(st3, o, len, Be32(st, o + 8));
    PutBefore(st2, o + 4, Enc32(len), 0, o);
    SliceOfSlice(st, 0, o + 12, 0, o);
    SliceOfSlice(st2, 0, o + 12, 0, o);
    PutAfter(st2, o + 4, Enc32(len), o + 12 + Align4(len), |st2|);
    ThreeParts(st3, o, o + 12 + Align4(len));
  }

  lemma SliceOfAll(b: bytes)
    requires |b| == 4
    ensures b[0..4] == b
  {
  }

  lemma ThreeParts(s: bytes, i: nat, j: nat)
    requires i <= j <= |s|
    ensures s == s[..i] + s[i..j] + s[j..]
    ensures s[0..i] == s[..i] && s[j..|s|] == s[j..]
  {
  }

  lemma KeptWord(st: bytes, st2: bytes, st3: bytes, o: nat, len: nat, w: nat)
    requires len < WORD && o + 12 <= |st| && o + 12 <= |st2| && (w == o || w == o + 8)
    requires st2[..o + 12] == st[..o + 12]
    requires st3 == Put(st2, o + 4, Enc32(len))
    ensures Be32(st3, w) == Be32(st, w)
  {
    hide Put, Word, Enc32;
    if w == o {
      PutBefore(st2, o + 4, Enc32(len), w, w + 4);
    } else {
      PutAfter(st2, o + 4, Enc32(len), w, w + 4);
    }
    Be32OfSlice(st3, w, st2, w);
    SliceOfSlice(st, 0, o + 12, w, w + 4);
    SliceOfSlice(st2, 0, o + 12, w, w + 4);
    Be32OfSlice(st2, w, st, w);
  }

  // The block after three words of a property header were stored in the gap.
  lemma AddedBlock(st: bytes, st2: bytes, o: nat, len: nat, nameoff: nat, st3: bytes, st4: bytes, st5: bytes)
    requires len < WORD && nameoff < WORD && o <= |st| && o + 12 + Align4(len) <= |st2|
    requires st2[..o] == st[..o]
    requires st2[o + 12 + Align4(len)..] == st[o..]
    requires st3 == Put(st2, o, Enc32(FDT_PROP))
    requires st4 == Put(st3, o + 8, Enc32(nameoff))
    requires st5 == Put(st4, o + 4, Enc32(len))
    ensures TokenOf(st5[o..o + 12 + Align4(len)]) == Some(Prop(nameoff, st5[o + 12..o + 12 + len]))
    ensures st5 == st[..o] + st5[o..o + 12 + Align4(len)] + st[o..]
  {
    hide Align4, Word, Put, TokenOf, Enc32;
    var (b3, b4, b5) := (Enc32(FDT_PROP), Enc32(nameoff), Enc32(len));
    var e := o + 12 + Align4(len);
    PutSame(st2, o, b3);
    PutBefore(st3, o + 8, b4, o, o + 4);
    PutBefore(st4, o + 4, b5, o, o + 4);
    Be32OfSlice(st5, o, b3, 0);
    PutSame(st3, o + 8, b4);
    PutAfter(st4, o + 4, b5, o + 8, o + 12);
    Be32OfSlice(st5, o + 8, b4, 0);
    PutSame(st4, o + 4, b5);
    Be32OfSlice(st5, o + 4, b5, 0);
    PropChunkBuilt(st5, o, len, nameoff);
    PutBefore(st2, o, b3, 0, o);
    PutBefore(st3, o + 8, b4, 0, o);
    PutBefore(st4, o + 4, b5, 0, o);
    PutAfter(st2, o, b3, e, |st2|);
    PutAfter(st3, o + 8, b4, e, |st2|);
    PutAfter(st4, o + 4, b5, e, |st2|);
    assert st5 == st5[0..o] + st5[o..e] + st5[e..|st2|];
  }

  // A store inside the structure block, seen on an ordered blob.
  lemma OrderedStore(s: bytes, o: nat, b: bytes)
    requires Ordered(s) && o + |b| <= |StructBlock(s)|
    ensures var s' := Put(s, Hdr(s, OFF_STRUCT) + o, b);
            && SameFrame(s, s') && Hdr(s', SIZE_STRUCT) == Hdr(s, SIZE_STRUCT) && DataSize(s') == DataSize(s)
            && StructBlock(s') == Put(StructBlock(s), o, b)
            && StringBlock(s') == StringBlock(s)
  {
    hide Be32, Put;
    var p := Hdr(s, OFF_STRUCT) + o;
    StructStore(s, o, b);
    PutBefore(s, p, b, 0, HEADER_SIZE);
    HeaderKept(s, Put(s, p, b));
    PutBefore(s, p, b, HEADER_SIZE, Hdr(s, OFF_STRUCT));
  }

  // A property of that name and length stands at chunk k of the node, with
  // value v for now, and nothing else of the tree has changed.
  ghost predicate PropReady(s: bytes, s': bytes, i: nat, nodeoffset: int32, name: bytes, k: nat, v: bytes) {
    && SameFrame(s, s')
    && Editable(s', i, nodeoffset) && OnNode(s', i, nodeoffset)
    && PropChunk(Chunks(s'), StringBlock(s'), name, i, k)
    && PropValueAt(s', k, |v|)
    && forall c, n :: NodeHere(s, i, c, n) ==> NodeHere(s', i, c, WithProp(n, name, v))
  }

  lemma ReadyWhenPlaced(s: bytes, s': bytes, i: nat, nodeoffset: int32, name: bytes, j: nat, k: nat,
                        c1: bytes, more: bytes)
    requires Editable(s, i, nodeoffset) && OnNode(s, i, nodeoffset) && SameFrame(s, s')
    requires Slot(Chunks(s), StringBlock(s), name, i, j, k) && j <= |Chunks(s)| && k <= |Chunks(s)|
    requires StringBlock(s') == StringBlock(s) + more
    requires IsProp(c1) && ChunkResolved(c1, StringBlock(s'))
    requires NameAt(StringBlock(s'), TokenOf(c1).value.nameoff) == name
    requires Off(Chunks(s), j) <= Off(Chunks(s), k) <= |StructBlock(s)|
    requires StructBlock(s') == StructBlock(s)[..Off(Chunks(s), j)] + c1 + StructBlock(s)[Off(Chunks(s), k)..]
    ensures PropReady(s, s', i, nodeoffset, name, j, TokenOf(c1).value.value)
    ensures Off(Chunks(s'), j) == Off(Chunks(s), j)
  {
    hide TokenOf, Walk, Be32, ChunkResolved, EventsOf, Flat, CheckHeader, Decodes, Separate, Chunks, StrAt;
    hide NameAt, Off, Slot;
    PropPlaced(s, s', i, nodeoffset, name, j, k, c1, more);
    var cs' := Chunks(s');
    assert cs'[j] == c1;
    assert cs'[..j] == Chunks(s)[..j];
    SameOff(cs', Chunks(s), j);
    PropFields(s', j);
  }

  lemma SameOff(a: chunks, b: chunks, j: nat)
    requires j <= |a| && j <= |b| && a[..j] == b[..j]
    ensures Off(a, j) == Off(b, j)
  {
  }

  // _fdt_resize_property.
  method ResizeProperty(a: array<byte>, nodeoffset: int32, name: bytes, len: nat, ghost i: nat)
    returns (err: int, prop: int, ghost k: nat, ghost v: bytes)
    requires Ordered(a[..]) && Editable(a[..], i, nodeoffset) && len < INT_LIMIT && name != []
    modifies a
    ensures err != 0 ==> a[..] == old(a[..])
    ensures Refused(old(a[..]), nodeoffset) ==> err == BADOFFSET
    ensures OnNode(old(a[..]), i, nodeoffset) ==>
              var (cs, strs) := (Chunks(old(a[..])), StringBlock(old(a[..])));
              if err == NOTFOUND then OtherProps(cs, strs, name, i, k) && k < |cs| && EndsProps(cs[k])
              else
                && PropChunk(cs, strs, name, i, k)
                && err == (if DataSize(old(a[..])) - Align4(|TokenOf(cs[k]).value.value|) + Align4(len)
                              > Hdr(old(a[..]), TOTALSIZE) then NOSPACE else 0)
    ensures err == 0 ==>
              && PropReady(old(a[..]), a[..], i, nodeoffset, name, k, v) && |v| == len
              && prop == Off(Chunks(a[..]), k)
  {
    hide TokenOf, Walk, Be32, ChunkResolved, EventsOf, Decodes, Off, NextTag, Put, Flat, Chunks, NameAt;
    hide CheckHeader, Align4, SplicedStruct, Misordered, Separate;
    ghost var s := a[..];
    v := [];
    var oldlen;
    prop, oldlen, k := FdtGetProperty(a[..], nodeoffset, name, i);
    if prop == -1 {
      return oldlen, prop, k, v;
    }
    err, v := ResizeValue(a, nodeoffset, name, prop, oldlen, len, i, k);
  }

  // The room for the value of property chunk k resized to len bytes.
  ghost predicate SplicedValue(s: bytes, s2: bytes, k: nat, len: nat)
    requires Ordered(s)
  {
    k < |Chunks(s)| && IsProp(Chunks(s)[k])
    && var (o, old_) := (Off(Chunks(s), k), Align4(|TokenOf(Chunks(s)[k]).value.value|));
    o + 12 + old_ <= |StructBlock(s)| && StructSpliced(s, s2, o + 12, old_, Align4(len))
  }

  // The splice leaves that room, and the header of the property before it.
  lemma ValueSpliced(s: bytes, s2: bytes, k: nat, oldlen: nat, len: nat)
    requires Ordered(s) && k < |Chunks(s)| && IsProp(Chunks(s)[k]) && oldlen == |TokenOf(Chunks(s)[k]).value.value|
    requires Off(Chunks(s), k) + 12 + Align4(oldlen) <= |StructBlock(s)|
    requires DataSize(s) - Align4(oldlen) + Align4(len) <= Hdr(s, TOTALSIZE)
    requires s2 == SplicedStruct(s, Hdr(s, OFF_STRUCT) + Off(Chunks(s), k) + 12, Align4(oldlen), Align4(len))
    ensures SplicedValue(s, s2, k, len) && Ordered(s2) && Hdr(s2, OFF_STRUCT) == Hdr(s, OFF_STRUCT)
    ensures |s2| == |s| && Off(Chunks(s), k) + 12 <= |StructBlock(s2)|
  {
    hide TokenOf, Off, Chunks, Align4, CheckHeader, SplicedStruct, Separate, Be32;
    SpliceStructEffect(s, Hdr(s, OFF_STRUCT) + Off(Chunks(s), k) + 12, Align4(oldlen), Align4(len), s2);
  }

  // The splice for the value of property chunk k and the new length field.
  method ResizeValue(a: array<byte>, ghost nodeoffset: int32, ghost name: bytes, prop: nat, oldlen: nat, len: nat,
                     ghost i: nat, ghost k: nat)
    returns (err: int, ghost v: bytes)
    requires Ordered(a[..]) && Editable(a[..], i, nodeoffset) && OnNode(a[..], i, nodeoffset) && len < INT_LIMIT
    requires PropChunk(Chunks(a[..]), StringBlock(a[..]), name, i, k)
    requires prop == Off(Chunks(a[..]), k) && oldlen == |TokenOf(Chunks(a[..])[k]).value.value|
    modifies a
    ensures err != 0 ==> a[..] == old(a[..])
    ensures err == if DataSize(old(a[..])) - Align4(oldlen) + Align4(len) > Hdr(old(a[..]), TOTALSIZE) then NOSPACE
                   else 0
    ensures err == 0 ==>
              && PropReady(old(a[..]), a[..], i, nodeoffset, name, k, v) && |v| == len
              && prop == Off(Chunks(a[..]), k)
  {
    hide TokenOf, Walk, Be32, ChunkResolved, EventsOf, Decodes, Off, NextTag, Put, Flat, Chunks, NameAt;
    hide CheckHeader, Align4, SplicedStruct, Misordered, Separate, SplicedValue, Hdr;
    ghost var s := a[..];
    v := [];
    PropFields(s, k);
    OffsetsInBlock(s, k, k + 1);
    var p := Hdr(a[..], OFF_STRUCT) + prop + 12;
    err := SpliceStruct(a, p, Align4(oldlen), Align4(len));
    if err != 0 {
      return;
    }
    ghost var s2 := a[..];
    ValueSpliced(s, s2, k, oldlen, len);
    StoreWord(a, Hdr(a[..], OFF_STRUCT) + prop + 4, len);
    v := ResizeDone(s, s2, i, nodeoffset, name, k, len, a[..]);
  }

  lemma ResizeDone(s: bytes, s2: bytes, i: nat, nodeoffset: int32, name: bytes, k: nat, len: nat, s3: bytes)
    returns (v: bytes)
    requires Editable(s, i, nodeoffset) && OnNode(s, i, nodeoffset) && Ordered(s)
    requires PropChunk(Chunks(s), StringBlock(s), name, i, k) && len < WORD
    requires SplicedValue(s, s2, k, len)
    requires Ordered(s2) && Off(Chunks(s), k) + 12 <= |StructBlock(s2)|
    requires s3 == Put(s2, Hdr(s2, OFF_STRUCT) + Off(Chunks(s), k) + 4, Enc32(len))
    ensures |v| == len && PropReady(s, s3, i, nodeoffset, name, k, v)
    ensures Off(Chunks(s3), k) == Off(Chunks(s), k)
  {
    hide TokenOf, Walk, Be32, EventsOf, Decodes, Off, NextTag, Put, Flat, Chunks, CheckHeader, Align4, Separate;
    hide StrAt, ChunkResolved, NameAt;
    OrderedStore(s2, Off(Chunks(s), k) + 4, Enc32(len));
    v := ResizedReady(s, s2, i, nodeoffset, name, k, len, s3);
  }

  lemma ResizedReady(s: bytes, s2: bytes, i: nat, nodeoffset: int32, name: bytes, k: nat, len: nat, s3: bytes)
    returns (v: bytes)
    requires Editable(s, i, nodeoffset) && OnNode(s, i, nodeoffset) && Ordered(s)
    requires PropChunk(Chunks(s), StringBlock(s), name, i, k) && len < WORD
    requires SplicedValue(s, s2, k, len)
    requires Ordered(s3) && SameFrame(s2, s3) && StringBlock(s3) == StringBlock(s2)
    requires Off(Chunks(s), k) + 8 <= |StructBlock(s2)|
    requires StructBlock(s3) == Put(StructBlock(s2), Off(Chunks(s), k) + 4, Enc32(len))
    ensures |v| == len && PropReady(s, s3, i, nodeoffset, name, k, v)
    ensures Off(Chunks(s3), k) == Off(Chunks(s), k)
  {
    hide TokenOf, Walk, Be32, EventsOf, Decodes, Off, NextTag, Put, Flat, Chunks, CheckHeader, Align4, Separate;
    hide StrAt, ChunkResolved, NameAt;
    var (st, o) := (StructBlock(s), Off(Chunks(s), k));
    var t := TokenOf(Chunks(s)[k]).value;
    PropFields(s, k);
    PropTag(s, k);
    ResizedBlock(st, StructBlock(s2), o, |t.value|, len, StructBlock(s3));
    var c1 := StructBlock(s3)[o..o + 12 + Align4(len)];
    v := TokenOf(c1).value.value;
    assert StringBlock(s) + [] == StringBlock(s);
    NewPropResolved(Chunks(s)[k], c1, StringBlock(s), name, v);
    ReadyWhenPlaced(s, s3, i, nodeoffset, name, k, k + 1, c1, []);
  }

  lemma PropTag(s: bytes, k: nat)
    requires Walkable(s) && k < |Chunks(s)| && IsProp(Chunks(s)[k])
    ensures Off(Chunks(s), k) + 4 <= |StructBlock(s)|
    ensures Be32(StructBlock(s), Off(Chunks(s), k)) == FDT_PROP
  {
    hide Walk, Off, Word, Align4, Decodes, TokenOf;
    OffsetsInBlock(s, k, k + 1);
    DecodesAt(StructBlock(s), Chunks(s), k);
    ChunkSize(Chunks(s)[k]);
    TagInBlock(StructBlock(s), Off(Chunks(s), k), Chunks(s)[k]);
  }

  // _fdt_add_property: the name goes into the strings block, the header of the
  // new property right after the node's tag.
  method AddProperty(a: array<byte>, nodeoffset: int32, name: bytes, len: nat, ghost i: nat)
    returns (err: int, prop: int, ghost v: bytes)
    requires Ordered(a[..]) && Editable(a[..], i, nodeoffset) && len < INT_LIMIT && NoNul(name)
    requires OnNode(a[..], i, nodeoffset) ==>
               Slot(Chunks(a[..]), StringBlock(a[..]), name, i, i + 1, i + 1)
    modifies a
    ensures Refused(old(a[..]), nodeoffset) ==> err == BADOFFSET && a[..] == old(a[..])
    ensures OnNode(old(a[..]), i, nodeoffset) ==>
              err == if DataSize(old(a[..])) + |Added(StringBlock(old(a[..])), name)| + 12 + Align4(len)
                          > Hdr(old(a[..]), TOTALSIZE) then NOSPACE else 0
    ensures OnNode(old(a[..]), i, nodeoffset) && err == NOSPACE ==>
              var more := Added(StringBlock(old(a[..])), name);
              if more != [] && DataSize(old(a[..])) + |more| <= Hdr(old(a[..]), TOTALSIZE) then
                Readable(a[..]) && StringBlock(a[..]) == StringBlock(old(a[..])) + more
              else
                a[..] == old(a[..])
    ensures SameFrame(old(a[..]), a[..])
    ensures err != 0 ==> forall t :: Denotes(old(a[..]), t) ==> Denotes(a[..], t)
    ensures err == 0 ==>
              && PropReady(old(a[..]), a[..], i, nodeoffset, name, i + 1, v) && |v| == len
              && prop == Off(Chunks(a[..]), i + 1)
  {
    hide TokenOf, Walk, Be32, ChunkResolved, EventsOf, Decodes, Off, NextTag, Put, Flat, Chunks, NameAt;
    hide CheckHeader, Align4, SplicedStruct, Misordered, Separate, Slot, Added, StrAt, HeaderInserted;
    ghost var s := a[..];
    v, prop := [], -1;
    NotBoth(s, i, nodeoffset);
    var nextoffset := CheckNode(a[..], nodeoffset);
    if nextoffset < 0 {
      return nextoffset, prop, v;
    }
    OnNodeNotRefused(s, i, nodeoffset);
    OffsetsInBlock(s, i, i + 1);
    var namestroff := FindAddString(a, name);
    if namestroff < 0 {
      return namestroff, prop, v;
    }
    ghost var s1 := a[..];
    ghost var more := Added(StringBlock(s), name);
    GrownTree(s, s1, more);
    prop := nextoffset;
    err := InsertPropHeader(a, prop, namestroff, len);
    if err != 0 {
      return;
    }
    v := AddedReady(s, i, nodeoffset, name, len, namestroff, more, a[..]);
  }

  // Room for the property, and its three header words.
  method InsertPropHeader(a: array<byte>, prop: nat, namestroff: nat, len: nat) returns (err: int)
    requires Ordered(a[..]) && prop <= |StructBlock(a[..])| && len < INT_LIMIT && namestroff < WORD
    modifies a
    ensures err == if DataSize(old(a[..])) + 12 + Align4(len) > Hdr(old(a[..]), TOTALSIZE) then NOSPACE else 0
    ensures err != 0 ==> a[..] == old(a[..])
    ensures err == 0 ==>
              && SameFrame(old(a[..]), a[..]) && StringBlock(a[..]) == StringBlock(old(a[..]))
              && HeaderInserted(StructBlock(old(a[..])), StructBlock(a[..]), prop, namestroff, len)
  {
    hide Be32, Put, TokenOf, CheckHeader, Align4, SplicedStruct, Misordered, Separate;
    ghost var s1 := a[..];
    var p := Hdr(a[..], OFF_STRUCT) + prop;
    err := SpliceStruct(a, p, 0, 12 + Align4(len));
    if err != 0 {
      return;
    }
    ghost var s2 := a[..];
    SpliceStructEffect(s1, p, 0, 12 + Align4(len), s2);
    StoreWord(a, p, FDT_PROP);
    ghost var s3 := a[..];
    StoreWord(a, p + 8, namestroff);
    ghost var s4 := a[..];
    StoreWord(a, p + 4, len);
    ThreeStores(s1, s2, prop, namestroff, len, s3, s4, a[..]);
  }

  lemma ThreeStores(s1: bytes, s2: bytes, o: nat, nameoff: nat, len: nat, s3: bytes, s4: bytes, s5: bytes)
    requires Ordered(s1) && o <= |StructBlock(s1)| && len < WORD && nameoff < WORD
    requires StructSpliced(s1, s2, o, 0, 12 + Align4(len))
    requires Hdr(s2, OFF_STRUCT) + o + 12 <= |s2|
    requires s3 == Put(s2, Hdr(s2, OFF_STRUCT) + o, Enc32(FDT_PROP))
    requires s4 == Put(s3, Hdr(s2, OFF_STRUCT) + o + 8, Enc32(nameoff))
    requires s5 == Put(s4, Hdr(s2, OFF_STRUCT) + o + 4, Enc32(len))
    ensures SameFrame(s1, s5) && StringBlock(s5) == StringBlock(s1)
    ensures HeaderInserted(StructBlock(s1), StructBlock(s5), o, nameoff, len)
  {
    hide Be32, Put, TokenOf, CheckHeader, Align4, Misordered, Separate, Enc32;
    OrderedStore(s2, o, Enc32(FDT_PROP));
    OrderedStore(s3, o + 8, Enc32(nameoff));
    OrderedStore(s4, o + 4, Enc32(len));
    AddedBlock(StructBlock(s1), StructBlock(s2), o, len, nameoff,
               StructBlock(s3), StructBlock(s4), StructBlock(s5));
  }

  // st5 is st with a property chunk, its value still to be written, put in at o.
  ghost predicate HeaderInserted(st: bytes, st5: bytes, o: nat, nameoff: nat, len: nat) {
    && o <= |st| && o + 12 + Align4(len) <= |st5|
    && TokenOf(st5[o..o + 12 + Align4(len)]) == Some(Prop(nameoff, st5[o + 12..o + 12 + len]))
    && st5 == st[..o] + st5[o..o + 12 + Align4(len)] + st[o..]
  }

  // _fdt_check_node_offset.
  method CheckNode(s: bytes, offset: int32) returns (r: int)
    requires Readable(s)
    ensures r == CheckNodeOffset(StructBlock(s), offset)
    ensures r < 0 ==> r == BADOFFSET
  {
    if offset < 0 || offset % 4 != 0 {
      return BADOFFSET;
    }
    var tag, next := FdtNextTag(s, offset);
    if tag == FDT_BEGIN_NODE {
      CheckedOffset(StructBlock(s), offset);
    }
    return if tag != FDT_BEGIN_NODE then BADOFFSET else next;
  }

  lemma GrownTree(s: bytes, s1: bytes, more: bytes)
    requires Ordered(s) && StringsGrown(s, s1, more) && Walkable(s) && Resolved(Chunks(s), StringBlock(s))
    ensures SameFrame(s, s1)
    ensures forall t :: Denotes(s, t) ==> Denotes(s1, t)
  {
    hide TokenOf, Walk, Be32, ChunkResolved, EventsOf, Decodes, CheckHeader, Misordered, Separate;
    EventsOfGrow(Chunks(s), StringBlock(s), more);
  }

  lemma AddedReady(s: bytes, i: nat, nodeoffset: int32, name: bytes, len: nat, nameoff: nat, more: bytes, s5: bytes)
    returns (v: bytes)
    requires Editable(s, i, nodeoffset) && OnNode(s, i, nodeoffset) && Ordered(s) && SameFrame(s, s5)
    requires Slot(Chunks(s), StringBlock(s), name, i, i + 1, i + 1)
    requires StringBlock(s5) == StringBlock(s) + more && StrAt(StringBlock(s5), nameoff) == Some(name)
    requires HeaderInserted(StructBlock(s), StructBlock(s5), Off(Chunks(s), i + 1), nameoff, len)
    ensures |v| == len && PropReady(s, s5, i, nodeoffset, name, i + 1, v)
    ensures Off(Chunks(s5), i + 1) == Off(Chunks(s), i + 1)
  {
    hide TokenOf, Walk, Be32, EventsOf, Decodes, Off, NextTag, Put, Flat, Chunks, CheckHeader, Align4, Separate;
    hide StrAt;
    var o := Off(Chunks(s), i + 1);
    var c1 := StructBlock(s5)[o..o + 12 + Align4(len)];
    v := TokenOf(c1).value.value;
    ReadyWhenPlaced(s, s5, i, nodeoffset, name, i + 1, i + 1, c1, more);
  }

  // The room a setprop takes: the value's growth, or a whole new property and
  // its name if no string of the table ends in it.
  ghost function Growth(strs: bytes, n: Tree, name: bytes, len: nat): int {
    match Lookup(n, name)
    case Some(v) => Align4(len) - Align4(|v|)
    case None => |Added(strs, name)| + 12 + Align4(len)
  }

  // A new name that fits while its property does not.
  ghost predicate NameAlone(s: bytes, n: Tree, name: bytes)
    requires Readable(s)
  {
    var more := Added(StringBlock(s), name);
    Lookup(n, name) == None && more != [] && DataSize(s) + |more| <= Hdr(s, TOTALSIZE)
  }

  ghost predicate SamePastHeader(s: bytes, s': bytes) {
    && Readable(s) && Readable(s') && |s'| == |s|
    && s'[HEADER_SIZE..] == s[HEADER_SIZE..] && StringBlock(s') == StringBlock(s)
  }

  // fdt_setprop: success exactly when the room is there, and then the tree with
  // that one property set; without room, the tree as it was.  Then the strings
  // have grown exactly when the name is new and would have fitted alone.
  method SetProp(a: array<byte>, nodeoffset: int32, name: bytes, val: bytes, ghost i: nat)
    returns (err: int, ghost k: nat)
    requires Callable(a[..], i, nodeoffset) && |val| < INT_LIMIT && NoNul(name) && name != []
    modifies a
    ensures RwCheck(old(a[..])) != 0 ==> err == RwCheck(old(a[..])) && a[..] == old(a[..])
    ensures RwCheck(old(a[..])) == 0 ==>
              && SameFrame(old(a[..]), a[..])
              && (err != 0 ==> forall t :: Denotes(old(a[..]), t) ==> Denotes(a[..], t))
              && (Refused(old(a[..]), nodeoffset) ==> err == BADOFFSET)
    ensures RwCheck(old(a[..])) == 0 && OnNode(old(a[..]), i, nodeoffset) ==>
              forall c, n :: NodeHere(old(a[..]), i, c, n) ==>
                if DataSize(old(a[..])) + Growth(StringBlock(old(a[..])), n, name, |val|)
                     > Hdr(old(a[..]), TOTALSIZE) then
                  err == NOSPACE
                else
                  err == 0 && NodeHere(a[..], i, c, WithProp(n, name, val))
    ensures RwCheck(old(a[..])) == 0 && OnNode(old(a[..]), i, nodeoffset) && err == NOSPACE ==>
              forall c, n :: NodeHere(old(a[..]), i, c, n) ==>
                && (SamePastHeader(old(a[..]), a[..]) <==> !NameAlone(old(a[..]), n, name))
                && (NameAlone(old(a[..]), n, name) ==>
                      Readable(a[..]) && StringBlock(a[..]) == StringBlock(old(a[..])) + (name + [0]))
    ensures err == 0 ==> Editable(a[..], i, nodeoffset) && OnNode(a[..], i, nodeoffset)
  {
    hide TokenOf, Walk, Be32, ChunkResolved, EventsOf, Decodes, Off, NextTag, Put, Flat, Chunks, NameAt;
    hide CheckHeader, Align4, SplicedStruct, Misordered, Separate, Added, StrAt, Events, WithProp;
    hide PropReady, Slot, Growth, Editable, NodeHere, NodeOrRefused;
    ghost var s0 := a[..];
    err := RwCheckHeader(a);
    k := 0;
    if err != 0 {
      return;
    }
    ghost var s := a[..];
    AfterCheck(s0, s, i, nodeoffset);
    var prop;
    ghost var v;
    err, prop, k, v := ResizeProperty(a, nodeoffset, name, |val|, i);
    if OnNode(s, i, nodeoffset) {
      GrowthIs(s, i, k, name, |val|, err);
    }
    ghost var (missing, found) := (err == NOTFOUND, k);
    if err == NOTFOUND {
      err, prop, v := AddProperty(a, nodeoffset, name, |val|, i);
      k := i + 1;
    }
    if err != 0 {
      if OnNode(s, i, nodeoffset) {
        WhatGrew(s0, s, a[..], i, found, name, missing);
      }
      return;
    }
    WriteValue(a, prop, val, s, i, nodeoffset, name, k, v);
  }

  lemma WhatGrew(s0: bytes, s: bytes, s': bytes, i: nat, k: nat, name: bytes, missing: bool)
    requires Ordered(s) && Walkable(s) && Readable(s0) && SameBlocks(s0, s) && s[HEADER_SIZE..] == s0[HEADER_SIZE..]
    requires Chunks(s0) == Chunks(s)
    requires var (cs, strs) := (Chunks(s), StringBlock(s));
             if missing then OtherProps(cs, strs, name, i, k) && k < |cs| && EndsProps(cs[k])
             else PropChunk(cs, strs, name, i, k) && s' == s
    requires missing ==>
               var more := Added(StringBlock(s), name);
               if more != [] && DataSize(s) + |more| <= Hdr(s, TOTALSIZE) then
                 Readable(s') && StringBlock(s') == StringBlock(s) + more
               else
                 s' == s
    ensures forall c, n :: NodeHere(s0, i, c, n) ==>
              && (SamePastHeader(s0, s') <==> !NameAlone(s0, n, name))
              && (NameAlone(s0, n, name) ==> Readable(s') && StringBlock(s') == StringBlock(s0) + (name + [0]))
  {
    hide TokenOf, Walk, Be32, EventsOf, Decodes, Off, Flat, Chunks, CheckHeader, Separate, NameAt, HasString;
    forall c, n | NodeHere(s0, i, c, n)
      ensures && (SamePastHeader(s0, s') <==> !NameAlone(s0, n, name))
              && (NameAlone(s0, n, name) ==> Readable(s') && StringBlock(s') == StringBlock(s0) + (name + [0]))
    {
      if missing {
        MissingProp(Chunks(s), StringBlock(s), name, i, k, c, n);
      } else {
        FoundProp(Chunks(s), StringBlock(s), name, i, k, c, n);
      }
    }
  }

  // The last step of fdt_setprop: the value into the property that is ready for it.
  method WriteValue(a: array<byte>, prop: nat, val: bytes,
                    ghost s: bytes, ghost i: nat, ghost nodeoffset: int32, ghost name: bytes,
                    ghost k: nat, ghost v: bytes)
    requires Ordered(s) && PropReady(s, a[..], i, nodeoffset, name, k, v) && |v| == |val|
    requires prop == Off(Chunks(a[..]), k)
    modifies a
    ensures SameFrame(s, a[..]) && Editable(a[..], i, nodeoffset) && OnNode(a[..], i, nodeoffset)
    ensures forall c, n :: NodeHere(s, i, c, n) ==> NodeHere(a[..], i, c, WithProp(n, name, val))
  {
    hide TokenOf, Walk, Be32, ChunkResolved, EventsOf, Decodes, Off, Put, Flat, Chunks, NameAt;
    hide CheckHeader, Misordered, Separate, WithProp, PropReady, Editable, NodeHere;
    ghost var s1 := a[..];
    ReadyBounds(s, s1, i, nodeoffset, name, k, v);
    if |val| > 0 {
      MemCpy(a, Hdr(a[..], OFF_STRUCT) + prop + 12, val);
    } else {
      PutNothing(s1, Hdr(s1, OFF_STRUCT) + prop + 12);
    }
    OrderedStore(s1, prop + 12, val);
    SetPropDone(s, s1, i, nodeoffset, name, k, v, val, a[..]);
  }

  lemma GrowthIs(s: bytes, i: nat, k: nat, name: bytes, len: nat, err: int)
    requires Ordered(s) && Walkable(s)
    requires var (cs, strs) := (Chunks(s), StringBlock(s));
             if err == NOTFOUND then OtherProps(cs, strs, name, i, k) && k < |cs| && EndsProps(cs[k])
             else PropChunk(cs, strs, name, i, k)
    ensures err == NOTFOUND ==> Slot(Chunks(s), StringBlock(s), name, i, i + 1, i + 1)
    ensures forall c, n :: NodeHere(s, i, c, n) ==>
              Growth(StringBlock(s), n, name, len)
              == if err == NOTFOUND then |Added(StringBlock(s), name)| + 12 + Align4(len)
                 else Align4(len) - Align4(|TokenOf(Chunks(s)[k]).value.value|)
  {
    hide TokenOf, Walk, Be32, EventsOf, Decodes, Off, Flat, Chunks, CheckHeader, Align4, Separate, Added, NameAt;
    forall c, n | NodeHere(s, i, c, n)
      ensures Growth(StringBlock(s), n, name, len)
              == if err == NOTFOUND then |Added(StringBlock(s), name)| + 12 + Align4(len)
                 else Align4(len) - Align4(|TokenOf(Chunks(s)[k]).value.value|)
    {
      if err == NOTFOUND {
        MissingProp(Chunks(s), StringBlock(s), name, i, k, c, n);
      } else {
        FoundProp(Chunks(s), StringBlock(s), name, i, k, c, n);
      }
    }
  }

  lemma ReadyBounds(s: bytes, s1: bytes, i: nat, nodeoffset: int32, name: bytes, k: nat, v: bytes)
    requires Ordered(s) && PropReady(s, s1, i, nodeoffset, name, k, v)
    ensures SameFrame(s, s1) && k < |Chunks(s1)|
    ensures Off(Chunks(s1), k) + 12 + |v| <= |StructBlock(s1)|
  {
    hide TokenOf, Walk, Be32, Decodes, Off, Chunks, CheckHeader;
  }

  lemma SetPropDone(s: bytes, s1: bytes, i: nat, nodeoffset: int32, name: bytes, k: nat, v: bytes,
                    val: bytes, s2: bytes)
    requires Ordered(s) && PropReady(s, s1, i, nodeoffset, name, k, v) && |v| == |val|
    requires Hdr(s1, OFF_STRUCT) + Off(Chunks(s1), k) + 12 + |val| <= |s1|
    requires s2 == Put(s1, Hdr(s1, OFF_STRUCT) + Off(Chunks(s1), k) + 12, val)
    ensures Editable(s2, i, nodeoffset) && OnNode(s2, i, nodeoffset)
    ensures forall c, n :: NodeHere(s, i, c, n) ==> NodeHere(s2, i, c, WithProp(n, name, val))
  {
    hide TokenOf, Walk, Be32, ChunkResolved, EventsOf, Decodes, Off, NextTag, Put, Flat, Chunks, NameAt;
    hide CheckHeader, Separate, StrAt, Events, WithProp;
    InplaceEffect(s1, i, k, nodeoffset, name, val, s2);
    forall c, n | NodeHere(s, i, c, n) ensures NodeHere(s2, i, c, WithProp(n, name, val)) {
      WithPropTwice(n, name, v, val);
      assert NodeHere(s1, i, c, WithProp(n, name, v));
    }
  }
}
