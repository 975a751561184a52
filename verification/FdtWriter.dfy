// fdt_sw.c as it runs: the calls store into the buffer, and each leaves exactly
// the bytes its function in FdtSw describes.
module FdtWriter {
  import opened ByteStrings
  import opened Memory
  import opened FdtFormat
  import opened FdtTree
  import opened FdtBlob
  import opened FdtWalk
  import opened FdtWip
  import opened FdtSplice
  import opened FdtStrings
  import opened FdtSw
  import opened FdtSwState
  import opened FdtFinish

  // A buffer the writer may be handed: one under construction, or one whose
  // magic gives it away.
  predicate Buffered(s: bytes) {
    HEADER_SIZE <= |s| && (Hdr(s, MAGIC) == FDT_SW_MAGIC ==> Writing(s))
  }

  // fdt_create, in a buffer with room for the header and the reserve map's place.
  method Create(a: array<byte>) returns (err: int)
    requires a.Length < INT_LIMIT
    modifies a
    ensures err == if a.Length < HEADER_SIZE then NOSPACE else 0
    ensures err != 0 ==> a[..] == old(a[..])
    ensures a.Length >= SW_RSVMAP ==> Created(a[..], a.Length)
  {
    if a.Length < HEADER_SIZE {
      return NOSPACE;
    }
    var i := 0;
    while i < a.Length
      invariant 0 <= i <= a.Length
      invariant forall k :: 0 <= k < i ==> a[k] == 0
    {
      a[i] := 0;
      i := i + 1;
    }
    ghost var s := a[..];
    ZeroFields(s);
    hide Be32, Put;
    StoreWord(a, MAGIC, FDT_SW_MAGIC);
    HeaderStore(s, MAGIC, FDT_SW_MAGIC);
    s := a[..];
    StoreWord(a, VERSION, FDT_LAST_SUPPORTED_VERSION);
    HeaderStore(s, VERSION, FDT_LAST_SUPPORTED_VERSION);
    s := a[..];
    StoreWord(a, LAST_COMP, FDT_FIRST_SUPPORTED_VERSION);
    HeaderStore(s, LAST_COMP, FDT_FIRST_SUPPORTED_VERSION);
    s := a[..];
    StoreWord(a, TOTALSIZE, a.Length);
    HeaderStore(s, TOTALSIZE, a.Length);
    s := a[..];
    StoreWord(a, OFF_RSVMAP, SW_RSVMAP);
    HeaderStore(s, OFF_RSVMAP, SW_RSVMAP);
    s := a[..];
    StoreWord(a, OFF_STRUCT, Hdr(a[..], OFF_RSVMAP));
    HeaderStore(s, OFF_STRUCT, SW_RSVMAP);
    s := a[..];
    StoreWord(a, OFF_STRINGS, a.Length);
    HeaderStore(s, OFF_STRINGS, a.Length);
    return 0;
  }

  lemma ZeroFields(s: bytes)
    requires HEADER_SIZE <= |s| && forall k :: 0 <= k < |s| ==> s[k] == 0
    ensures Hdr(s, SIZE_STRUCT) == 0 && Hdr(s, SIZE_STRINGS) == 0
  {
  }

  // _fdt_grab_space: where the new piece starts in the structure block, or -1.
  method GrabSpace(a: array<byte>, len: nat) returns (offset: int)
    requires Writing(a[..])
    modifies a
    ensures offset == -1 <==> !HasSpace(old(a[..]), len)
    ensures offset == -1 ==> a[..] == old(a[..])
    ensures offset != -1 ==>
              && offset == Hdr(old(a[..]), SIZE_STRUCT)
              && a[..] == SetHdr(old(a[..]), SIZE_STRUCT, Hdr(old(a[..]), SIZE_STRUCT) + len)
  {
    hide Be32, Put;
    var s := a[..];
    offset := Hdr(s, SIZE_STRUCT);
    var spaceleft := Hdr(s, TOTALSIZE) - Hdr(s, OFF_STRUCT) - Hdr(s, SIZE_STRINGS);
    if offset + len > spaceleft {
      return -1;
    }
    StoreWord(a, SIZE_STRUCT, offset + len);
  }

  // fdt_begin_node.
  method FdtBeginNode(a: array<byte>, name: bytes) returns (err: int)
    requires Buffered(a[..]) && NoNul(name)
    modifies a
    ensures Hdr(old(a[..]), MAGIC) != FDT_SW_MAGIC ==> err == BADMAGIC && a[..] == old(a[..])
    ensures Hdr(old(a[..]), MAGIC) == FDT_SW_MAGIC ==> (err, a[..]) == BeginNode(old(a[..]), name)
  {
    hide Be32, Put, Enc32, Align4;
    if Hdr(a[..], MAGIC) != FDT_SW_MAGIC {
      return BADMAGIC;
    }
    ghost var s := a[..];
    var (o, len) := (Hdr(a[..], OFF_STRUCT), 4 + Align4(|name| + 1));
    var nh := GrabSpace(a, len);
    if nh == -1 {
      return NOSPACE;
    }
    ghost var s1 := a[..];
    StoreWord(a, o + nh, FDT_BEGIN_NODE);
    MemCpy(a, o + nh + 4, name + [0]);
    PutNext(s1, o + nh, Enc32(FDT_BEGIN_NODE), name + [0]);
    Cat3(Enc32(FDT_BEGIN_NODE), name, [0]);
    return 0;
  }

  // fdt_end_node.
  method FdtEndNode(a: array<byte>) returns (err: int)
    requires Buffered(a[..])
    modifies a
    ensures Hdr(old(a[..]), MAGIC) != FDT_SW_MAGIC ==> err == BADMAGIC && a[..] == old(a[..])
    ensures Hdr(old(a[..]), MAGIC) == FDT_SW_MAGIC ==> (err, a[..]) == EndNode(old(a[..]))
  {
    hide Be32, Put, Enc32;
    if Hdr(a[..], MAGIC) != FDT_SW_MAGIC {
      return BADMAGIC;
    }
    var o := Hdr(a[..], OFF_STRUCT);
    var en := GrabSpace(a, 4);
    if en == -1 {
      return NOSPACE;
    }
    StoreWord(a, o + en, FDT_END_NODE);
    return 0;
  }

  lemma {:induction false} FirstStringIs(strs: bytes, name: bytes, p: nat, r: int)
    requires r == -1 ==> !HasString(strs, name)
    requires r != -1 ==> p <= r && StringHere(strs, r, name)
    requires forall q: nat :: q < r ==> !StringHere(strs, q, name)
    ensures FirstString(strs, name, p) == if r == -1 then None else Some(r)
    decreases |strs| - p
  {
    if p + |name| + 1 <= |strs| && !StringHere(strs, p, name) {
      FirstStringIs(strs, name, p + 1, r);
    }
  }

  // _fdt_find_add_string of the writer.
  method FindAddStringDown(a: array<byte>, name: bytes) returns (offset: int)
    requires Writing(a[..]) && NoNul(name) && Placeable(a[..], name)
    modifies a
    ensures (offset, a[..]) == FindAddDown(old(a[..]), name)
  {
    hide Be32, Put;
    ghost var s := a[..];
    var strtab := Hdr(a[..], TOTALSIZE);
    var strtabsize := Hdr(a[..], SIZE_STRINGS);
    var p := FindString(SwStrings(a[..]), name);
    FirstStringIs(SwStrings(s), name, 0, p);
    if p != -1 {
      return p - strtabsize;
    }
    var len := |name| + 1;
    offset := 0 - strtabsize - len;
    var structTop := Hdr(a[..], OFF_STRUCT) + Hdr(a[..], SIZE_STRUCT);
    SmallMod(strtab + offset);
    if (strtab + offset) % WORD < structTop {
      return 0;
    }
    MemCpy(a, strtab + offset, name + [0]);
    StoreWord(a, SIZE_STRINGS, strtabsize + len);
  }

  // fdt_property.
  method FdtProperty(a: array<byte>, name: bytes, val: bytes) returns (err: int)
    requires Buffered(a[..]) && NoNul(name) && |val| < INT_LIMIT
    requires Hdr(a[..], MAGIC) == FDT_SW_MAGIC ==> Placeable(a[..], name)
    modifies a
    ensures Hdr(old(a[..]), MAGIC) != FDT_SW_MAGIC ==> err == BADMAGIC && a[..] == old(a[..])
    ensures Hdr(old(a[..]), MAGIC) == FDT_SW_MAGIC ==> (err, a[..]) == Property(old(a[..]), name, val)
  {
    hide Be32, Put, Enc32, Align4, FindAddDown, StrAt, SwStruct, SwStrings, PropHeader, SetHdr, Property, HasSpace;
    if Hdr(a[..], MAGIC) != FDT_SW_MAGIC {
      return BADMAGIC;
    }
    ghost var s := a[..];
    PropertyCases(s, name, val);
    var nameoff := FindAddStringDown(a, name);
    ghost var s1 := a[..];
    assert nameoff == FindAddDown(s, name).0 && s1 == FindAddDown(s, name).1;
    if nameoff == 0 {
      return NOSPACE;
    }
    var o := Hdr(a[..], OFF_STRUCT);
    var prop := GrabSpace(a, 12 + Align4(|val|));
    if prop == -1 {
      return NOSPACE;
    }
    StoreProperty(a, o + prop, nameoff, val);
    return 0;
  }

  lemma PropertyCases(s: bytes, name: bytes, val: bytes)
    requires Writing(s) && NoNul(name) && Placeable(s, name) && |val| < INT_LIMIT
    ensures var ((nameoff, s1), len) := (FindAddDown(s, name), 12 + Align4(|val|));
            if nameoff == 0 then Property(s, name, val) == (NOSPACE, s) && s1 == s
            else
              Writing(s1) && 0 <= nameoff + WORD < WORD &&
              if !HasSpace(s1, len) then Property(s, name, val) == (NOSPACE, s1)
              else
                var z := Hdr(s1, SIZE_STRUCT);
                && Hdr(s1, OFF_STRUCT) + z + 12 + |val| <= |s1|
                && Property(s, name, val)
                   == (0, Put(SetHdr(s1, SIZE_STRUCT, z + len),
                              Hdr(s1, OFF_STRUCT) + z, PropHeader(nameoff, |val|) + val))
  {
    hide Be32, Put, FindAddDown, StrAt, SwStruct, SwStrings;
    AddedDown(s, name);
    NoRoomKeeps(s, name);
  }

  lemma NoRoomKeeps(s: bytes, name: bytes)
    requires Writing(s) && NoNul(name) && Placeable(s, name)
    ensures FindAddDown(s, name).0 == 0 ==> FindAddDown(s, name).1 == s
  {
    hide Be32, Put;
    AddedDown(s, name);
    match FirstString(SwStrings(s), name, 0)
    case Some(p) => StrAtBelow(SwStrings(s), p);
    case None =>
  }

  // The three words of the header, in the order the source stores them, and the value.
  method StoreProperty(a: array<byte>, p: nat, nameoff: int, val: bytes)
    requires p + 12 + |val| <= a.Length && 0 <= nameoff + WORD < WORD && |val| < WORD
    modifies a
    ensures a[..] == Put(old(a[..]), p, PropHeader(nameoff, |val|) + val)
  {
    hide Put, Enc32;
    ghost var s := a[..];
    StoreWord(a, p, FDT_PROP);
    ghost var s1 := a[..];
    StoreWord(a, p + 8, nameoff + WORD);
    StoreWord(a, p + 4, |val|);
    ghost var s3 := a[..];
    MemCpy(a, p + 12, val);
    var (b0, b1, b2) := (Enc32(FDT_PROP), Enc32(|val|), Enc32(nameoff + WORD));
    PutSwap(s1, p + 4, b1, b2);
    PutNext(s, p, b0, b1 + b2);
    PutNext(s, p, b0 + (b1 + b2), val);
    Cat3(b0, b1, b2);
  }

  lemma PutSwap(s: bytes, o: nat, b: bytes, c: bytes)
    requires o + |b| + |c| <= |s|
    ensures Put(Put(s, o + |b|, c), o, b) == Put(s, o, b + c)
  {
  }

  // fdt_add_reservemap_entry.
  method FdtAddReserve(a: array<byte>, addr: nat, size: nat) returns (err: int)
    requires Buffered(a[..]) && addr < WORD * WORD && size < WORD * WORD
    modifies a
    ensures Hdr(old(a[..]), MAGIC) != FDT_SW_MAGIC ==> err == BADMAGIC && a[..] == old(a[..])
    ensures Hdr(old(a[..]), MAGIC) == FDT_SW_MAGIC ==> (err, a[..]) == AddReserve(old(a[..]), addr, size)
  {
    hide Be32, Put, Enc64;
    if Hdr(a[..], MAGIC) != FDT_SW_MAGIC {
      return BADMAGIC;
    }
    if Hdr(a[..], SIZE_STRUCT) != 0 {
      return BADSTATE;
    }
    ghost var s := a[..];
    var offset := Hdr(a[..], OFF_STRUCT);
    if offset + 16 > Hdr(a[..], TOTALSIZE) {
      return NOSPACE;
    }
    MemCpy(a, offset, Enc64(addr));
    MemCpy(a, offset + 8, Enc64(size));
    PutNext(s, offset, Enc64(addr), Enc64(size));
    StoreWord(a, OFF_STRUCT, offset + 16);
    return 0;
  }

  // The chunks while the correction loop runs: those before i are corrected.
  ghost function Mixed(cs: chunks, z: nat, i: nat): (r: chunks)
    requires i <= |cs|
    ensures |r| == |cs|
  {
    AllCorrected(cs, z)[..i] + cs[i..]
  }

  lemma {:induction false} MixedOff(cs: chunks, z: nat, i: nat, j: nat)
    requires i <= |cs| && j <= |cs|
    ensures Off(Mixed(cs, z, i), j) == Off(cs, j)
    decreases j
  {
    if j > 0 {
      MixedOff(cs, z, i, j - 1);
      OffNext(Mixed(cs, z, i), j - 1);
      OffNext(cs, j - 1);
      assert |Mixed(cs, z, i)[j - 1]| == |cs[j - 1]|;
    } else {
      assert Mixed(cs, z, i)[..0] == cs[..0];
    }
  }

  lemma MixedFlat(cs: chunks, z: nat, i: nat)
    requires i <= |cs|
    ensures |Flat(Mixed(cs, z, i))| == |Flat(cs)|
  {
    MixedOff(cs, z, i, |cs|);
    assert Mixed(cs, z, i)[..|cs|] == Mixed(cs, z, i) && cs[..|cs|] == cs;
  }

  lemma MixedChunked(cs: chunks, strs: bytes, i: nat)
    requires Chunked(cs) && SwResolved(cs, strs) && |strs| < INT_LIMIT && i <= |cs|
    ensures Chunked(Mixed(cs, |strs|, i))
  {
    hide TokenOf, SwChunkResolved, Corrected;
    CorrectedAll(cs, strs);
  }

  // One step of the loop: the name offset of chunk i is corrected in place.
  lemma MixedStep(cs: chunks, z: nat, i: nat)
    requires i < |cs| && TokenOf(cs[i]).Some?
    ensures var (b, b') := (Flat(Mixed(cs, z, i)), Flat(Mixed(cs, z, i + 1)));
            if TokenOf(cs[i]).value.Prop? then
              && Off(cs, i) + 12 <= |b|
              && Be32(b, Off(cs, i) + 8) == TokenOf(cs[i]).value.nameoff
              && b' == Put(b, Off(cs, i) + 8, Enc32((TokenOf(cs[i]).value.nameoff + z) % WORD))
            else b' == b
  {
    hide Put, Word, Enc32, Align4, TokenOf, Corrected, Flat, Off;
    var (m, m') := (Mixed(cs, z, i), Mixed(cs, z, i + 1));
    var c := cs[i];
    assert m' == m[..i] + [Corrected(c, z)] + m[i + 1..];
    MixedOff(cs, z, i, i);
    CorrectedIs(c, z);
    if TokenOf(c).value.Prop? {
      var b := Flat(m);
      ChunkAt(m, i);
      SubSlice(b, Off(m, i), c, 8, 12);
      Be32OfSlice(b, Off(m, i) + 8, c, 8);
      SpliceInChunk(b, Off(m, i), c, 8, Enc32((TokenOf(c).value.nameoff + z) % WORD));
      FlatAround(m, i, Corrected(c, z));
    } else {
      assert m' == m;
    }
  }

  lemma CorrectedIs(c: bytes, z: nat)
    requires TokenOf(c).Some?
    ensures TokenOf(c).value.Prop? ==>
              && |c| >= 12 && Be32(c, 8) == TokenOf(c).value.nameoff
              && Corrected(c, z) == Put(c, 8, Enc32((TokenOf(c).value.nameoff + z) % WORD))
    ensures !TokenOf(c).value.Prop? ==> Corrected(c, z) == c
  {
  }

  lemma FlatAround(m: chunks, i: nat, c: bytes)
    requires i < |m|
    ensures Off(m, i) + |m[i]| <= |Flat(m)|
    ensures Flat(m[..i] + [c] + m[i + 1..]) == Flat(m)[..Off(m, i)] + c + Flat(m)[Off(m, i) + |m[i]|..]
  {
    FlatReplace(m, i, i + 1, [c]);
    FlatOne(c);
    FlatSplit(m, i);
    FlatSplit(m, i + 1);
    OffNext(m, i);
  }

  lemma PutInPut(r: bytes, o: nat, b: bytes, p: nat, x: bytes)
    requires o + |b| <= |r| && p + |x| <= |b|
    ensures Put(Put(r, o, b), o + p, x) == Put(r, o, Put(b, p, x))
  {
  }

  // What the loop reads from the half-corrected blob at chunk i.
  lemma MixedBlob(s: bytes, cs: chunks, evs: events, rsv: seq<(nat, nat)>, i: nat, m: bytes)
    requires SwText(s, cs, evs, rsv) && HasSpace(s, 4) && i <= |cs|
    requires Hdr(s, OFF_STRUCT) + |Flat(Mixed(cs, Hdr(s, SIZE_STRINGS), i))| <= |s|
    requires m == Put(Relocated(s), Hdr(s, OFF_STRUCT), Flat(Mixed(cs, Hdr(s, SIZE_STRINGS), i)))
    ensures InBounds(m) && Hdr(m, VERSION) == 17
    ensures Hdr(m, OFF_STRUCT) == Hdr(s, OFF_STRUCT) && Hdr(m, SIZE_STRINGS) == Hdr(s, SIZE_STRINGS)
    ensures StructBlock(m) == Flat(Mixed(cs, Hdr(s, SIZE_STRINGS), i)) + Enc32(FDT_END)
    ensures Off(cs, i) < INT_LIMIT
    ensures NextTag(StructBlock(m), Off(cs, i)) ==
              if i < |cs| then (TagOf(TokenOf(cs[i]).value), Off(cs, i + 1)) else (FDT_END, Off(cs, i) + 4)
  {
    hide Be32, Put, TokenOf, SwResolved, SwReserve, Relocated, Flat, SwEvents, Enc32, NextTag, Mixed;
    var z := Hdr(s, SIZE_STRINGS);
    RelocatedBlocks(s, cs, evs, rsv);
    MixedFlat(cs, z, i);
    var (b, o) := (Flat(Mixed(cs, z, i)), Hdr(s, OFF_STRUCT));
    BlockStore(Relocated(s), b);
    PutInSlice(Relocated(s), o, o + |b| + 4, 0, b);
    PutFirst(Flat(cs), Enc32(FDT_END), b);
    MixedChunked(cs, SwStrings(s), i);
    EndDecodes(StructBlock(m), Mixed(cs, z, i));
    NextTagWalks(StructBlock(m), Mixed(cs, z, i), i);
    MixedOff(cs, z, i, i);
    if i < |cs| {
      MixedOff(cs, z, i, i + 1);
      MixedAt(cs, z, i);
    }
  }

  lemma MixedAt(cs: chunks, z: nat, i: nat)
    requires i < |cs|
    ensures Mixed(cs, z, i)[i] == cs[i]
  {
  }

  lemma StringsLie(s: bytes)
    requires Writing(s)
    ensures s[|s| - Hdr(s, SIZE_STRINGS)..|s|] == SwStrings(s)
  {
    hide Hdr;
  }

  // The first half of fdt_finish: the terminator, then the strings.
  method Relocate(a: array<byte>) returns (err: int, newstroffset: nat)
    requires Writing(a[..])
    modifies a
    ensures err == if HasSpace(old(a[..]), 4) then 0 else NOSPACE
    ensures err != 0 ==> a[..] == old(a[..])
    ensures err == 0 ==>
              && a[..] == Relocated(old(a[..]))
              && newstroffset == Hdr(old(a[..]), OFF_STRUCT) + Hdr(old(a[..]), SIZE_STRUCT) + 4
  {
    hide Hdr, Put, Enc32, Grabbed, SwStruct, SwStrings;
    newstroffset := 0;
    ghost var s := a[..];
    var o := Hdr(a[..], OFF_STRUCT);
    var end := GrabSpace(a, 4);
    if end == -1 {
      return NOSPACE, newstroffset;
    }
    StoreWord(a, o + end, FDT_END);
    ghost var s1 := a[..];
    GrabbedIs(s, 4, Enc32(FDT_END));
    GrabbedKeeps(s, 4, Enc32(FDT_END));
    var zs := Hdr(a[..], SIZE_STRINGS);
    var oldstroffset := Hdr(a[..], TOTALSIZE) - zs;
    newstroffset := Hdr(a[..], OFF_STRUCT) + Hdr(a[..], SIZE_STRUCT);
    MemMove(a, newstroffset, oldstroffset, zs);
    StringsLie(s1);
    StoreWord(a, OFF_STRINGS, newstroffset);
    err := 0;
  }

  lemma GrabbedIs(s: bytes, len: nat, b: bytes)
    requires Writing(s) && HasSpace(s, len) && |b| <= len
    ensures Grabbed(s, len, b) == Put(SetHdr(s, SIZE_STRUCT, Hdr(s, SIZE_STRUCT) + len),
                                      Hdr(s, OFF_STRUCT) + Hdr(s, SIZE_STRUCT), b)
  {
  }

  lemma AllMixed(s: bytes, cs: chunks, evs: events, rsv: seq<(nat, nat)>)
    requires SwText(s, cs, evs, rsv)
    ensures Writing(s) && |Flat(AllCorrected(cs, Hdr(s, SIZE_STRINGS)))| == Hdr(s, SIZE_STRUCT) == |Flat(cs)|
  {
    hide TokenOf, SwReserve, Be32;
    CorrectedAll(cs, SwStrings(s));
  }

  lemma FirstMixed(s: bytes, cs: chunks, evs: events, rsv: seq<(nat, nat)>)
    requires SwText(s, cs, evs, rsv) && HasSpace(s, 4)
    ensures Mixed(cs, Hdr(s, SIZE_STRINGS), 0) == cs && Off(cs, 0) == 0
    ensures Put(Relocated(s), Hdr(s, OFF_STRUCT), Flat(cs)) == Relocated(s)
  {
    hide TokenOf, SwReserve, Be32, SwResolved, Relocated, Put, SwEvents;
    RelocatedBlocks(s, cs, evs, rsv);
    var (r, o, b) := (Relocated(s), Hdr(s, OFF_STRUCT), Flat(cs));
    assert StructBlock(r)[..|b|] == b;
    SliceOfSlice(r, o, o + |b| + 4, 0, |b|);
    PutOwn(r, o, b);
    assert cs[..0] == [];
  }

  lemma PutOwn(r: bytes, o: nat, b: bytes)
    requires o + |b| <= |r| && r[o..o + |b|] == b
    ensures Put(r, o, b) == r
  {
    assert r == r[..o] + r[o..o + |b|] + r[o + |b|..];
  }

  lemma SwChunked(s: bytes, cs: chunks, evs: events, rsv: seq<(nat, nat)>)
    requires SwText(s, cs, evs, rsv)
    ensures Chunked(cs)
  {
    hide TokenOf, SwReserve, Be32, SwResolved;
  }

  lemma ReadNameoff(r: bytes, o: nat, b: bytes, p: nat, m: bytes)
    requires o + |b| <= |r| && p + 4 <= |b| && m == Put(r, o, b)
    ensures Be32(m, o + p) == Be32(b, p)
  {
    hide Word, Put;
    PutSame(r, o, b);
    SliceOfSlice(m, o, o + |b|, p, p + 4);
    Be32OfSlice(m, o + p, b, p);
  }

  lemma LastMixed(cs: chunks, z: nat, i: nat)
    requires i == |cs|
    ensures Mixed(cs, z, i) == AllCorrected(cs, z)
  {
  }

  // A name offset counted from the end of the string table, counted from its
  // start instead.
  method CorrectName(a: array<byte>, offset: nat, ghost r: bytes, ghost b: bytes)
    requires InBounds(a[..]) && Hdr(a[..], OFF_STRUCT) + |b| <= |r| && offset + 12 <= |b|
    requires a[..] == Put(r, Hdr(a[..], OFF_STRUCT), b)
    modifies a
    ensures a[..] == Put(r, old(Hdr(a[..], OFF_STRUCT)),
                         Put(b, offset + 8, Enc32((Be32(b, offset + 8) + old(Hdr(a[..], SIZE_STRINGS))) % WORD)))
  {
    hide Be32, Put, Enc32;
    var prop := Hdr(a[..], OFF_STRUCT) + offset;
    ReadNameoff(r, Hdr(a[..], OFF_STRUCT), b, offset + 8, a[..]);
    var nameoff := Be32(a[..], prop + 8) + Hdr(a[..], SIZE_STRINGS);
    PutInPut(r, Hdr(a[..], OFF_STRUCT), b, offset + 8, Enc32(nameoff % WORD));
    StoreWord(a, prop + 8, nameoff % WORD);
  }

  // The loop of fdt_finish over the tags: every name offset corrected.
  method CorrectNames(a: array<byte>, ghost s: bytes, ghost cs: chunks, ghost evs: events, ghost rsv: seq<(nat, nat)>)
    requires SwText(s, cs, evs, rsv) && HasSpace(s, 4) && a[..] == Relocated(s)
    modifies a
    ensures |Flat(AllCorrected(cs, Hdr(s, SIZE_STRINGS)))| == Hdr(s, SIZE_STRUCT)
    ensures a[..] == Put(Relocated(s), Hdr(s, OFF_STRUCT), Flat(AllCorrected(cs, Hdr(s, SIZE_STRINGS))))
    ensures HEADER_SIZE <= a.Length && Hdr(a[..], SIZE_STRINGS) == Hdr(s, SIZE_STRINGS)
  {
    hide Be32, Put, TokenOf, SwResolved, SwReserve, Flat, SwEvents, Enc32, NextTag, Mixed, SwText, Relocated, Off;
    AllMixed(s, cs, evs, rsv);
    ghost var (r, z, o) := (a[..], Hdr(s, SIZE_STRINGS), Hdr(s, OFF_STRUCT));
    SwChunked(s, cs, evs, rsv);
    ghost var i := 0;
    FirstMixed(s, cs, evs, rsv);
    MixedBlob(s, cs, evs, rsv, 0, a[..]);
    var offset := 0;
    var tag, next := FdtNextTag(a[..], offset);
    while tag != FDT_END
      invariant i <= |cs| && offset == Off(cs, i)
      invariant |Flat(Mixed(cs, z, i))| == Hdr(s, SIZE_STRUCT)
      invariant a[..] == Put(r, o, Flat(Mixed(cs, z, i)))
      invariant Hdr(a[..], OFF_STRUCT) == o && Hdr(a[..], SIZE_STRINGS) == z && InBounds(a[..])
      invariant (tag, next) == if i < |cs| then (TagOf(TokenOf(cs[i]).value), Off(cs, i + 1)) else (FDT_END, offset + 4)
      decreases |cs| - i
    {
      MixedStep(cs, z, i);
      MixedFlat(cs, z, i + 1);
      if tag == FDT_PROP {
        CorrectName(a, offset, r, Flat(Mixed(cs, z, i)));
      }
      i := i + 1;
      offset := next;
      MixedBlob(s, cs, evs, rsv, i, a[..]);
      tag, next := FdtNextTag(a[..], offset);
    }
    LastMixed(cs, z, i);
  }

  // fdt_finish.
  method FinishBlob(a: array<byte>, ghost cs: chunks, ghost evs: events, ghost rsv: seq<(nat, nat)>) returns (err: int)
    requires Buffered(a[..])
    requires Hdr(a[..], MAGIC) == FDT_SW_MAGIC ==> SwText(a[..], cs, evs, rsv)
    modifies a
    ensures Hdr(old(a[..]), MAGIC) != FDT_SW_MAGIC ==> err == BADMAGIC && a[..] == old(a[..])
    ensures Hdr(old(a[..]), MAGIC) == FDT_SW_MAGIC ==>
              |Flat(AllCorrected(cs, Hdr(old(a[..]), SIZE_STRINGS)))| == Hdr(old(a[..]), SIZE_STRUCT)
              && (err, a[..]) == Finished(old(a[..]), cs)
  {
    hide Be32, Put, Flat, Enc32, SwText, Relocated, AllCorrected;
    if Hdr(a[..], MAGIC) != FDT_SW_MAGIC {
      return BADMAGIC;
    }
    ghost var s := a[..];
    AllMixed(s, cs, evs, rsv);
    var newstroffset;
    err, newstroffset := Relocate(a);
    if err != 0 {
      return;
    }
    CorrectNames(a, s, cs, evs, rsv);
    StoreWord(a, TOTALSIZE, newstroffset + Hdr(a[..], SIZE_STRINGS));
    StoreWord(a, MAGIC, FDT_MAGIC);
    return 0;
  }
}
