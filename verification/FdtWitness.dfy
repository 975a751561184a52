// Blobs on which the library's corner cases show.
module FdtWitness {
  import opened ByteStrings
  import opened FdtFormat
  import opened FdtTree
  import opened FdtBlob
  import opened FdtWalk
  import opened FdtSplice
  import opened FdtStrings
  import opened FdtRw
  import opened FdtPack
  import opened FdtSw
  import opened FdtSwState

  // A version 17 header.
  function Header(magic: nat, total: nat, struct_: nat, strings: nat, rsv: nat, zstrings: nat, zstruct: nat): (h: bytes)
    requires magic < WORD && total < WORD && struct_ < WORD && strings < WORD && rsv < WORD
    requires zstrings < WORD && zstruct < WORD
    ensures |h| == HEADER_SIZE
  {
    Enc32(magic) + Enc32(total) + Enc32(struct_) + Enc32(strings) + Enc32(rsv)
    + Enc32(17) + Enc32(16) + Enc32(0) + Enc32(zstrings) + Enc32(zstruct)
  }

  lemma HeaderReads(s: bytes, magic: nat, total: nat, struct_: nat, strings: nat, rsv: nat, zstrings: nat, zstruct: nat)
    requires magic < WORD && total < WORD && struct_ < WORD && strings < WORD && rsv < WORD
    requires zstrings < WORD && zstruct < WORD
    requires HEADER_SIZE <= |s| && s[..HEADER_SIZE] == Header(magic, total, struct_, strings, rsv, zstrings, zstruct)
    ensures Hdr(s, MAGIC) == magic && Hdr(s, TOTALSIZE) == total && Hdr(s, OFF_STRUCT) == struct_
    ensures Hdr(s, OFF_STRINGS) == strings && Hdr(s, OFF_RSVMAP) == rsv && Hdr(s, VERSION) == 17
    ensures Hdr(s, LAST_COMP) == 16 && Hdr(s, SIZE_STRINGS) == zstrings && Hdr(s, SIZE_STRUCT) == zstruct
    ensures magic == FDT_MAGIC ==> CheckHeader(s) == 0
  {
    hide Enc32, Be32;
    WordAt(s, MAGIC, magic); WordAt(s, TOTALSIZE, total); WordAt(s, OFF_STRUCT, struct_);
    WordAt(s, OFF_STRINGS, strings); WordAt(s, OFF_RSVMAP, rsv); WordAt(s, VERSION, 17);
    WordAt(s, LAST_COMP, 16); WordAt(s, SIZE_STRINGS, zstrings); WordAt(s, SIZE_STRUCT, zstruct);
  }

  lemma WordAt(s: bytes, f: nat, v: nat)
    requires f + 4 <= HEADER_SIZE <= |s| && v < WORD && s[..HEADER_SIZE][f..f + 4] == Enc32(v)
    ensures Hdr(s, f) == v
  {
    hide Word, Enc32;
    assert s[f..f + 4] == s[..HEADER_SIZE][f..f + 4];
    assert Enc32(v)[0..4] == Enc32(v);
    Be32OfSlice(s, f, Enc32(v), 0);
  }

  // A structure size of -16: the header check accepts, with either width of its
  // sums, a structure that reaches far beyond the blob.
  lemma OrderTestWraps() returns (s: bytes)
    ensures HEADER_SIZE <= |s| && RwCheck(s) == 0 && !Misordered32(s, RSV_ENTRY, AsInt(Hdr(s, SIZE_STRUCT)))
    ensures !InOrder(s, RSV_ENTRY, Hdr(s, SIZE_STRUCT))
  {
    hide Enc32, Be32;
    s := Header(FDT_MAGIC, 64, 56, 56, 40, 0, WORD - 16) + seq(24, _ => 0);
    HeaderReads(s, FDT_MAGIC, 64, 56, 56, 40, 0, WORD - 16);
    StricterTest(s, RSV_ENTRY, WORD - 16);
  }

  // One unnamed node: its two tags and the end.
  const ROOT: bytes := [0, 0, 0, 1, 0, 0, 0, 0]
  const CLOSE: bytes := [0, 0, 0, 2]
  const END: bytes := [0, 0, 0, 9]

  lemma RootDecodes(st: bytes)
    requires st == ROOT + CLOSE + END
    ensures Decodes(st, [ROOT, CLOSE])
    ensures TokenOf(ROOT) == Some(Begin([])) && TokenOf(CLOSE) == Some(Close)
  {
    StrAtUnique(ROOT, 4, []);
    assert Flat([ROOT, CLOSE]) == ROOT + CLOSE by {
      assert [ROOT, CLOSE][1..] == [CLOSE] && [CLOSE][1..] == [];
      assert Flat([CLOSE]) == CLOSE + Flat([]);
    }
    assert Be32(st, 12) == FDT_END;
  }

  // A blob with such a structure block is the tree of that one node.
  lemma RootDenotes(s: bytes)
    requires Readable(s) && StructBlock(s) == ROOT + CLOSE + END
    ensures Denotes(s, Tree([], [])) && Chunks(s) == [ROOT, CLOSE]
    ensures Walkable(s) && Resolved(Chunks(s), StringBlock(s)) && OnNode(s, 0, 0) && NodeHere(s, 0, Hole, Tree([], []))
  {
    hide CheckHeader, Decodes, Walk, TokenOf;
    var (cs, strs) := ([ROOT, CLOSE], StringBlock(s));
    RootDecodes(StructBlock(s));
    assert cs[1..] == [CLOSE] && [CLOSE][1..] == [];
    assert EventsOf([CLOSE], strs) == [Shut] + EventsOf([], strs);
    assert EventsOf(cs, strs) == [Open([])] + [Shut];
    assert Events(Tree([], [])) == [Open([])] + ItemEvents([]) + [Shut];
    DenotesWhen(s, cs, Tree([], []));
    assert cs[..0] == [];
  }

  // No tree begins with a closing tag.
  lemma ClosedAtOnce(d: bytes, t: Tree)
    requires Readable(d) && 4 <= |StructBlock(d)| && StructBlock(d)[..4] == CLOSE
    ensures !Denotes(d, t)
  {
    hide CheckHeader, Walk, TokenOf, EventsOf, Events, Be32, Decodes;
    if Denotes(d, t) {
      var (st, cs) := (StructBlock(d), Chunks(d));
      FirstCloses(st, cs);
      FirstEvents(cs, StringBlock(d), t);
      assert false;
    }
  }

  lemma FirstCloses(st: bytes, cs: chunks)
    requires Decodes(st, cs) && 4 <= |st| < INT_LIMIT && st[..4] == CLOSE
    ensures cs != [] && TokenOf(cs[0]) == Some(Close)
  {
    assert st[0..4] == CLOSE[0..4];
    Be32OfSlice(st, 0, CLOSE, 0);
    DecodesAt(st, cs, 0);
    ChunkSize(cs[0]);
    assert cs[..0] == [];
    TagInBlock(st, 0, cs[0]);
  }

  lemma FirstEvents(cs: chunks, strs: bytes, t: Tree)
    requires cs != [] && TokenOf(cs[0]) == Some(Close)
    ensures EventsOf(cs, strs) != Events(t)
  {
    hide TokenOf, ItemEvents;
    assert ChunkEvents(cs[0], strs) == [Shut];
    assert EventsOf(cs, strs)[0] == Shut && Events(t)[0] == Open(t.name);
  }

  function Zeros(n: nat): (z: bytes)
    ensures |z| == n && forall i :: 0 <= i < n ==> z[i] == 0
  {
    seq(n, _ => 0)
  }

  // A blob the header check accepts although its reserve map runs on into the
  // structure, which a move to the front then overwrites.
  function Clobbered(): (s: bytes)
    ensures |s| == 128
  {
    Header(FDT_MAGIC, 96, 64, 80, 48, 16, 16) + Zeros(8) + Enc64(1) + Enc64(1) + (ROOT + CLOSE + END) + Zeros(48)
  }

  lemma ClobberedMap()
    ensures var s := Clobbered();
            && Hdr(s, OFF_RSVMAP) == 48 && Reserved(s).Some? && RsvSize(s) == 48
            && s[..HEADER_SIZE] == Header(FDT_MAGIC, 96, 64, 80, 48, 16, 16) && s[64..80] == ROOT + CLOSE + END
            && (forall i :: 80 <= i < 128 ==> s[i] == 0) && s[72..80] == CLOSE + END
  {
    hide Enc32, Enc64, Be32;
    var s := Clobbered();
    assert s[..HEADER_SIZE] == Header(FDT_MAGIC, 96, 64, 80, 48, 16, 16);
    HeaderReads(s, FDT_MAGIC, 96, 64, 80, 48, 16, 16);
    assert s[56..64] == Enc64(1)[0..8];
    Be64OfSlice(s, 56, Enc64(1), 0);
    assert s[72..80] == (CLOSE + END)[0..8];
    Be64OfSlice(s, 72, CLOSE + END, 0);
    TwoWords(CLOSE + END);
    assert s[88..96] == Zeros(8)[0..8];
    Be64OfSlice(s, 88, Zeros(8), 0);
    NoBits(Zeros(8));
    assert RsvList(s, 80) == Some([]);
    assert RsvList(s, 64).Some? && |RsvList(s, 64).value| == 1;
  }

  lemma TwoWords(b: bytes)
    requires b == CLOSE + END
    ensures Be64(b, 0) != 0
  {
    assert Be32(b, 4) == 9;
  }

  lemma NoBits(b: bytes)
    requires |b| == 8 && forall i :: 0 <= i < 8 ==> b[i] == 0
    ensures Be64(b, 0) == 0
  {
  }

  // fdt_pack of that blob: nothing the result denotes, and it is written past
  // the old totalsize.
  lemma PackLosesTree(d: bytes, t: Tree)
    ensures var s := Clobbered();
            && Ordered(s) && RwCheck(s) == 0 && PackRoom(s) && Denotes(s, Tree([], []))
            && !Unclobbered(s) && PackSize(s) == 120 && Hdr(s, TOTALSIZE) == 96
            && (Readable(d) && StructBlock(d) == Delivered(s).1 ==> !Denotes(d, t))
  {
    hide Enc32, Enc64, Be32, CheckHeader, RsvList, Delivered, Clobbered, Denotes, Unclobbered, Misordered;
    var s := Clobbered();
    ClobberedMap();
    HeaderReads(s, FDT_MAGIC, 96, 64, 80, 48, 16, 16);
    ClobberedStruct();
    RootDenotes(s);
    RwCheckOrdered(s);
    DeliveredMeans(s);
    assert StructBlock(s)[3] == 1 && CLOSE[3] == 2;
    assert Delivered(s).1[3] == Delivered(s).1[..4][3];
    if Readable(d) && StructBlock(d) == Delivered(s).1 {
      ClosedAtOnce(d, t);
    }
  }

  lemma ClobberedStruct()
    ensures var s := Clobbered();
            Ordered(s) && PackRoom(s) && |Delivered(s).1| == 16 && Delivered(s).1[..4] == CLOSE
  {
    hide Enc32, Enc64, Be32, CheckHeader, RsvList, Delivered, Clobbered;
    var s := Clobbered();
    ClobberedMap();
    HeaderReads(s, FDT_MAGIC, 96, 64, 80, 48, 16, 16);
    DeliveredParts(s);
    var x := Delivered(s).0;
    var m := Put(s, HEADER_SIZE, x);
    assert x == s[48..96];
    forall i | 0 <= i < 4 ensures Delivered(s).1[i] == CLOSE[i] {
      assert Delivered(s).1[i] == m[64 + i] == x[24 + i] == s[72 + i] == s[72..80][i];
    }
  }

  // A blob with room for a new name but not for its property.
  lemma NospaceGrows() returns (s: bytes)
    ensures Callable(s, 0, 0) && RwCheck(s) == 0 && OnNode(s, 0, 0) && NodeHere(s, 0, Hole, Tree([], []))
    ensures NameAlone(s, Tree([], []), [97])
    ensures DataSize(s) + Growth(StringBlock(s), Tree([], []), [97], 0) > Hdr(s, TOTALSIZE)
  {
    hide Enc32, Be32, Walk, Decodes, NextTag, TokenOf;
    s := Header(FDT_MAGIC, 80, 56, 72, 40, 0, 16) + Zeros(16) + (ROOT + CLOSE + END) + Zeros(8);
    assert s[..HEADER_SIZE] == Header(FDT_MAGIC, 80, 56, 72, 40, 0, 16) && s[56..72] == ROOT + CLOSE + END;
    HeaderReads(s, FDT_MAGIC, 80, 56, 72, 40, 0, 16);
    RootDenotes(s);
    assert Added([], [97]) == [97, 0] by {
      assert forall p: nat :: !StringHere([], p, [97]);
    }
    assert StringBlock(s) == [];
  }

  // A fresh buffer of 64 bytes and a name of 100: there is no room, and the
  // test does not see it.
  lemma LongNameSlips() returns (s: bytes, name: bytes)
    ensures Created(s, 64) && NoNul(name) && |name| == 100
    ensures NoRoom(s, name) && !RefusedRoom(s, name) && !Placeable(s, name)
  {
    hide Enc32, Be32;
    s := Header(FDT_SW_MAGIC, 64, 48, 64, 48, 0, 0) + Zeros(24);
    name := seq(100, _ => 97);
    assert s[..HEADER_SIZE] == Header(FDT_SW_MAGIC, 64, 48, 64, 48, 0, 0);
    HeaderReads(s, FDT_SW_MAGIC, 64, 48, 64, 48, 0, 0);
    RoomTestMeans(s, name);
  }

  // A fresh buffer of 64 bytes: a property with a name of six letters is
  // refused, its name stays, and the reserve entry taken next is written over it.
  lemma ReserveOverName() returns (s: bytes, name: bytes)
    ensures Created(s, 64) && NoNul(name) && Placeable(s, name)
    ensures var (err, s1) := Property(s, name, []);
            && err == NOSPACE && Writing(s1) && SwStrings(s1) == name + [0] && Clashes(s1)
            && AddReserve(s1, 0, 0).0 == 0 && !Writing(AddReserve(s1, 0, 0).1)
  {
    hide Enc32, Be32, Put, SetHdr, AddReserve, StrAt;
    s := Header(FDT_SW_MAGIC, 64, 48, 64, 48, 0, 0) + Zeros(24);
    name := [97, 97, 97, 97, 97, 97];
    assert s[..HEADER_SIZE] == Header(FDT_SW_MAGIC, 64, 48, 64, 48, 0, 0);
    HeaderReads(s, FDT_SW_MAGIC, 64, 48, 64, 48, 0, 0);
    var s1 := FindAddDown(s, name).1;
    GrownDown(s, name, s1);
    assert SwStrings(s) == [];
    assert Align4(0) == 0;
    assert !HasSpace(s1, 12);
    TakenReserve(s1);
    ReserveClash(s1, 0, 0);
  }

  lemma TakenReserve(s: bytes)
    requires Writing(s) && Clashes(s)
    ensures AddReserve(s, 0, 0).0 == 0
  {
    hide Put, Enc64, Be32;
  }
}
