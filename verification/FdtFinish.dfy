// fdt_finish: the string table moves down behind the structure block and every
// name offset is counted from its start instead of its end.
module FdtFinish {
  import opened ByteStrings
  import opened FdtFormat
  import opened FdtTree
  import opened FdtBlob
  import opened FdtWalk
  import opened FdtWip
  import opened FdtSplice
  import opened FdtPack
  import opened FdtStrings
  import opened FdtSw
  import opened FdtSwState

  // A property's name offset, corrected by the size of the string table.
  function Corrected(c: bytes, z: nat): (r: bytes)
    ensures |r| == |c|
  {
    if TokenOf(c).Some? && TokenOf(c).value.Prop? then
      Put(c, 8, Enc32((TokenOf(c).value.nameoff + z) % WORD))
    else c
  }

  function AllCorrected(cs: chunks, z: nat): (r: chunks)
    ensures |r| == |cs|
    ensures forall i :: 0 <= i < |cs| ==> r[i] == Corrected(cs[i], z)
  {
    if cs == [] then [] else [Corrected(cs[0], z)] + AllCorrected(cs[1..], z)
  }

  lemma CorrectedProp(c: bytes, z: nat)
    requires TokenOf(c).Some? && TokenOf(c).value.Prop?
    ensures TokenOf(Corrected(c, z)) == Some(Prop((TokenOf(c).value.nameoff + z) % WORD, TokenOf(c).value.value))
  {
    hide Align4, Word, Enc32;
    var no := (TokenOf(c).value.nameoff + z) % WORD;
    var c' := Put(c, 8, Enc32(no));
    PutBefore(c, 8, Enc32(no), 0, 4);
    Be32OfSlice(c', 0, c, 0);
    PutBefore(c, 8, Enc32(no), 4, 8);
    Be32OfSlice(c', 4, c, 4);
    PutSame(c, 8, Enc32(no));
    Be32OfSlice(c', 8, Enc32(no), 0);
    PutAfter(c, 8, Enc32(no), 12, 12 + Be32(c, 4));
  }

  // Counted from the end of the table before, from its start after: the same name.
  lemma CorrectedChunk(c: bytes, strs: bytes)
    requires TokenOf(c).Some? && SwChunkResolved(c, strs) && |strs| < INT_LIMIT
    ensures TokenOf(Corrected(c, |strs|)).Some?
    ensures ChunkResolved(Corrected(c, |strs|), strs)
    ensures ChunkEvents(Corrected(c, |strs|), strs) == SwChunkEvents(c, strs)
  {
    hide TokenOf, StrAt, Put, Enc32;
    if TokenOf(c).value.Prop? {
      hide Corrected;
      var o := TokenOf(c).value.nameoff;
      CorrectedProp(c, |strs|);
      StrAtBelow(strs, SwIndex(strs, o));
      Wraps(o + |strs|);
    }
  }

  lemma Wraps(n: nat)
    requires WORD <= n < 2 * WORD
    ensures n % WORD == n - WORD
  {
  }

  lemma {:induction false} CorrectedAll(cs: chunks, strs: bytes)
    requires Chunked(cs) && SwResolved(cs, strs) && |strs| < INT_LIMIT
    ensures var cs' := AllCorrected(cs, |strs|);
            && Chunked(cs') && Resolved(cs', strs) && EventsOf(cs', strs) == SwEvents(cs, strs)
            && |Flat(cs')| == |Flat(cs)|
  {
    hide TokenOf, ChunkResolved, SwChunkResolved, Corrected, SwChunkEvents, ChunkEvents;
    if cs != [] {
      CorrectedChunk(cs[0], strs);
      CorrectedAll(cs[1..], strs);
      assert cs == [cs[0]] + cs[1..];
    }
  }

  // Header words and blocks once the terminator is in and the strings have moved.
  function Relocated(s: bytes): (r: bytes)
    requires Writing(s) && HasSpace(s, 4)
    ensures |r| == |s|
  {
    GrabbedKeeps(s, 4, Enc32(FDT_END));
    var s1 := Grabbed(s, 4, Enc32(FDT_END));
    var top := Hdr(s1, OFF_STRUCT) + Hdr(s1, SIZE_STRUCT);
    SetHdr(Put(s1, top, SwStrings(s1)), OFF_STRINGS, top)
  }

  lemma RelocatedBlocks(s: bytes, cs: chunks, evs: events, rsv: seq<(nat, nat)>)
    requires SwText(s, cs, evs, rsv) && HasSpace(s, 4)
    ensures var r := Relocated(s);
            && InBounds(r) && Separate(r) && Hdr(r, VERSION) == 17 && Hdr(r, LAST_COMP) == 16
            && Hdr(r, OFF_RSVMAP) == SW_RSVMAP && Hdr(r, OFF_STRUCT) == Hdr(s, OFF_STRUCT)
            && Hdr(r, OFF_STRINGS) == Hdr(s, OFF_STRUCT) + Hdr(s, SIZE_STRUCT) + 4
            && Hdr(r, SIZE_STRUCT) == Hdr(s, SIZE_STRUCT) + 4 && Hdr(r, SIZE_STRINGS) == Hdr(s, SIZE_STRINGS)
            && Hdr(r, MAGIC) == FDT_SW_MAGIC && Hdr(r, TOTALSIZE) == |s|
            && StringBlock(r) == SwStrings(s)
            && StructBlock(r) == Flat(cs) + Enc32(FDT_END)
            && r[SW_RSVMAP..Hdr(s, OFF_STRUCT)] == s[SW_RSVMAP..Hdr(s, OFF_STRUCT)]
  {
    hide Be32, Put, TokenOf, SwResolved, SwReserve, Grabbed, Flat;
    var e := Enc32(FDT_END);
    GrabbedKeeps(s, 4, e);
    var s1 := Grabbed(s, 4, e);
    assert SwStruct(s1) == Flat(cs) + e;
    var (o, strs) := (Hdr(s1, OFF_STRUCT), SwStrings(s1));
    var top := o + Hdr(s1, SIZE_STRUCT);
    var m := Put(s1, top, strs);
    PutBefore(s1, top, strs, 0, HEADER_SIZE);
    HeaderKept(s1, m);
    HeaderStore(m, OFF_STRINGS, top);
    var r := Relocated(s);
    PutSame(s1, top, strs);
    SlicePastHeader(m, r, top, top + |strs|);
    PutBefore(s1, top, strs, o, top);
    SlicePastHeader(m, r, o, top);
    PutBefore(s1, top, strs, SW_RSVMAP, o);
    SlicePastHeader(m, r, SW_RSVMAP, o);
    GrabbedSize(s, e);
  }

  lemma GrabbedSize(s: bytes, b: bytes)
    requires Writing(s) && HasSpace(s, 4) && |b| == 4
    ensures Hdr(Grabbed(s, 4, b), SIZE_STRUCT) == Hdr(s, SIZE_STRUCT) + 4
    ensures Hdr(Grabbed(s, 4, b), SIZE_STRINGS) == Hdr(s, SIZE_STRINGS)
  {
    hide Be32, Put;
    GrabbedKeeps(s, 4, b);
  }

  // fdt_finish on a buffer that holds chunks cs.
  function Finished(s: bytes, cs: chunks): (int, bytes)
    requires Writing(s) && |Flat(AllCorrected(cs, Hdr(s, SIZE_STRINGS)))| == Hdr(s, SIZE_STRUCT)
  {
    if !HasSpace(s, 4) then (NOSPACE, s)
    else
      var r := Relocated(s);
      var z := Hdr(s, SIZE_STRINGS);
      var r1 := Put(r, Hdr(s, OFF_STRUCT), Flat(AllCorrected(cs, z)));
      var r2 := SetHdr(r1, TOTALSIZE, Hdr(s, OFF_STRUCT) + Hdr(s, SIZE_STRUCT) + 4 + z);
      (0, SetHdr(r2, MAGIC, FDT_MAGIC))
  }

  // The finished blob reads back as what was written: the same events in the
  // same order, with the same names and values, and the reserve entries.
  lemma FinishedReads(s: bytes, cs: chunks, evs: events, rsv: seq<(nat, nat)>)
    requires SwText(s, cs, evs, rsv) && HasSpace(s, 4)
    ensures |Flat(AllCorrected(cs, Hdr(s, SIZE_STRINGS)))| == Hdr(s, SIZE_STRUCT)
    ensures var d := Finished(s, cs).1;
            && Readable(d) && Separate(d)
            && Decodes(StructBlock(d), Chunks(d)) && Resolved(Chunks(d), StringBlock(d))
            && EventsOf(Chunks(d), StringBlock(d)) == evs
            && Hdr(d, OFF_RSVMAP) == SW_RSVMAP && Hdr(d, OFF_STRUCT) == SW_RSVMAP + 16 * |rsv|
            && d[SW_RSVMAP..Hdr(s, OFF_STRUCT)] == s[SW_RSVMAP..Hdr(s, OFF_STRUCT)]
            && Hdr(d, TOTALSIZE) == DataSize(d)
            && Hdr(d, OFF_STRINGS) == Hdr(d, OFF_STRUCT) + Hdr(d, SIZE_STRUCT)
  {
    hide Be32, Put, TokenOf, SwResolved, Relocated, Flat, SwEvents, Walk, Decodes, CheckHeader, Enc32;
    hide Resolved, EventsOf, SetHdr, Separate, Be64;
    var strs := SwStrings(s);
    CorrectedAll(cs, strs);
    RelocatedBlocks(s, cs, evs, rsv);
    var cs' := AllCorrected(cs, |strs|);
    var r1 := CorrectedBody(s, cs, evs, rsv);
    var total := Hdr(s, OFF_STRUCT) + Hdr(s, SIZE_STRUCT) + 4 + |strs|;
    var d := SetHdr(SetHdr(r1, TOTALSIZE, total), MAGIC, FDT_MAGIC);
    LastWords(r1, total, d);
    EndDecodes(StructBlock(d), cs');
    WalkableWhen(d, cs');
  }

  // The blob before the last two header stores.
  lemma CorrectedBody(s: bytes, cs: chunks, evs: events, rsv: seq<(nat, nat)>) returns (r1: bytes)
    requires SwText(s, cs, evs, rsv) && HasSpace(s, 4)
    requires |Flat(AllCorrected(cs, Hdr(s, SIZE_STRINGS)))| == |Flat(cs)|
    ensures Hdr(s, OFF_STRUCT) + |Flat(cs)| <= |s|
    ensures r1 == Put(Relocated(s), Hdr(s, OFF_STRUCT), Flat(AllCorrected(cs, Hdr(s, SIZE_STRINGS))))
    ensures InBounds(r1) && Separate(r1) && Hdr(r1, VERSION) == 17 && Hdr(r1, LAST_COMP) == 16
    ensures Hdr(r1, OFF_RSVMAP) == SW_RSVMAP && Hdr(r1, OFF_STRUCT) == Hdr(s, OFF_STRUCT)
    ensures Hdr(r1, SIZE_STRUCT) == Hdr(s, SIZE_STRUCT) + 4 && Hdr(r1, SIZE_STRINGS) == Hdr(s, SIZE_STRINGS)
    ensures Hdr(r1, OFF_STRINGS) == Hdr(s, OFF_STRUCT) + Hdr(s, SIZE_STRUCT) + 4
    ensures StringBlock(r1) == SwStrings(s)
    ensures StructBlock(r1) == Flat(AllCorrected(cs, Hdr(s, SIZE_STRINGS))) + Enc32(FDT_END)
    ensures r1[SW_RSVMAP..Hdr(s, OFF_STRUCT)] == s[SW_RSVMAP..Hdr(s, OFF_STRUCT)]
  {
    hide Be32, Put, TokenOf, SwResolved, SwReserve, Relocated, Flat, SwEvents, Enc32;
    RelocatedBlocks(s, cs, evs, rsv);
    var b := Flat(AllCorrected(cs, Hdr(s, SIZE_STRINGS)));
    var r := Relocated(s);
    var o := Hdr(s, OFF_STRUCT);
    r1 := Put(r, o, b);
    BlockStore(r, b);
    PutInSlice(r, o, o + |b| + 4, 0, b);
    PutFirst(Flat(cs), Enc32(FDT_END), b);
  }

  // totalsize cut to the data and the final magic.
  lemma LastWords(r1: bytes, total: nat, d: bytes)
    requires InBounds(r1) && Separate(r1) && Hdr(r1, VERSION) == 17 && Hdr(r1, LAST_COMP) == 16
    requires SW_RSVMAP <= Hdr(r1, OFF_STRUCT) && Hdr(r1, OFF_STRUCT) + Hdr(r1, SIZE_STRUCT) == Hdr(r1, OFF_STRINGS)
    requires total == DataSize(r1)
    requires d == SetHdr(SetHdr(r1, TOTALSIZE, total), MAGIC, FDT_MAGIC)
    ensures Readable(d) && Separate(d) && Hdr(d, TOTALSIZE) == total == DataSize(d)
    ensures Hdr(d, OFF_RSVMAP) == Hdr(r1, OFF_RSVMAP) && Hdr(d, OFF_STRUCT) == Hdr(r1, OFF_STRUCT)
    ensures Hdr(d, OFF_STRINGS) == Hdr(r1, OFF_STRINGS) && Hdr(d, SIZE_STRUCT) == Hdr(r1, SIZE_STRUCT)
    ensures Hdr(d, VERSION) == 17
    ensures StructBlock(d) == StructBlock(r1) && StringBlock(d) == StringBlock(r1)
    ensures d[SW_RSVMAP..Hdr(r1, OFF_STRUCT)] == r1[SW_RSVMAP..Hdr(r1, OFF_STRUCT)]
  {
    hide Be32, Put;
    var r2 := SetHdr(r1, TOTALSIZE, total);
    HeaderStore(r1, TOTALSIZE, total);
    HeaderStore(r2, MAGIC, FDT_MAGIC);
    assert d[HEADER_SIZE..] == r1[HEADER_SIZE..];
    var (o, q) := (Hdr(r1, OFF_STRUCT), Hdr(r1, OFF_STRINGS));
    SlicePastHeader(r1, d, o, q);
    SlicePastHeader(r1, d, q, total);
    SlicePastHeader(r1, d, SW_RSVMAP, o);
    FinishedHeader(d);
  }

  lemma FinishedHeader(d: bytes)
    requires InBounds(d) && Hdr(d, MAGIC) == FDT_MAGIC && Hdr(d, VERSION) == 17 && Hdr(d, LAST_COMP) == 16
    ensures Readable(d)
  {
    hide Be32;
  }

  lemma PutFirst(a: bytes, e: bytes, b: bytes)
    requires |b| == |a|
    ensures Put(a + e, 0, b) == b + e
  {
  }

  lemma EndDecodes(st: bytes, cs: chunks)
    requires Chunked(cs) && st == Flat(cs) + Enc32(FDT_END)
    ensures Decodes(st, cs)
  {
    hide TokenOf, Enc32, Word;
    var n := |Flat(cs)|;
    assert st[n..n + 4] == Enc32(FDT_END)[0..4];
    Be32OfSlice(st, n, Enc32(FDT_END), 0);
  }

  // A store over the structure block before the header is final.
  lemma BlockStore(r: bytes, b: bytes)
    requires InBounds(r) && Separate(r) && |b| <= Hdr(r, SIZE_STRUCT)
    requires SW_RSVMAP <= Hdr(r, OFF_STRUCT) && Hdr(r, OFF_STRINGS) == Hdr(r, OFF_STRUCT) + Hdr(r, SIZE_STRUCT)
    ensures var r1 := Put(r, Hdr(r, OFF_STRUCT), b);
            && InBounds(r1) && Separate(r1)
            && Hdr(r1, OFF_STRUCT) == Hdr(r, OFF_STRUCT) && Hdr(r1, SIZE_STRUCT) == Hdr(r, SIZE_STRUCT)
            && Hdr(r1, OFF_STRINGS) == Hdr(r, OFF_STRINGS) && Hdr(r1, SIZE_STRINGS) == Hdr(r, SIZE_STRINGS)
            && Hdr(r1, VERSION) == Hdr(r, VERSION) && Hdr(r1, LAST_COMP) == Hdr(r, LAST_COMP)
            && Hdr(r1, OFF_RSVMAP) == Hdr(r, OFF_RSVMAP) && Hdr(r1, TOTALSIZE) == Hdr(r, TOTALSIZE)
            && Hdr(r1, MAGIC) == Hdr(r, MAGIC)
            && StringBlock(r1) == StringBlock(r)
            && r1[SW_RSVMAP..Hdr(r, OFF_STRUCT)] == r[SW_RSVMAP..Hdr(r, OFF_STRUCT)]
  {
    hide Be32, Put;
    var (p, q) := (Hdr(r, OFF_STRUCT), Hdr(r, OFF_STRINGS));
    PutBefore(r, p, b, 0, HEADER_SIZE);
    HeaderKept(r, Put(r, p, b));
    PutAfter(r, p, b, q, q + Hdr(r, SIZE_STRINGS));
    PutBefore(r, p, b, SW_RSVMAP, p);
  }

  // Entries ended by a zero size read back as the reserve list.
  lemma {:induction false} ReserveReads(d: bytes, s: bytes, list: seq<(nat, nat)>, k: nat)
    requires Writing(s) && SwReserve(s, list + [(0, 0)]) && |d| == |s|
    requires d[SW_RSVMAP..Hdr(s, OFF_STRUCT)] == s[SW_RSVMAP..Hdr(s, OFF_STRUCT)]
    requires forall i :: 0 <= i < |list| ==> list[i].1 != 0
    requires k <= |list|
    ensures RsvList(d, SW_RSVMAP + 16 * k) == Some(list[k..])
    decreases |list| - k
  {
    hide Be64, Be32;
    var all := list + [(0, 0)];
    var (lo, hi) := (SW_RSVMAP, Hdr(s, OFF_STRUCT));
    SliceOfSlice(s, lo, hi, 16 * k, 16 * k + 8);
    SliceOfSlice(d, lo, hi, 16 * k, 16 * k + 8);
    Be64OfSlice(d, lo + 16 * k, s, lo + 16 * k);
    SliceOfSlice(s, lo, hi, 16 * k + 8, 16 * k + 16);
    SliceOfSlice(d, lo, hi, 16 * k + 8, 16 * k + 16);
    Be64OfSlice(d, lo + 16 * k + 8, s, lo + 16 * k + 8);
    assert Be64(s, lo + 16 * k) == all[k].0 && Be64(s, lo + 16 * k + 8) == all[k].1;
    if k < |list| {
      ReserveReads(d, s, list, k + 1);
      assert list[k..] == [list[k]] + list[k + 1..];
    } else {
      assert list[k..] == [];
    }
  }

  lemma CreatedHolds(s: bytes, n: nat)
    requires Created(s, n)
    ensures SwText(s, [], [], [])
  {
    hide Be32;
  }

  // Write, then read: for every buffer fdt_create has prepared and every
  // sequence of writer calls the code handles, refused ones among them, the tag
  // walk over the blob fdt_finish leaves is the calls that succeeded, in order,
  // each with its name and value.  If they nest like a tree the blob denotes
  // that tree, and if they began with a terminated reserve map the editors
  // accept the blob and fdt_pack keeps it.
  lemma WriteThenRead(s0: bytes, n: nat, calls: seq<Call>) returns (cs: chunks)
    requires Created(s0, n)
    requires forall i :: 0 <= i < |calls| ==> Sound(calls[i])
    requires Run(s0, calls).Some? && HasSpace(Run(s0, calls).value.0, 4)
    ensures var (s, done) := Run(s0, calls).value;
            && SwText(s, cs, CallsEvents(done), CallsReserve(done))
            && |Flat(AllCorrected(cs, Hdr(s, SIZE_STRINGS)))| == Hdr(s, SIZE_STRUCT)
            && var (err, d) := Finished(s, cs);
            && err == 0 && Walkable(d) && Resolved(Chunks(d), StringBlock(d))
            && EventsOf(Chunks(d), StringBlock(d)) == CallsEvents(done)
            && (forall t :: Events(t) == CallsEvents(done) ==> Denotes(d, t))
            && (forall list {:trigger ReserveCalls(done, list)} :: ReserveCalls(done, list) ==>
                  Reserved(d) == Some(list) && Ordered(d) && PackRoom(d) && Unclobbered(d))
  {
    hide Be32, SwText, Finished, Run, Decodes, Walk, Resolved, EventsOf, Events, CheckHeader, Separate, RsvList;
    CreatedHolds(s0, n);
    cs := RunHolds(s0, [], [], [], calls);
    var (s, done) := Run(s0, calls).value;
    assert [] + CallsEvents(done) == CallsEvents(done) && [] + CallsReserve(done) == CallsReserve(done);
    FinishedReads(s, cs, CallsEvents(done), CallsReserve(done));
    var d := Finished(s, cs).1;
    FinishedSize(s, cs);
    forall t | Events(t) == CallsEvents(done) ensures Denotes(d, t) {
      DenotesAs(d, t);
    }
    forall list | ReserveCalls(done, list)
      ensures Reserved(d) == Some(list) && Ordered(d) && PackRoom(d) && Unclobbered(d)
    {
      hide Unclobbered;
      SwReserveOf(s, cs, CallsEvents(done), CallsReserve(done));
      ReserveReads(d, s, list, 0);
      assert list[0..] == list;
      MapBeforeStruct(d);
    }
  }

  // The reserve entries of the calls are list and the zero entry that ends it.
  ghost predicate ReserveCalls(calls: seq<Call>, list: seq<(nat, nat)>) {
    && CallsReserve(calls) == list + [(0, 0)]
    && forall i :: 0 <= i < |list| ==> list[i].1 != 0
  }

  lemma SwReserveOf(s: bytes, cs: chunks, evs: events, rsv: seq<(nat, nat)>)
    requires SwText(s, cs, evs, rsv)
    ensures Writing(s) && SwReserve(s, rsv)
  {
  }

  lemma FinishedSize(s: bytes, cs: chunks)
    requires Writing(s) && |Flat(AllCorrected(cs, Hdr(s, SIZE_STRINGS)))| == Hdr(s, SIZE_STRUCT)
    ensures |Finished(s, cs).1| == |s| && (HasSpace(s, 4) ==> Finished(s, cs).0 == 0)
  {
    hide Be32, Put, Relocated;
  }

  lemma DenotesAs(d: bytes, t: Tree)
    requires Readable(d) && Decodes(StructBlock(d), Chunks(d)) && Resolved(Chunks(d), StringBlock(d))
    requires EventsOf(Chunks(d), StringBlock(d)) == Events(t)
    ensures Denotes(d, t)
  {
  }
}
