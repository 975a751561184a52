// What a buffer under construction stands for, and what each writer call adds.
module FdtSwState {
  import opened ByteStrings
  import opened FdtFormat
  import opened FdtTree
  import opened FdtBlob
  import opened FdtWip
  import opened FdtSplice
  import opened FdtSw

  // Until fdt_finish a name offset counts down from the end of the buffer, as
  // a negative 32-bit number; here is its place in the string table.
  function SwIndex(strs: bytes, o: nat): int {
    |strs| + o - WORD
  }

  predicate SwChunkResolved(c: bytes, strs: bytes) {
    match TokenOf(c)
    case Some(Prop(o, _)) => o < WORD && 0 <= SwIndex(strs, o) && StrAt(strs, SwIndex(strs, o)).Some?
    case _ => true
  }

  function SwChunkEvents(c: bytes, strs: bytes): events {
    match TokenOf(c)
    case Some(Begin(name)) => [Open(name)]
    case Some(Prop(o, value)) => [Attr(if SwIndex(strs, o) < 0 then [] else NameAt(strs, SwIndex(strs, o)), value)]
    case Some(Close) => [Shut]
    case _ => []
  }

  function SwEvents(cs: chunks, strs: bytes): events {
    if cs == [] then [] else SwChunkEvents(cs[0], strs) + SwEvents(cs[1..], strs)
  }

  ghost predicate SwResolved(cs: chunks, strs: bytes) {
    forall i :: 0 <= i < |cs| ==> SwChunkResolved(cs[i], strs)
  }

  // The reserve entries written so far.
  ghost predicate SwReserve(s: bytes, rsv: seq<(nat, nat)>)
    requires Writing(s)
  {
    && Hdr(s, OFF_STRUCT) == SW_RSVMAP + 16 * |rsv|
    && forall k :: 0 <= k < |rsv| ==>
         Be64(s, SW_RSVMAP + 16 * k) == rsv[k].0 && Be64(s, SW_RSVMAP + 16 * k + 8) == rsv[k].1
  }

  // The buffer holds the chunks cs, which say evs, and the reserve entries rsv.
  ghost predicate SwText(s: bytes, cs: chunks, evs: events, rsv: seq<(nat, nat)>) {
    && Writing(s)
    && Chunked(cs) && SwStruct(s) == Flat(cs)
    && SwResolved(cs, SwStrings(s)) && SwEvents(cs, SwStrings(s)) == evs
    && SwReserve(s, rsv)
  }

  lemma {:induction false} SwEventsCat(a: chunks, b: chunks, strs: bytes)
    ensures SwEvents(a + b, strs) == SwEvents(a, strs) + SwEvents(b, strs)
  {
    if a == [] {
      assert a + b == b;
    } else {
      assert (a + b)[1..] == a[1..] + b;
      SwEventsCat(a[1..], b, strs);
    }
  }

  // Growing the table downward keeps every offset counted from its end.
  lemma {:induction false} SwEventsGrow(cs: chunks, more: bytes, strs: bytes)
    requires SwResolved(cs, strs)
    ensures SwResolved(cs, more + strs)
    ensures SwEvents(cs, more + strs) == SwEvents(cs, strs)
  {
    if cs != [] {
      SwChunkGrow(cs[0], more, strs);
      SwEventsGrow(cs[1..], more, strs);
      assert cs == [cs[0]] + cs[1..];
    }
  }

  lemma SwChunkGrow(c: bytes, more: bytes, strs: bytes)
    requires SwChunkResolved(c, strs)
    ensures SwChunkResolved(c, more + strs) && SwChunkEvents(c, more + strs) == SwChunkEvents(c, strs)
  {
    hide StrAt;
    match TokenOf(c)
    case Some(Prop(o, _)) => StrAtSuffix(more, strs, SwIndex(strs, o));
    case _ =>
  }

  // Reserve map, strings and everything else but the structure block's end stay.
  lemma GrabbedKeeps(s: bytes, len: nat, b: bytes)
    requires Writing(s) && HasSpace(s, len) && |b| <= len
    ensures var s' := Grabbed(s, len, b);
            && Writing(s') && SwStrings(s') == SwStrings(s)
            && Hdr(s', OFF_STRUCT) == Hdr(s, OFF_STRUCT)
            && s'[SW_RSVMAP..Hdr(s, OFF_STRUCT)] == s[SW_RSVMAP..Hdr(s, OFF_STRUCT)]
            && |SwStruct(s')| == |SwStruct(s)| + len
            && SwStruct(s') == SwStruct(s) + b + SwStruct(s')[|SwStruct(s)| + |b|..]
  {
    hide Be32, Put, SetHdr, Grabbed, Hdr;
    var (z, o) := (Hdr(s, SIZE_STRUCT), Hdr(s, OFF_STRUCT));
    var s1 := SetHdr(s, SIZE_STRUCT, z + len);
    var s' := Grabbed(s, len, b);
    GrabbedHeader(s, len, b);
    PutSame(s1, o + z, b);
    GrabbedSlice(s, s1, s', o + z, b, SW_RSVMAP, o);
    GrabbedSlice(s, s1, s', o + z, b, o, o + z);
    var q := |s| - Hdr(s, SIZE_STRINGS);
    GrabbedSlice(s, s1, s', o + z, b, q, |s|);
    assert s'[q..] == s'[q..|s|] && s[q..] == s[q..|s|];
    ThreeSlices(s', o, o + z, o + z + |b|, o + z + len);
    SliceOfSlice(s', o, o + z + len, z + |b|, z + len);
  }

  lemma ThreeSlices(s: bytes, i: nat, j: nat, k: nat, l: nat)
    requires i <= j <= k <= l <= |s|
    ensures s[i..l] == s[i..j] + s[j..k] + s[k..l]
  {
  }

  lemma GrabbedHeader(s: bytes, len: nat, b: bytes)
    requires Writing(s) && HasSpace(s, len) && |b| <= len
    ensures var (s', z, o) := (Grabbed(s, len, b), Hdr(s, SIZE_STRUCT), Hdr(s, OFF_STRUCT));
            var s1 := SetHdr(s, SIZE_STRUCT, z + len);
            && Writing(s') && |s'| == |s| == |s1| && s1[HEADER_SIZE..] == s[HEADER_SIZE..]
            && s' == Put(s1, o + z, b)
            && Hdr(s', OFF_STRUCT) == o && Hdr(s', SIZE_STRUCT) == z + len
            && Hdr(s', SIZE_STRINGS) == Hdr(s, SIZE_STRINGS)
  {
    hide Be32, Put;
    var (z, o) := (Hdr(s, SIZE_STRUCT), Hdr(s, OFF_STRUCT));
    var s1 := SetHdr(s, SIZE_STRUCT, z + len);
    HeaderStore(s, SIZE_STRUCT, z + len);
    PutBefore(s1, o + z, b, 0, HEADER_SIZE);
    HeaderKept(s1, Put(s1, o + z, b));
  }

  lemma GrabbedSlice(s: bytes, s1: bytes, s': bytes, at: nat, b: bytes, i: nat, j: nat)
    requires HEADER_SIZE <= i <= j <= |s| == |s1| && at + |b| <= |s|
    requires s1[HEADER_SIZE..] == s[HEADER_SIZE..]
    requires s' == Put(s1, at, b)
    requires j <= at || at + |b| <= i
    ensures s'[i..j] == s[i..j]
  {
    hide Put;
    SlicePastHeader(s, s1, i, j);
    if j <= at {
      PutBefore(s1, at, b, i, j);
    } else {
      PutAfter(s1, at, b, i, j);
    }
  }

  lemma ReserveKept(s: bytes, s': bytes, rsv: seq<(nat, nat)>)
    requires Writing(s) && Writing(s') && SwReserve(s, rsv)
    requires Hdr(s', OFF_STRUCT) == Hdr(s, OFF_STRUCT)
    requires s'[SW_RSVMAP..Hdr(s, OFF_STRUCT)] == s[SW_RSVMAP..Hdr(s, OFF_STRUCT)]
    ensures SwReserve(s', rsv)
  {
    hide Be64, Be32;
    forall k | 0 <= k < |rsv|
      ensures Be64(s', SW_RSVMAP + 16 * k) == rsv[k].0 && Be64(s', SW_RSVMAP + 16 * k + 8) == rsv[k].1
    {
      var (lo, hi) := (SW_RSVMAP, Hdr(s, OFF_STRUCT));
      SliceOfSlice(s, lo, hi, 16 * k, 16 * k + 8);
      SliceOfSlice(s', lo, hi, 16 * k, 16 * k + 8);
      Be64OfSlice(s', lo + 16 * k, s, lo + 16 * k);
      SliceOfSlice(s, lo, hi, 16 * k + 8, 16 * k + 16);
      SliceOfSlice(s', lo, hi, 16 * k + 8, 16 * k + 16);
      Be64OfSlice(s', lo + 16 * k + 8, s, lo + 16 * k + 8);
    }
  }

  // One more chunk: its bytes b, then whatever the buffer held as padding.
  lemma GrabbedHolds(s: bytes, cs: chunks, evs: events, rsv: seq<(nat, nat)>, len: nat, b: bytes) returns (c: bytes)
    requires SwText(s, cs, evs, rsv)
    requires HasSpace(s, len) && |b| <= len
    ensures |c| == len && b <= c
    ensures TokenOf(c).Some? && SwChunkResolved(c, SwStrings(s)) ==>
              SwText(Grabbed(s, len, b), cs + [c], evs + SwChunkEvents(c, SwStrings(s)), rsv)
  {
    hide Be32, TokenOf, SwChunkResolved, Grabbed, SwReserve;
    var s' := Grabbed(s, len, b);
    GrabbedKeeps(s, len, b);
    c := b + SwStruct(s')[|SwStruct(s)| + |b|..];
    FlatCat(cs, [c]);
    FlatOne(c);
    ReserveKept(s, s', rsv);
    SwEventsCat(cs, [c], SwStrings(s));
    SwEventsOne(c, SwStrings(s));
  }

  lemma SwEventsOne(c: bytes, strs: bytes)
    ensures SwEvents([c], strs) == SwChunkEvents(c, strs)
  {
    assert [c][1..] == [];
  }

  // A writer call with its arguments.
  datatype Call =
    | Reserve(addr: nat, size: nat)
    | BeginCall(name: bytes)
    | Set(name: bytes, val: bytes)
    | EndCall

  predicate Sound(call: Call) {
    match call
    case Reserve(addr, size) => addr < WORD * WORD && size < WORD * WORD
    case BeginCall(name) => NoNul(name)
    case Set(name, val) => NoNul(name) && |val| < INT_LIMIT
    case EndCall => true
  }

  // A call the code handles in this state: every one but a property whose new
  // name is longer than what the buffer has below the string table, and a
  // reserve entry that would be written over that table.
  predicate Handled(s: bytes, call: Call)
    requires Writing(s)
  {
    match call
    case Set(name, _) => Placeable(s, name)
    case Reserve(_, _) => !Clashes(s)
    case _ => true
  }

  // fdt_add_reservemap_entry compares with the buffer's size only.
  predicate Clashes(s: bytes)
    requires Writing(s)
  {
    && Hdr(s, SIZE_STRUCT) == 0
    && Hdr(s, OFF_STRUCT) + 16 <= |s| < Hdr(s, OFF_STRUCT) + 16 + Hdr(s, SIZE_STRINGS)
  }

  // A reserve entry that is taken leaves the buffer a buffer under construction
  // exactly when it stays below the strings.
  lemma ReserveClash(s: bytes, addr: nat, size: nat)
    requires Writing(s) && addr < WORD * WORD && size < WORD * WORD && AddReserve(s, addr, size).0 == 0
    ensures Writing(AddReserve(s, addr, size).1) <==> !Clashes(s)
  {
    hide Be32, Put, Enc64;
    ReserveHeader(s, addr, size);
  }

  lemma ReserveHeader(s: bytes, addr: nat, size: nat)
    requires Writing(s) && addr < WORD * WORD && size < WORD * WORD && AddReserve(s, addr, size).0 == 0
    ensures var (s', o) := (AddReserve(s, addr, size).1, Hdr(s, OFF_STRUCT));
            && |s'| == |s| && Hdr(s', OFF_STRUCT) == o + 16 && o + 16 <= |s|
            && Hdr(s', MAGIC) == FDT_SW_MAGIC && Hdr(s', TOTALSIZE) == |s| && Hdr(s', VERSION) == Hdr(s, VERSION)
            && Hdr(s', LAST_COMP) == Hdr(s, LAST_COMP) && Hdr(s', OFF_RSVMAP) == SW_RSVMAP
            && Hdr(s', SIZE_STRUCT) == 0 && Hdr(s', SIZE_STRINGS) == Hdr(s, SIZE_STRINGS)
            && s'[HEADER_SIZE..] == Put(s, o, Enc64(addr) + Enc64(size))[HEADER_SIZE..]
  {
    hide Be32, Put, Enc64;
    var (o, b) := (Hdr(s, OFF_STRUCT), Enc64(addr) + Enc64(size));
    PutBefore(s, o, b, 0, HEADER_SIZE);
    HeaderKept(s, Put(s, o, b));
    HeaderStore(Put(s, o, b), OFF_STRUCT, o + 16);
  }

  // No strings without a tag.  It takes a refused property to leave this state:
  // in it no reserve entry runs into the strings.
  predicate Clean(s: bytes)
    requires Writing(s)
  {
    Hdr(s, SIZE_STRUCT) == 0 ==> Hdr(s, SIZE_STRINGS) == 0
  }

  lemma StaysClean(s: bytes, call: Call)
    requires Writing(s) && Sound(call) && Clean(s)
    ensures !Clashes(s)
    ensures Handled(s, call) && (Step(s, call).0 == 0 || !call.Set?) ==>
              Writing(Step(s, call).1) && Clean(Step(s, call).1)
  {
    hide Be32, Put, Grabbed, Enc64, FindAddDown, SwStruct, SwStrings, Placeable, Enc32;
    if Handled(s, call) && Step(s, call).0 == 0 {
      match call
      case Reserve(addr, size) => ReserveHeader(s, addr, size);
      case BeginCall(name) =>
        GrabbedHeader(s, 4 + Align4(|name| + 1), Enc32(FDT_BEGIN_NODE) + name + [0]);
      case Set(name, val) => PropertyGrows(s, name, val);
      case EndCall => GrabbedHeader(s, 4, Enc32(FDT_END_NODE));
    }
  }

  lemma PropertyGrows(s: bytes, name: bytes, val: bytes)
    requires Writing(s) && NoNul(name) && Placeable(s, name) && |val| < INT_LIMIT && Property(s, name, val).0 == 0
    ensures Writing(Property(s, name, val).1) && Hdr(Property(s, name, val).1, SIZE_STRUCT) > 0
  {
    hide Be32, Put, Grabbed, FindAddDown, SwStruct, SwStrings, Placeable;
    var (nameoff, s1) := FindAddDown(s, name);
    AddedDown(s, name);
    GrabbedHeader(s1, 12 + Align4(|val|), PropHeader(nameoff, |val|) + val);
  }

  function Step(s: bytes, call: Call): (int, bytes)
    requires Writing(s) && Sound(call) && Handled(s, call)
  {
    match call
    case Reserve(addr, size) => AddReserve(s, addr, size)
    case BeginCall(name) => BeginNode(s, name)
    case Set(name, val) => Property(s, name, val)
    case EndCall => EndNode(s)
  }

  function CallEvents(call: Call): events {
    match call
    case Reserve(_, _) => []
    case BeginCall(name) => [Open(name)]
    case Set(name, val) => [Attr(name, val)]
    case EndCall => [Shut]
  }

  function CallReserve(call: Call): seq<(nat, nat)> {
    match call
    case Reserve(addr, size) => [(addr, size)]
    case _ => []
  }

  lemma BeginChunk(name: bytes, pad: bytes)
    requires NoNul(name) && |pad| == Align4(|name| + 1) - (|name| + 1)
    ensures TokenOf(Enc32(FDT_BEGIN_NODE) + name + [0] + pad) == Some(Begin(name))
  {
    hide Align4, Word;
    var c := Enc32(FDT_BEGIN_NODE) + name + [0] + pad;
    assert c[0..4] == Enc32(FDT_BEGIN_NODE)[0..4];
    Be32OfSlice(c, 0, Enc32(FDT_BEGIN_NODE), 0);
    assert c[4..4 + |name|] == name;
    StrAtUnique(c, 4, name);
  }

  lemma PropertyChunk(nameoff: int, val: bytes, pad: bytes)
    requires 0 <= nameoff + WORD < WORD && |val| < WORD && |pad| == Align4(|val|) - |val|
    ensures TokenOf(PropHeader(nameoff, |val|) + val + pad) == Some(Prop(nameoff + WORD, val))
  {
    hide Align4, Word, Enc32;
    var c := PropHeader(nameoff, |val|) + val + pad;
    assert c[0..4] == Enc32(FDT_PROP)[0..4];
    Be32OfSlice(c, 0, Enc32(FDT_PROP), 0);
    assert c[4..8] == Enc32(|val|)[0..4];
    Be32OfSlice(c, 4, Enc32(|val|), 0);
    assert c[8..12] == Enc32(nameoff + WORD)[0..4];
    Be32OfSlice(c, 8, Enc32(nameoff + WORD), 0);
    assert c[12..12 + |val|] == val;
  }

  lemma CloseChunk()
    ensures TokenOf(Enc32(FDT_END_NODE)) == Some(Close)
  {
  }

  lemma UnderConstruction(s: bytes, cs: chunks, evs: events, rsv: seq<(nat, nat)>)
    requires SwText(s, cs, evs, rsv)
    ensures Writing(s)
  {
  }

  // A call that succeeds adds its event, or its reserve entry, and nothing
  // else; one that is refused adds nothing.
  lemma StepHolds(s: bytes, cs: chunks, evs: events, rsv: seq<(nat, nat)>, call: Call) returns (cs': chunks)
    requires SwText(s, cs, evs, rsv) && Sound(call) && Handled(s, call)
    ensures var (err, s') := Step(s, call);
            if err == 0 then SwText(s', cs', evs + CallEvents(call), rsv + CallReserve(call))
            else SwText(s', cs', evs, rsv)
  {
    hide SwText, BeginNode, EndNode, AddReserve, Property;
    UnderConstruction(s, cs, evs, rsv);
    cs' := cs;
    match call
    case Reserve(addr, size) =>
      if AddReserve(s, addr, size).0 == 0 {
        ReserveHolds(s, cs, evs, rsv, addr, size);
      }
      assert evs + [] == evs;
      RefusedKeeps(s, call);
    case BeginCall(name) =>
      if BeginNode(s, name).0 == 0 {
        cs' := BeginHolds(s, cs, evs, rsv, name);
      }
      assert rsv + [] == rsv;
      RefusedKeeps(s, call);
    case Set(name, val) =>
      cs' := PropertyHolds(s, cs, evs, rsv, name, val);
      assert rsv + [] == rsv;
    case EndCall =>
      if EndNode(s).0 == 0 {
        cs' := EndHolds(s, cs, evs, rsv);
      }
      assert rsv + [] == rsv;
      RefusedKeeps(s, call);
  }

  lemma RefusedKeeps(s: bytes, call: Call)
    requires Writing(s) && Sound(call) && Handled(s, call) && !call.Set?
    ensures Step(s, call).0 != 0 ==> Step(s, call).1 == s
  {
    hide Grabbed, Put;
  }

  lemma BeginHolds(s: bytes, cs: chunks, evs: events, rsv: seq<(nat, nat)>, name: bytes) returns (cs': chunks)
    requires SwText(s, cs, evs, rsv) && NoNul(name) && BeginNode(s, name).0 == 0
    ensures SwText(BeginNode(s, name).1, cs', evs + [Open(name)], rsv)
  {
    hide TokenOf, Grabbed, SwText, Be32;
    var (len, b) := (4 + Align4(|name| + 1), Enc32(FDT_BEGIN_NODE) + name + [0]);
    var c := GrabbedHolds(s, cs, evs, rsv, len, b);
    BeginChunk(name, c[|b|..]);
    assert c == b + c[|b|..];
    cs' := cs + [c];
  }

  lemma EndHolds(s: bytes, cs: chunks, evs: events, rsv: seq<(nat, nat)>) returns (cs': chunks)
    requires SwText(s, cs, evs, rsv) && EndNode(s).0 == 0
    ensures SwText(EndNode(s).1, cs', evs + [Shut], rsv)
  {
    hide TokenOf, Grabbed, SwText, Be32;
    var c := GrabbedHolds(s, cs, evs, rsv, 4, Enc32(FDT_END_NODE));
    CloseChunk();
    assert c == Enc32(FDT_END_NODE);
    cs' := cs + [c];
  }

  lemma PropertyHolds(s: bytes, cs: chunks, evs: events, rsv: seq<(nat, nat)>, name: bytes, val: bytes)
    returns (cs': chunks)
    requires SwText(s, cs, evs, rsv) && NoNul(name) && Placeable(s, name) && |val| < INT_LIMIT
    ensures var (err, s') := Property(s, name, val);
            SwText(s', cs', if err == 0 then evs + [Attr(name, val)] else evs, rsv)
  {
    hide TokenOf, Grabbed, Be32, StrAt, FindAddDown, SwReserve;
    var (nameoff, s1) := FindAddDown(s, name);
    cs' := cs;
    if nameoff != 0 {
      AddedDown(s, name);
      var (old_, strs) := (SwStrings(s), SwStrings(s1));
      SwEventsGrow(cs, strs[..|strs| - |old_|], old_);
      ReserveKept(s, s1, rsv);
      if HasSpace(s1, 12 + Align4(|val|)) {
        cs' := PropertyAdded(s1, cs, evs, rsv, nameoff, name, val);
      }
    }
  }

  // The property itself, once its name is in the table.
  lemma PropertyAdded(s: bytes, cs: chunks, evs: events, rsv: seq<(nat, nat)>, nameoff: int, name: bytes, val: bytes)
    returns (cs': chunks)
    requires SwText(s, cs, evs, rsv) && |val| < INT_LIMIT && HasSpace(s, 12 + Align4(|val|))
    requires -|s| <= nameoff < 0 <= |SwStrings(s)| + nameoff
    requires StrAt(SwStrings(s), |SwStrings(s)| + nameoff) == Some(name)
    ensures SwText(Grabbed(s, 12 + Align4(|val|), PropHeader(nameoff, |val|) + val), cs', evs + [Attr(name, val)], rsv)
  {
    hide TokenOf, Grabbed, Be32, StrAt, SwReserve, SwText, SwStrings;
    UnderConstruction(s, cs, evs, rsv);
    var b := PropHeader(nameoff, |val|) + val;
    var c := GrabbedHolds(s, cs, evs, rsv, 12 + Align4(|val|), b);
    PropertyChunk(nameoff, val, c[|b|..]);
    assert c == b + c[|b|..];
    assert SwIndex(SwStrings(s), nameoff + WORD) == |SwStrings(s)| + nameoff;
    cs' := cs + [c];
  }

  lemma ReserveHolds(s: bytes, cs: chunks, evs: events, rsv: seq<(nat, nat)>, addr: nat, size: nat)
    requires SwText(s, cs, evs, rsv) && addr < WORD * WORD && size < WORD * WORD && !Clashes(s)
    requires AddReserve(s, addr, size).0 == 0
    ensures SwText(AddReserve(s, addr, size).1, cs, evs, rsv + [(addr, size)])
  {
    hide TokenOf, Be32, Put, Enc64, Be64;
    var (o, q) := (Hdr(s, OFF_STRUCT), |s| - Hdr(s, SIZE_STRINGS));
    var b := Enc64(addr) + Enc64(size);
    var m := Put(s, o, b);
    var s' := AddReserve(s, addr, size).1;
    NoChunks(cs);
    ReserveHeader(s, addr, size);
    assert SwStruct(s') == [];
    PutAfter(s, o, b, q, |s|);
    SlicePastHeader(m, s', q, |s|);
    assert s'[q..|s|] == SwStrings(s') && s[q..|s|] == SwStrings(s);
    PutSame(s, o, b);
    SlicePastHeader(m, s', o, o + 16);
    PutBefore(s, o, b, SW_RSVMAP, o);
    SlicePastHeader(m, s', SW_RSVMAP, o);
    ReserveGrown(s, s', rsv, addr, size);
  }

  lemma NoChunks(cs: chunks)
    requires Chunked(cs) && Flat(cs) == []
    ensures cs == []
  {
    hide TokenOf;
    FlatAligned(cs);
  }

  lemma ReserveGrown(s: bytes, s': bytes, rsv: seq<(nat, nat)>, addr: nat, size: nat)
    requires Writing(s) && Writing(s') && SwReserve(s, rsv) && addr < WORD * WORD && size < WORD * WORD
    requires Hdr(s', OFF_STRUCT) == Hdr(s, OFF_STRUCT) + 16
    requires s'[SW_RSVMAP..Hdr(s, OFF_STRUCT)] == s[SW_RSVMAP..Hdr(s, OFF_STRUCT)]
    requires s'[Hdr(s, OFF_STRUCT)..Hdr(s, OFF_STRUCT) + 16] == Enc64(addr) + Enc64(size)
    ensures SwReserve(s', rsv + [(addr, size)])
  {
    hide Be64, Be32, Enc64;
    var (lo, hi) := (SW_RSVMAP, Hdr(s, OFF_STRUCT));
    var b := Enc64(addr) + Enc64(size);
    forall k | 0 <= k < |rsv|
      ensures Be64(s', lo + 16 * k) == rsv[k].0 && Be64(s', lo + 16 * k + 8) == rsv[k].1
    {
      SliceOfSlice(s, lo, hi, 16 * k, 16 * k + 8);
      SliceOfSlice(s', lo, hi, 16 * k, 16 * k + 8);
      Be64OfSlice(s', lo + 16 * k, s, lo + 16 * k);
      SliceOfSlice(s, lo, hi, 16 * k + 8, 16 * k + 16);
      SliceOfSlice(s', lo, hi, 16 * k + 8, 16 * k + 16);
      Be64OfSlice(s', lo + 16 * k + 8, s, lo + 16 * k + 8);
    }
    SliceOfSlice(s', hi, hi + 16, 0, 8);
    assert b[0..8] == Enc64(addr)[0..8];
    Be64OfSlice(s', hi, Enc64(addr), 0);
    SliceOfSlice(s', hi, hi + 16, 8, 16);
    assert b[8..16] == Enc64(size)[0..8];
    Be64OfSlice(s', hi + 8, Enc64(size), 0);
  }

  // Calls in order, the refused ones too, as long as each one is handled: the
  // buffer they leave and the calls that succeeded.
  ghost function Run(s: bytes, calls: seq<Call>): (r: Option<(bytes, seq<Call>)>)
    requires forall i :: 0 <= i < |calls| ==> Sound(calls[i])
    ensures r.Some? ==> Writing(r.value.0)
    decreases |calls|
  {
    if !Writing(s) then None
    else if calls == [] then Some((s, []))
    else if !Handled(s, calls[0]) then None
    else
      var (err, s') := Step(s, calls[0]);
      match Run(s', calls[1..])
      case None => None
      case Some((t, done)) => Some((t, if err == 0 then [calls[0]] + done else done))
  }

  function CallsEvents(calls: seq<Call>): events {
    if calls == [] then [] else CallEvents(calls[0]) + CallsEvents(calls[1..])
  }

  function CallsReserve(calls: seq<Call>): seq<(nat, nat)> {
    if calls == [] then [] else CallReserve(calls[0]) + CallsReserve(calls[1..])
  }

  lemma {:induction false} RunHolds(s: bytes, cs: chunks, evs: events, rsv: seq<(nat, nat)>, calls: seq<Call>)
    returns (cs': chunks)
    requires forall i :: 0 <= i < |calls| ==> Sound(calls[i])
    requires SwText(s, cs, evs, rsv) && Run(s, calls).Some?
    ensures var (t, done) := Run(s, calls).value;
            SwText(t, cs', evs + CallsEvents(done), rsv + CallsReserve(done))
    decreases |calls|
  {
    hide SwText, Step, Writing, CallEvents, CallReserve, Handled;
    if calls == [] {
      cs' := cs;
      assert evs + [] == evs && rsv + [] == rsv;
    } else {
      var call := calls[0];
      var c1 := StepHolds(s, cs, evs, rsv, call);
      var (err, s1) := Step(s, call);
      var done := Run(s1, calls[1..]).value.1;
      if err == 0 {
        cs' := RunHolds(s1, c1, evs + CallEvents(call), rsv + CallReserve(call), calls[1..]);
        assert ([call] + done)[1..] == done;
        Cat3(evs, CallEvents(call), CallsEvents(done));
        Cat3(rsv, CallReserve(call), CallsReserve(done));
      } else {
        cs' := RunHolds(s1, c1, evs, rsv, calls[1..]);
      }
    }
  }
}
