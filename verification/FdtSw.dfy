// fdt_sw.c, as functions of the buffer's bytes: the sequential writer, whose
// structure block grows up from the reserve map and whose strings grow down
// from the end of the buffer.
module FdtSw {
  import opened ByteStrings
  import opened FdtFormat
  import opened FdtBlob
  import opened FdtWip
  import opened FdtSplice
  import opened FdtStrings

  const SW_RSVMAP: nat := 48

  // The state of a buffer under construction.
  predicate Writing(s: bytes) {
    && SW_RSVMAP <= |s| < INT_LIMIT
    && Hdr(s, MAGIC) == FDT_SW_MAGIC
    && Hdr(s, TOTALSIZE) == |s|
    && Hdr(s, VERSION) == FDT_LAST_SUPPORTED_VERSION
    && Hdr(s, LAST_COMP) == FDT_FIRST_SUPPORTED_VERSION
    && Hdr(s, OFF_RSVMAP) == SW_RSVMAP <= Hdr(s, OFF_STRUCT)
    && Hdr(s, OFF_STRUCT) + Hdr(s, SIZE_STRUCT) + Hdr(s, SIZE_STRINGS) <= |s|
  }

  function SwStruct(s: bytes): (r: bytes)
    requires Writing(s)
    ensures |r| == Hdr(s, SIZE_STRUCT)
  {
    s[Hdr(s, OFF_STRUCT)..Hdr(s, OFF_STRUCT) + Hdr(s, SIZE_STRUCT)]
  }

  function SwStrings(s: bytes): (r: bytes)
    requires Writing(s)
    ensures |r| == Hdr(s, SIZE_STRINGS)
  {
    s[|s| - Hdr(s, SIZE_STRINGS)..]
  }

  function SetHdr(s: bytes, f: nat, v: nat): (r: bytes)
    requires f + 4 <= HEADER_SIZE <= |s| && v < WORD
    ensures |r| == |s|
  {
    Put(s, f, Enc32(v))
  }

  // What fdt_create leaves: an empty structure block and an empty string table.
  predicate Created(s: bytes, n: nat) {
    Writing(s) && |s| == n && Hdr(s, OFF_STRUCT) == SW_RSVMAP
    && Hdr(s, SIZE_STRUCT) == 0 && Hdr(s, SIZE_STRINGS) == 0
  }

  // _fdt_grab_space's test.
  predicate HasSpace(s: bytes, len: nat)
    requires Writing(s)
  {
    Hdr(s, SIZE_STRUCT) + len <= |s| - Hdr(s, OFF_STRUCT) - Hdr(s, SIZE_STRINGS)
  }

  // len bytes more of structure, filled from its start with b.
  function Grabbed(s: bytes, len: nat, b: bytes): (r: bytes)
    requires Writing(s) && HasSpace(s, len) && |b| <= len
    ensures |r| == |s|
  {
    var z := Hdr(s, SIZE_STRUCT);
    Put(SetHdr(s, SIZE_STRUCT, z + len), Hdr(s, OFF_STRUCT) + z, b)
  }

  // fdt_begin_node.
  function BeginNode(s: bytes, name: bytes): (int, bytes)
    requires Writing(s) && NoNul(name)
  {
    var len := 4 + Align4(|name| + 1);
    if !HasSpace(s, len) then (NOSPACE, s)
    else (0, Grabbed(s, len, Enc32(FDT_BEGIN_NODE) + name + [0]))
  }

  // fdt_end_node.
  function EndNode(s: bytes): (int, bytes)
    requires Writing(s)
  {
    if !HasSpace(s, 4) then (NOSPACE, s) else (0, Grabbed(s, 4, Enc32(FDT_END_NODE)))
  }

  // _fdt_find_string's answer, or None for NULL.
  function FirstString(strs: bytes, name: bytes, p: nat): (r: Option<nat>)
    ensures r.Some? ==> p <= r.value && StringHere(strs, r.value, name)
    decreases |strs| - p
  {
    if p + |name| + 1 > |strs| then None
    else if StringHere(strs, p, name) then Some(p)
    else FirstString(strs, name, p + 1)
  }

  // The room test of _fdt_find_add_string. fdt_totalsize is unsigned, so a sum
  // below zero wraps, to a number above any offset in 32 and in 64 bits.
  predicate RefusedRoom(s: bytes, name: bytes)
    requires Writing(s)
  {
    (|s| - Hdr(s, SIZE_STRINGS) - (|name| + 1)) % WORD < Hdr(s, OFF_STRUCT) + Hdr(s, SIZE_STRUCT)
  }

  // The name would reach down into the structure.
  predicate NoRoom(s: bytes, name: bytes)
    requires Writing(s)
  {
    |s| < Hdr(s, OFF_STRUCT) + Hdr(s, SIZE_STRUCT) + Hdr(s, SIZE_STRINGS) + |name| + 1
  }

  // The name would not even start inside the buffer.
  predicate Overlong(s: bytes, name: bytes)
    requires Writing(s)
  {
    Hdr(s, SIZE_STRINGS) + |name| + 1 > |s|
  }

  // The test tells whether there is room exactly when the sum does not wrap.
  lemma RoomTestMeans(s: bytes, name: bytes)
    requires Writing(s) && |name| < INT_LIMIT
    ensures (RefusedRoom(s, name) <==> NoRoom(s, name)) <==> !Overlong(s, name)
  {
    hide Be32;
    var room := |s| - Hdr(s, SIZE_STRINGS) - (|name| + 1);
    if Overlong(s, name) {
      WrapsOnce(room);
    } else {
      SmallMod(room);
    }
  }

  lemma WrapsOnce(x: int)
    requires 0 <= x + WORD && x < 0
    ensures x % WORD == x + WORD
  {
  }

  // A name that the code handles: in the table, or no longer than the buffer
  // has bytes below the table.
  predicate Placeable(s: bytes, name: bytes)
    requires Writing(s)
  {
    FirstString(SwStrings(s), name, 0).Some? || !Overlong(s, name)
  }

  // _fdt_find_add_string: an offset counted down from the end of the buffer,
  // zero when there is no room.
  function FindAddDown(s: bytes, name: bytes): (r: (int, bytes))
    requires Writing(s) && Placeable(s, name)
    ensures |r.1| == |s|
  {
    var z := Hdr(s, SIZE_STRINGS);
    match FirstString(SwStrings(s), name, 0)
    case Some(p) => (p - z, s)
    case None =>
      var offset: int := 0 - z - (|name| + 1);
      if NoRoom(s, name) then (0, s)
      else (offset, SetHdr(Put(s, |s| + offset, name + [0]), SIZE_STRINGS, z + |name| + 1))
  }

  // The name is in the table at the offset returned, and the table has only
  // grown at its lower end.
  lemma AddedDown(s: bytes, name: bytes)
    requires Writing(s) && NoNul(name) && Placeable(s, name)
    ensures var (nameoff, s1) := FindAddDown(s, name);
            nameoff != 0 ==> NamedDown(s, s1, nameoff, name)
  {
    hide Be32, Put, StrAt, StringHere, FirstString, SetHdr, Writing, SwStrings, SwStruct, NamedDown;
    WritingSizes(s);
    match FirstString(SwStrings(s), name, 0)
    case Some(p) => OldName(s, name, p);
    case None =>
      if FindAddDown(s, name).0 != 0 {
        NewName(s, name);
      }
  }

  lemma WritingSizes(s: bytes)
    requires Writing(s)
    ensures HEADER_SIZE <= |s| && |SwStrings(s)| == Hdr(s, SIZE_STRINGS)
  {
  }

  // The name is in the table already.
  lemma OldName(s: bytes, name: bytes, p: nat)
    requires Writing(s) && NoNul(name) && FirstString(SwStrings(s), name, 0) == Some(p)
    ensures var (nameoff, s1) := FindAddDown(s, name); NamedDown(s, s1, nameoff, name)
  {
    hide Be32, Put, StrAt, StringHere, FirstString, SetHdr;
    var strs := SwStrings(s);
    StringHereReads(strs, p, name);
    StrAtBelow(strs, p);
    assert strs[..0] + strs == strs;
  }

  // The name is added below the table.
  lemma NewName(s: bytes, name: bytes)
    requires Writing(s) && NoNul(name) && !Overlong(s, name) && FirstString(SwStrings(s), name, 0) == None
    requires FindAddDown(s, name).0 != 0
    ensures var (nameoff, s1) := FindAddDown(s, name); NamedDown(s, s1, nameoff, name)
  {
    hide Be32, Put, StrAt, FirstString, SetHdr;
    var s1 := FindAddDown(s, name).1;
    GrownDown(s, name, s1);
    NewString(s, s1, name);
  }

  // From s to s1 the string table has grown downward at most, and the string
  // nameoff below the end of the buffer is the name.
  ghost predicate NamedDown(s: bytes, s1: bytes, nameoff: int, name: bytes)
    requires Writing(s)
  {
    && Writing(s1) && |s1| == |s| && -|s| <= nameoff < 0
    && Hdr(s1, OFF_STRUCT) == Hdr(s, OFF_STRUCT) && SwStruct(s1) == SwStruct(s)
    && s1[SW_RSVMAP..Hdr(s, OFF_STRUCT)] == s[SW_RSVMAP..Hdr(s, OFF_STRUCT)]
    && |SwStrings(s1)| >= |SwStrings(s)|
    && SwStrings(s1) == SwStrings(s1)[..|SwStrings(s1)| - |SwStrings(s)|] + SwStrings(s)
    && 0 <= |SwStrings(s1)| + nameoff
    && StrAt(SwStrings(s1), |SwStrings(s1)| + nameoff) == Some(name)
  }

  lemma NewString(s: bytes, s1: bytes, name: bytes)
    requires Writing(s) && Writing(s1) && SwStrings(s1) == name + [0] + SwStrings(s)
    requires StrAt(SwStrings(s1), 0) == Some(name)
    ensures |SwStrings(s1)| == |SwStrings(s)| + |name| + 1
    ensures SwStrings(s1) == SwStrings(s1)[..|SwStrings(s1)| - |SwStrings(s)|] + SwStrings(s)
    ensures StrAt(SwStrings(s1), |SwStrings(s1)| + (-|SwStrings(s)| - (|name| + 1))) == Some(name)
  {
    hide Writing, StrAt, SwStrings;
  }

  lemma GrownDown(s: bytes, name: bytes, s1: bytes)
    requires Writing(s) && NoNul(name)
    requires Hdr(s, OFF_STRUCT) + Hdr(s, SIZE_STRUCT) + Hdr(s, SIZE_STRINGS) + |name| + 1 <= |s|
    requires var z := Hdr(s, SIZE_STRINGS);
             s1 == SetHdr(Put(s, |s| - z - |name| - 1, name + [0]), SIZE_STRINGS, z + |name| + 1)
    ensures Writing(s1) && |s1| == |s| && Hdr(s1, SIZE_STRINGS) == Hdr(s, SIZE_STRINGS) + |name| + 1
    ensures Hdr(s1, OFF_STRUCT) == Hdr(s, OFF_STRUCT) && SwStruct(s1) == SwStruct(s)
    ensures s1[SW_RSVMAP..Hdr(s, OFF_STRUCT)] == s[SW_RSVMAP..Hdr(s, OFF_STRUCT)]
    ensures SwStrings(s1) == name + [0] + SwStrings(s)
    ensures SwStrings(s1)[..|name| + 1] == name + [0] && StrAt(SwStrings(s1), 0) == Some(name)
  {
    hide Be32, Put, StrAt;
    var (z, o, n) := (Hdr(s, SIZE_STRINGS), Hdr(s, OFF_STRUCT), Hdr(s, SIZE_STRUCT));
    var b := name + [0];
    var at := |s| - z - |b|;
    var m := Put(s, at, b);
    PutBefore(s, at, b, 0, HEADER_SIZE);
    HeaderKept(s, m);
    HeaderStore(m, SIZE_STRINGS, z + |b|);
    PutBefore(s, at, b, o, o + n);
    SlicePastHeader(m, s1, o, o + n);
    PutBefore(s, at, b, SW_RSVMAP, o);
    SlicePastHeader(m, s1, SW_RSVMAP, o);
    PutSame(s, at, b);
    PutAfter(s, at, b, at + |b|, |s|);
    SlicePastHeader(m, s1, at, |s|);
    assert m[at..|s|] == m[at..at + |b|] + m[at + |b|..|s|];
    assert s1[at..|s|] == s1[at..];
    var strs := SwStrings(s1);
    assert strs[0..|name|] == name;
    StrAtUnique(strs, 0, name);
  }

  function PropHeader(nameoff: int, len: nat): bytes
    requires 0 <= nameoff + WORD < WORD && len < WORD
  {
    Enc32(FDT_PROP) + Enc32(len) + Enc32(nameoff + WORD)
  }

  // fdt_property.  When the name fits but the property does not, the name stays.
  function Property(s: bytes, name: bytes, val: bytes): (int, bytes)
    requires Writing(s) && NoNul(name) && Placeable(s, name) && |val| < INT_LIMIT
  {
    var (nameoff, s1) := FindAddDown(s, name);
    if nameoff == 0 then (NOSPACE, s)
    else
      AddedDown(s, name);
      var len := 12 + Align4(|val|);
      if !HasSpace(s1, len) then (NOSPACE, s1)
      else (0, Grabbed(s1, len, PropHeader(nameoff, |val|) + val))
  }

  // fdt_add_reservemap_entry.
  function AddReserve(s: bytes, addr: nat, size: nat): (int, bytes)
    requires Writing(s) && addr < WORD * WORD && size < WORD * WORD
  {
    var o := Hdr(s, OFF_STRUCT);
    if Hdr(s, SIZE_STRUCT) != 0 then (BADSTATE, s)
    else if o + 16 > |s| then (NOSPACE, s)
    else (0, SetHdr(Put(s, o, Enc64(addr) + Enc64(size)), OFF_STRUCT, o + 16))
  }
}
