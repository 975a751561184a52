// The strings block: looking a name up and adding it at the end.
module FdtStrings {
  import opened ByteStrings
  import opened Memory
  import opened FdtFormat
  import opened FdtBlob
  import opened FdtWip
  import opened FdtSplice

  predicate StringHere(strs: bytes, p: nat, name: bytes) {
    && p + |name| + 1 <= |strs|
    && strs[p..p + |name|] == name
    && strs[p + |name|] == 0
  }

  ghost predicate HasString(strs: bytes, name: bytes) {
    exists p: nat :: StringHere(strs, p, name)
  }

  // _fdt_find_string: any place where the name and its terminator occur, so
  // also the tail of a longer name.  -1 is NULL.
  method FindString(strs: bytes, name: bytes) returns (r: int)
    ensures r == -1 <==> !HasString(strs, name)
    ensures r != -1 ==> 0 <= r && StringHere(strs, r, name)
    ensures r != -1 ==> forall p: nat :: p < r ==> !StringHere(strs, p, name)
  {
    var p := 0;
    while p + |name| + 1 <= |strs|
      invariant forall q: nat :: q < p ==> !StringHere(strs, q, name)
    {
      if strs[p..p + |name| + 1] == name + [0] {
        FoundString(strs, p, name);
        return p;
      }
      NotString(strs, p, name);
      p := p + 1;
    }
    return -1;
  }

  lemma FoundString(strs: bytes, p: nat, name: bytes)
    requires p + |name| + 1 <= |strs| && strs[p..p + |name| + 1] == name + [0]
    ensures StringHere(strs, p, name)
  {
    SliceOfSlice(strs, p, p + |name| + 1, 0, |name|);
    assert strs[p + |name|] == strs[p..p + |name| + 1][|name|];
  }

  lemma NotString(strs: bytes, p: nat, name: bytes)
    requires p + |name| + 1 <= |strs| && strs[p..p + |name| + 1] != name + [0]
    ensures !StringHere(strs, p, name)
  {
    assert strs[p..p + |name| + 1] == strs[p..p + |name|] + [strs[p + |name|]];
  }

  lemma StringHereReads(strs: bytes, p: nat, name: bytes)
    requires StringHere(strs, p, name) && NoNul(name)
    ensures StrAt(strs, p) == Some(name) && NameAt(strs, p) == name
  {
    StrAtUnique(strs, p, name);
  }

  // s' is s with the strings block extended by more; nothing else moved.
  ghost predicate StringsGrown(s: bytes, s': bytes, more: bytes)
    requires Ordered(s)
  {
    && |s'| == |s| && Ordered(s')
    && Hdr(s', OFF_STRUCT) == Hdr(s, OFF_STRUCT) && Hdr(s', OFF_RSVMAP) == Hdr(s, OFF_RSVMAP)
    && Hdr(s', TOTALSIZE) == Hdr(s, TOTALSIZE) && Hdr(s', VERSION) == Hdr(s, VERSION)
    && DataSize(s') == DataSize(s) + |more|
    && StructBlock(s') == StructBlock(s)
    && StringBlock(s') == StringBlock(s) + more
    && s'[HEADER_SIZE..Hdr(s, OFF_STRUCT)] == s[HEADER_SIZE..Hdr(s, OFF_STRUCT)]
  }

  lemma StringsGrownHow(s: bytes, more: bytes, s1: bytes, s': bytes)
    requires Ordered(s) && DataSize(s) + |more| <= Hdr(s, TOTALSIZE)
    requires s1 == Put(s, SIZE_STRINGS, Enc32(Hdr(s, SIZE_STRINGS) + |more|))
    requires s' == Put(s1, DataSize(s), more)
    ensures StringsGrown(s, s', more)
  {
    hide Be32, Put, CheckHeader;
    var end := DataSize(s);
    HeaderStore(s, SIZE_STRINGS, Hdr(s, SIZE_STRINGS) + |more|);
    StillReadable(s, s1);
    PutBefore(s1, end, more, 0, HEADER_SIZE);
    HeaderKept(s1, s');
    StillReadable(s, s');
    var (b, q) := (Hdr(s, OFF_STRUCT), Hdr(s, OFF_STRINGS));
    StringsGrownSlices(s, more, s1, s', b, b + Hdr(s, SIZE_STRUCT));
    StringsGrownSlices(s, more, s1, s', q, end);
    StringsGrownSlices(s, more, s1, s', HEADER_SIZE, b);
    PutSame(s1, end, more);
    assert s'[q..end + |more|] == s'[q..end] + s'[end..end + |more|];
  }

  lemma StringsGrownSlices(s: bytes, more: bytes, s1: bytes, s': bytes, i: nat, j: nat)
    requires HEADER_SIZE <= |s| == |s1| && DataSize(s) + |more| <= |s|
    requires s1[HEADER_SIZE..] == s[HEADER_SIZE..]
    requires s' == Put(s1, DataSize(s), more)
    requires HEADER_SIZE <= i <= j <= DataSize(s)
    ensures s'[i..j] == s[i..j]
  {
    hide Be32, Put;
    SlicePastHeader(s, s1, i, j);
    PutBefore(s1, DataSize(s), more, i, j);
  }

  // What _fdt_find_add_string appends.
  ghost function Added(strs: bytes, name: bytes): bytes {
    if HasString(strs, name) then [] else name + [0]
  }

  // _fdt_find_add_string.
  method FindAddString(a: array<byte>, name: bytes) returns (r: int)
    requires Ordered(a[..]) && NoNul(name)
    modifies a
    ensures r < 0 <==> DataSize(old(a[..])) + |Added(StringBlock(old(a[..])), name)| > Hdr(old(a[..]), TOTALSIZE)
    ensures r < 0 ==> r == NOSPACE && a[..] == old(a[..])
    ensures Added(StringBlock(old(a[..])), name) == [] ==> a[..] == old(a[..])
    ensures r >= 0 ==>
              && StringsGrown(old(a[..]), a[..], Added(StringBlock(old(a[..])), name))
              && r < WORD && StrAt(StringBlock(a[..]), r) == Some(name)
  {
    hide Be32, Put, CheckHeader, StringHere, StrAt, HasString;
    ghost var s := a[..];
    var strs := StringBlock(a[..]);
    r := FindString(strs, name);
    if r != -1 {
      StringHereReads(strs, r, name);
      assert strs + [] == strs;
      StrAtBelow(strs, r);
      return;
    }
    var new_ := DataSize(a[..]);
    var err := SpliceString(a, |name| + 1);
    if err != 0 {
      return err;
    }
    ghost var s1 := a[..];
    HeaderStore(s, SIZE_STRINGS, Hdr(s, SIZE_STRINGS) + |name| + 1);
    MemCpy(a, new_, name + [0]);
    StringsGrownHow(s, name + [0], s1, a[..]);
    AppendedReads(strs, name);
    return |strs|;
  }

  lemma StrAtBelow(strs: bytes, r: nat)
    requires StrAt(strs, r).Some?
    ensures r < |strs|
  {
  }

  lemma AppendedReads(strs: bytes, name: bytes)
    requires NoNul(name)
    ensures StrAt(strs + (name + [0]), |strs|) == Some(name)
  {
    var all := strs + (name + [0]);
    assert all[|strs|..|strs| + |name|] == name;
    StrAtUnique(all, |strs|, name);
  }
}
