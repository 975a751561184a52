// The property readers of fdt_ro.c: they find the first property of a name in
// a node, and nothing else.
module FdtProps {
  import opened ByteStrings
  import opened Memory
  import opened FdtFormat
  import opened FdtTree
  import opened FdtBlob
  import opened FdtNode
  import opened FdtWalk

  predicate IsProp(c: bytes) {
    TokenOf(c).Some? && TokenOf(c).value.Prop?
  }

  predicate IsNop(c: bytes) {
    TokenOf(c) == Some(Nop)
  }

  predicate EndsProps(c: bytes) {
    TokenOf(c).Some? && (TokenOf(c).value.Begin? || TokenOf(c).value.Close?)
  }

  // _nextprop: the first property at or after offset, across NOPs only.
  method NextProp(s: bytes, offset0: int32, ghost k0: nat) returns (offset: int, ghost k: nat)
    requires Walkable(s) && k0 <= |Chunks(s)| && offset0 == Off(Chunks(s), k0)
    ensures k0 <= k <= |Chunks(s)| && forall x :: k0 <= x < k ==> IsNop(Chunks(s)[x])
    ensures k == |Chunks(s)| ==> offset == BADSTRUCTURE
    ensures k < |Chunks(s)| ==>
              || (IsProp(Chunks(s)[k]) && offset == Off(Chunks(s), k))
              || (EndsProps(Chunks(s)[k]) && offset == NOTFOUND)
  {
    hide TokenOf, NextTag, Decodes, Walk, Off;
    offset, k := offset0, k0;
    ghost var cs := Chunks(s);
    StepFrom(s, k);
    var tag, next := FdtNextTag(s, offset);
    while tag == FDT_NOP
      invariant k0 <= k <= |cs| && offset == Off(cs, k) && 0 <= offset < INT_LIMIT
      invariant (tag, next) == NextTag(StructBlock(s), offset)
      invariant forall x :: k0 <= x < k ==> IsNop(cs[x])
      decreases |cs| - k
    {
      StepFrom(s, k);
      k := k + 1;
      StepFrom(s, k);
      offset := next;
      tag, next := FdtNextTag(s, offset);
    }
    StepFrom(s, k);
    if tag == FDT_END {
      if next >= 0 {
        return BADSTRUCTURE, k;
      }
      return next, k;
    }
    if tag != FDT_PROP {
      return NOTFOUND, k;
    }
  }

  // _fdt_string_eq with the memcmp of string.c: the string at p against the len
  // bytes at s.  Of the empty string it makes a comparison of all memory; the
  // readers and editors are modelled for names that are not empty.
  method StringEq(m: bytes, p: nat, s: nat, len: nat) returns (eq: bool)
    requires |m| == WORD && StrAt(m, p).Some? && len < INT_LIMIT && s + len <= WORD
    ensures len > 0 ==> (eq <==> StrAt(m, p) == Some(m[s..s + len]))
    ensures len == 0 ==> (eq <==> StrAt(m, p) == Some([]) && SameBytes(m, p, s, WORD))
  {
    hide StrAt, SameBytes;
    if |StrAt(m, p).value| != len {
      return false;
    }
    var r := MemCmp(m, p, s, len);
    if len > 0 {
      SameSlices(m, p, s, len);
    }
    return r == 0;
  }

  lemma SameByteAt(m: bytes, p: nat, s: nat, k: nat)
    requires |m| == WORD && p + k < WORD && s + k < WORD
    ensures SameAt(m, p, s, k) <==> m[p + k] == m[s + k]
  {
    SmallMod(p + k);
    SmallMod(s + k);
  }

  lemma SameSlices(m: bytes, p: nat, s: nat, len: nat)
    requires |m| == WORD && p + len <= WORD && s + len <= WORD
    ensures SameBytes(m, p, s, len) <==> m[p..p + len] == m[s..s + len]
  {
    hide SameAt;
    var (x, y) := (m[p..p + len], m[s..s + len]);
    forall k: nat | k < len ensures SameAt(m, p, s, k) <==> x[k] == y[k] {
      SameByteAt(m, p, s, k);
    }
    if x == y {
      forall k: nat | k < len ensures SameAt(m, p, s, k) {
        assert x[k] == y[k];
      }
    }
  }

  // fdt_get_property_namelen: a struct block offset and a length, or -1 for
  // NULL and the error in the length.
  method FdtGetProperty(s: bytes, nodeoffset: int32, name: bytes, ghost i: nat)
    returns (prop: int32, len: int, ghost k: nat)
    requires Walkable(s) && Resolved(Chunks(s), StringBlock(s))
    requires NodeOrRefused(s, i, nodeoffset) && name != []
    ensures Refused(s, nodeoffset) ==> prop == -1 && len == BADOFFSET
    ensures OnNode(s, i, nodeoffset) ==>
              && OtherProps(Chunks(s), StringBlock(s), name, i, k) && k < |Chunks(s)|
              && if prop == -1 then len == NOTFOUND && EndsProps(Chunks(s)[k])
                 else
                   && PropChunk(Chunks(s), StringBlock(s), name, i, k)
                   && prop == Off(Chunks(s), k)
                   && len == |TokenOf(Chunks(s)[k]).value.value|
  {
    hide TokenOf, NextTag, Decodes, Walk, Off, ChunkResolved, EventsOf, NameAt, OtherProps;
    ghost var (cs, strs) := (Chunks(s), StringBlock(s));
    k := 0;
    assert OnNode(s, i, nodeoffset) ==> !Refused(s, nodeoffset) by {
      if OnNode(s, i, nodeoffset) {
        OnNodeNotRefused(s, i, nodeoffset);
        StepFrom(s, i);
      }
    }
    if nodeoffset < 0 || nodeoffset % 4 != 0 {
      return -1, BADOFFSET, k;
    }
    var tag, next := FdtNextTag(s, nodeoffset);
    if tag != FDT_BEGIN_NODE {
      return -1, BADOFFSET, k;
    }
    CheckedOffset(StructBlock(s), nodeoffset);
    StepFrom(s, i);
    StepFrom(s, i + 1);
    NoneYet(cs, strs, name, i);
    var offset;
    offset, k := NextProp(s, next, i + 1);
    NopsAreOthers(cs, strs, name, i, i + 1, k);
    RunsNotOut(s, name, i, k);
    StepFrom(s, k);
    prop, len, k := ScanProps(s, name, offset, i, k);
  }

  // The loop over the properties from the one at offset on.
  method ScanProps(s: bytes, name: bytes, offset0: int32, ghost i: nat, ghost k0: nat)
    returns (prop: int32, len: int, ghost k: nat)
    requires Walkable(s) && Resolved(Chunks(s), StringBlock(s)) && exists c, n :: NodeHere(s, i, c, n)
    requires name != []
    requires OtherProps(Chunks(s), StringBlock(s), name, i, k0) && k0 < |Chunks(s)|
    requires || (IsProp(Chunks(s)[k0]) && offset0 == Off(Chunks(s), k0))
             || (EndsProps(Chunks(s)[k0]) && offset0 == NOTFOUND)
    ensures OtherProps(Chunks(s), StringBlock(s), name, i, k) && k < |Chunks(s)|
    ensures if prop == -1 then len == NOTFOUND && EndsProps(Chunks(s)[k])
            else
              && PropChunk(Chunks(s), StringBlock(s), name, i, k)
              && prop == Off(Chunks(s), k)
              && len == |TokenOf(Chunks(s)[k]).value.value|
  {
    hide TokenOf, NextTag, Decodes, Walk, Off, ChunkResolved, EventsOf, NameAt, OtherProps;
    hide Resolved, NodeHere, CheckHeader, Be32, Chunks, StringBlock;
    ghost var (cs, strs) := (Chunks(s), StringBlock(s));
    k := k0;
    var offset := offset0;
    while offset >= 0
      invariant OtherProps(cs, strs, name, i, k) && k < |cs|
      invariant (IsProp(cs[k]) && offset == Off(cs, k)) || (EndsProps(cs[k]) && offset == NOTFOUND)
      decreases |cs| - k
    {
      StepFrom(s, k);
      PropFields(s, k);
      var st := StructBlock(s);
      len := Be32(st, offset + 4);
      if NameAt(StringBlock(s), Be32(st, offset + 8)) == name {
        return offset, len, k;
      }
      var tag, next := FdtNextTag(s, offset);
      AnotherProp(cs, strs, name, i, k);
      ghost var k1 := k + 1;
      StepFrom(s, k1);
      offset, k := NextProp(s, next, k1);
      NopsAreOthers(cs, strs, name, i, k1, k);
      RunsNotOut(s, name, i, k);
    }
    return -1, offset, k;
  }

  lemma NoneYet(cs: chunks, strs: bytes, name: bytes, i: nat)
    requires i < |cs|
    ensures OtherProps(cs, strs, name, i, i + 1)
  {
  }

  lemma AnotherProp(cs: chunks, strs: bytes, name: bytes, i: nat, k: nat)
    requires OtherProps(cs, strs, name, i, k) && k < |cs| && IsProp(cs[k])
    requires NameAt(strs, TokenOf(cs[k]).value.nameoff) != name
    ensures OtherProps(cs, strs, name, i, k + 1) && i < k + 1
  {
    hide TokenOf, NameAt;
  }

  lemma NopsAreOthers(cs: chunks, strs: bytes, name: bytes, i: nat, k0: nat, k: nat)
    requires i < k0 <= k <= |cs| && OtherProps(cs, strs, name, i, k0)
    requires forall x :: k0 <= x < k ==> IsNop(cs[x])
    ensures OtherProps(cs, strs, name, i, k)
  {
    hide TokenOf;
  }

  lemma RunsNotOut(s: bytes, name: bytes, i: nat, k: nat)
    requires Readable(s) && exists c, n :: NodeHere(s, i, c, n)
    requires OtherProps(Chunks(s), StringBlock(s), name, i, k)
    ensures k < |Chunks(s)|
  {
    hide TokenOf, Decodes, Walk;
    var c, n :| NodeHere(s, i, c, n);
    var m := Scanned(Chunks(s), StringBlock(s), name, i, k, c, n);
  }

  lemma PropToken(c: bytes)
    requires IsProp(c)
    ensures var t := TokenOf(c).value;
            && 12 + |t.value| <= |c| == 12 + Align4(|t.value|)
            && Be32(c, 4) == |t.value| && Be32(c, 8) == t.nameoff && c[12..12 + |t.value|] == t.value
  {
    hide Word, Align4, StrAt;
  }

  // The fields of a property chunk, read where it lies in the block.
  lemma PropFields(s: bytes, k: nat)
    requires Walkable(s) && k < |Chunks(s)| && IsProp(Chunks(s)[k])
    ensures var (st, o, t) := (StructBlock(s), Off(Chunks(s), k), TokenOf(Chunks(s)[k]).value);
            && o + 12 + Align4(|t.value|) == Off(Chunks(s), k + 1) <= |st|
            && Be32(st, o + 4) == |t.value|
            && Be32(st, o + 8) == t.nameoff
            && st[o + 12..o + 12 + |t.value|] == t.value
  {
    hide Walk, Off, Be32, Align4, Decodes, TokenOf, Chunks, StructBlock, CheckHeader;
    var (st, cs) := (StructBlock(s), Chunks(s));
    var (o, c) := (Off(cs, k), cs[k]);
    PropToken(c);
    DecodesAt(st, cs, k);
    StepFrom(s, k + 1);
    SubSlice(st, o, c, 4, 8);
    Be32OfSlice(st, o + 4, c, 4);
    SubSlice(st, o, c, 8, 12);
    Be32OfSlice(st, o + 8, c, 8);
    SubSlice(st, o, c, 12, 12 + |TokenOf(c).value.value|);
  }

  // fdt_getprop: where the value lies, and how long it is; -1 for NULL.
  method FdtGetProp(s: bytes, nodeoffset: int32, name: bytes, ghost i: nat)
    returns (data: int, len: int, ghost k: nat)
    requires Walkable(s) && Resolved(Chunks(s), StringBlock(s))
    requires NodeOrRefused(s, i, nodeoffset) && name != []
    ensures Refused(s, nodeoffset) ==> data == -1 && len == BADOFFSET
    ensures OnNode(s, i, nodeoffset) && data == -1 ==>
              len == NOTFOUND && forall c, n :: NodeHere(s, i, c, n) ==> Lookup(n, name) == None
    ensures OnNode(s, i, nodeoffset) && data != -1 ==>
              && 0 <= data && 0 <= len && data + len <= |StructBlock(s)|
              && PropChunk(Chunks(s), StringBlock(s), name, i, k) && data == Off(Chunks(s), k) + 12
              && len == |TokenOf(Chunks(s)[k]).value.value|
              && forall c, n :: NodeHere(s, i, c, n) ==>
                   Lookup(n, name) == Some(StructBlock(s)[data..data + len])
  {
    hide TokenOf, NextTag, Decodes, Walk, Off, ChunkResolved, EventsOf, NameAt, Flat;
    var prop;
    prop, len, k := FdtGetProperty(s, nodeoffset, name, i);
    if prop == -1 {
      data := -1;
    } else {
      data := prop as int + 12;
    }
    if OnNode(s, i, nodeoffset) {
      if prop == -1 {
        NoSuchProp(s, i, k, name);
      } else {
        PropFields(s, k);
        forall c, n | NodeHere(s, i, c, n)
          ensures Lookup(n, name) == Some(StructBlock(s)[data..data + len])
        {
          FoundProp(Chunks(s), StringBlock(s), name, i, k, c, n);
        }
      }
    }
  }

  lemma NoSuchProp(s: bytes, i: nat, k: nat, name: bytes)
    requires Walkable(s)
    requires OtherProps(Chunks(s), StringBlock(s), name, i, k)
    requires k < |Chunks(s)| && EndsProps(Chunks(s)[k])
    ensures forall c, n :: NodeHere(s, i, c, n) ==> FindProp(n.items, name) == None
  {
    hide TokenOf, Decodes, Walk, EventsOf, NameAt, Flat;
    forall c, n | NodeHere(s, i, c, n) ensures FindProp(n.items, name) == None {
      MissingProp(Chunks(s), StringBlock(s), name, i, k, c, n);
    }
  }
}
