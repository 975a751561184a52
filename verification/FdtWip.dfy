// fdt_wip.c: edits that move nothing.
module FdtWip {
  import opened ByteStrings
  import opened Memory
  import opened FdtFormat
  import opened FdtTree
  import opened FdtBlob
  import opened FdtNode
  import opened FdtWalk
  import opened FdtProps

  // Header, structure block and strings block do not share bytes.
  predicate Separate(s: bytes)
    requires InBounds(s)
  {
    var (a, b) := (Hdr(s, OFF_STRUCT), Hdr(s, OFF_STRINGS));
    && HEADER_SIZE <= a
    && HEADER_SIZE <= b
    && (a + Hdr(s, SIZE_STRUCT) <= b || b + Hdr(s, SIZE_STRINGS) <= a)
  }

  lemma HeaderKept(s: bytes, s': bytes)
    requires HEADER_SIZE <= |s| == |s'| && s[..HEADER_SIZE] == s'[..HEADER_SIZE]
    ensures Hdr(s, MAGIC) == Hdr(s', MAGIC) && Hdr(s, TOTALSIZE) == Hdr(s', TOTALSIZE)
    ensures Hdr(s, OFF_STRUCT) == Hdr(s', OFF_STRUCT) && Hdr(s, OFF_STRINGS) == Hdr(s', OFF_STRINGS)
    ensures Hdr(s, OFF_RSVMAP) == Hdr(s', OFF_RSVMAP) && Hdr(s, VERSION) == Hdr(s', VERSION)
    ensures Hdr(s, LAST_COMP) == Hdr(s', LAST_COMP) && Hdr(s, BOOT_CPUID) == Hdr(s', BOOT_CPUID)
    ensures Hdr(s, SIZE_STRINGS) == Hdr(s', SIZE_STRINGS) && Hdr(s, SIZE_STRUCT) == Hdr(s', SIZE_STRUCT)
  {
    hide Be32;
    FieldKept(s, s', MAGIC); FieldKept(s, s', TOTALSIZE);
    FieldKept(s, s', OFF_STRUCT); FieldKept(s, s', OFF_STRINGS);
    FieldKept(s, s', OFF_RSVMAP); FieldKept(s, s', VERSION);
    FieldKept(s, s', LAST_COMP); FieldKept(s, s', BOOT_CPUID);
    FieldKept(s, s', SIZE_STRINGS); FieldKept(s, s', SIZE_STRUCT);
  }

  lemma FieldKept(s: bytes, s': bytes, f: nat)
    requires f + 4 <= HEADER_SIZE <= |s| && HEADER_SIZE <= |s'| && s[..HEADER_SIZE] == s'[..HEADER_SIZE]
    ensures Be32(s, f) == Be32(s', f)
  {
    assert s[f..f + 4] == s[..HEADER_SIZE][f..f + 4] == s'[f..f + 4];
    Be32OfSlice(s, f, s', f);
  }

  // A store inside the structure block changes that block and no other.
  lemma StructStore(s: bytes, o: nat, b: bytes)
    requires Readable(s) && Separate(s)
    requires o + |b| <= |StructBlock(s)|
    ensures var s' := Put(s, Hdr(s, OFF_STRUCT) + o, b);
            && Readable(s') && Separate(s')
            && StructBlock(s') == Put(StructBlock(s), o, b)
            && StringBlock(s') == StringBlock(s)
  {
    hide Be32, Put, CheckHeader;
    var (p, q) := (Hdr(s, OFF_STRUCT), Hdr(s, OFF_STRINGS));
    var s' := Put(s, p + o, b);
    StoreHeader(s, p + o, b);
    if p + |StructBlock(s)| <= q {
      PutAfter(s, p + o, b, q, q + Hdr(s, SIZE_STRINGS));
    } else {
      PutBefore(s, p + o, b, q, q + Hdr(s, SIZE_STRINGS));
    }
    PutInSlice(s, p, p + |StructBlock(s)|, o, b);
  }

  // A store behind the header.
  lemma StoreHeader(s: bytes, o: nat, b: bytes)
    requires Readable(s) && HEADER_SIZE <= o && o + |b| <= |s|
    ensures var s' := Put(s, o, b);
            && Readable(s') && Hdr(s', OFF_STRUCT) == Hdr(s, OFF_STRUCT) && Hdr(s', OFF_STRINGS) == Hdr(s, OFF_STRINGS)
            && Hdr(s', SIZE_STRUCT) == Hdr(s, SIZE_STRUCT) && Hdr(s', SIZE_STRINGS) == Hdr(s, SIZE_STRINGS)
  {
    hide Be32, Put;
    PutBefore(s, o, b, 0, HEADER_SIZE);
    HeaderKept(s, Put(s, o, b));
  }

  lemma PutInSlice(s: bytes, i: nat, j: nat, o: nat, b: bytes)
    requires i <= j <= |s| && i + o + |b| <= j
    ensures Put(s, i + o, b)[i..j] == Put(s[i..j], o, b)
  {
  }

  // n NOP tags.
  function Nops(n: nat): (r: chunks)
    ensures |r| == n
  {
    if n == 0 then [] else Nops(n - 1) + [Enc32(FDT_NOP)]
  }

  lemma NopChunk()
    ensures TokenOf(Enc32(FDT_NOP)) == Some(Nop)
  {
  }

  lemma {:induction false} NopsAreEmpty(n: nat, strs: bytes)
    ensures Chunked(Nops(n)) && Resolved(Nops(n), strs)
    ensures EventsOf(Nops(n), strs) == [] && |Flat(Nops(n))| == 4 * n
  {
    if n > 0 {
      NopsAreEmpty(n - 1, strs);
      NopChunk();
      hide TokenOf, Enc32;
      EventsOfCat(Nops(n - 1), [Enc32(FDT_NOP)], strs);
      EventsOfOne(Enc32(FDT_NOP), strs);
      FlatCat(Nops(n - 1), [Enc32(FDT_NOP)]);
      FlatOne(Enc32(FDT_NOP));
    }
  }

  lemma NoNops()
    ensures Flat(Nops(0)) == []
  {
  }

  lemma OneMoreNop(n: nat)
    ensures Flat(Nops(n + 1)) == Flat(Nops(n)) + Enc32(FDT_NOP)
  {
    FlatCat(Nops(n), [Enc32(FDT_NOP)]);
    FlatOne(Enc32(FDT_NOP));
  }

  // _fdt_nop_region.
  method NopRegion(a: array<byte>, start: nat, len: nat)
    requires start + Align4(len) <= a.Length
    modifies a
    ensures |Flat(Nops(Align4(len) / 4))| == Align4(len)
    ensures a[..] == Put(old(a[..]), start, Flat(Nops(Align4(len) / 4)))
  {
    hide Put, Flat, Nops, Enc32;
    var p := start;
    ghost var k := 0;
    ghost var was := a[..];
    NoNops();
    PutNothing(was, start);
    while p < start + len
      invariant p == start + 4 * k && k <= Align4(len) / 4
      invariant |Flat(Nops(k))| == 4 * k
      invariant a[..] == Put(was, start, Flat(Nops(k)))
      decreases start + len - p
    {
      StoreWord(a, p, FDT_NOP);
      OneMoreNop(k);
      PutNext(was, start, Flat(Nops(k)), Enc32(FDT_NOP));
      p := p + 4;
      k := k + 1;
    }
  }

  lemma PutNext(s: bytes, o: nat, b: bytes, c: bytes)
    requires o + |b| + |c| <= |s|
    ensures Put(Put(s, o, b), o + |b|, c) == Put(s, o, b + c)
  {
  }

  lemma PutIs(s: bytes, i: nat, j: nat, b: bytes)
    requires i <= j <= |s| && |b| == j - i
    ensures Put(s, i, b) == s[..i] + b + s[j..]
  {
  }

  // Chunks i to j overwritten by NOPs of the same size.
  lemma NopChunks(s: bytes, i: nat, j: nat, nops: bytes, s': bytes)
    requires Walkable(s) && Separate(s) && Resolved(Chunks(s), StringBlock(s))
    requires i <= j <= |Chunks(s)|
    requires Off(Chunks(s), j) - Off(Chunks(s), i) == |nops| && |nops| % 4 == 0
    requires nops == Flat(Nops(|nops| / 4))
    requires Hdr(s, OFF_STRUCT) + Off(Chunks(s), i) + |nops| <= |s|
    requires s' == Put(s, Hdr(s, OFF_STRUCT) + Off(Chunks(s), i), nops)
    ensures Readable(s') && Separate(s')
    ensures forall t :: Denotes(s', t) <==>
              Events(t) == EventsOf(Chunks(s)[..i], StringBlock(s)) + EventsOf(Chunks(s)[j..], StringBlock(s))
  {
    hide TokenOf, Walk, Be32, ChunkResolved, EventsOf, Nops, Flat, Hdr, CheckHeader, Decodes, Put, Separate;
    var (st, cs, strs) := (StructBlock(s), Chunks(s), StringBlock(s));
    var (oi, oj) := (Off(cs, i), Off(cs, j));
    OffsetsInBlock(s, i, j);
    NopsAreEmpty(|nops| / 4, strs);
    StructStore(s, oi, nops);
    assert strs + [] == strs;
    PutIs(st, oi, oj, nops);
    EditChunks(s, s', i, j, Nops(|nops| / 4), []);
    assert EventsOf(cs[..i], strs) + [] == EventsOf(cs[..i], strs);
  }

  // What the library asks of an edited blob and of the node offset it is given.
  ghost predicate Editable(s: bytes, i: nat, nodeoffset: int32) {
    && Walkable(s)
    && Separate(s)
    && Resolved(Chunks(s), StringBlock(s))
    && NodeOrRefused(s, i, nodeoffset)
  }

  // A property chunk with another value of the same length.
  lemma PropChunkPut(c: bytes, val: bytes)
    requires IsProp(c) && |val| == |TokenOf(c).value.value|
    ensures 12 + |val| <= |c|
    ensures TokenOf(Put(c, 12, val)) == Some(Prop(TokenOf(c).value.nameoff, val))
  {
    hide Align4, Word;
    var c' := Put(c, 12, val);
    PutBefore(c, 12, val, 0, 4);
    Be32OfSlice(c', 0, c, 0);
    PutBefore(c, 12, val, 4, 8);
    Be32OfSlice(c', 4, c, 4);
    PutBefore(c, 12, val, 8, 12);
    Be32OfSlice(c', 8, c, 8);
    PutSame(c, 12, val);
  }

  lemma StructWithValue(s: bytes, k: nat, val: bytes)
    requires Walkable(s) && k < |Chunks(s)| && PropValueAt(s, k, |val|)
    ensures var (st, cs) := (StructBlock(s), Chunks(s));
            && 12 + |val| <= |cs[k]| && Off(cs, k) + |cs[k]| == Off(cs, k + 1) <= |st|
            && Put(st, Off(cs, k) + 12, val) == st[..Off(cs, k)] + Put(cs[k], 12, val) + st[Off(cs, k + 1)..]
  {
    hide TokenOf, Walk, Be32, Off, Chunks;
    var (st, cs) := (StructBlock(s), Chunks(s));
    PropChunkPut(cs[k], val);
    DecodesAt(st, cs, k);
    SpliceInChunk(st, Off(cs, k), cs[k], 12, val);
  }

  lemma SpliceInChunk(st: bytes, o: nat, c: bytes, p: nat, val: bytes)
    requires o + |c| <= |st| && st[o..o + |c|] == c && p + |val| <= |c|
    ensures Put(st, o + p, val) == st[..o] + Put(c, p, val) + st[o + |c|..]
  {
    assert st == st[..o] + c + st[o + |c|..];
  }

  // Tags of one kind and length; properties may differ in their values.
  predicate SameTag(c: bytes, d: bytes) {
    && |d| == |c|
    && (TokenOf(d) == TokenOf(c)
        || (IsProp(c) && IsProp(d) && TokenOf(d).value.nameoff == TokenOf(c).value.nameoff
            && |TokenOf(d).value.value| == |TokenOf(c).value.value|))
  }

  // The same tags in the same places.
  ghost predicate SameTags(s: bytes, s': bytes) {
    && Readable(s) && Readable(s') && |s'| == |s|
    && StringBlock(s') == StringBlock(s) && Hdr(s', OFF_STRUCT) == Hdr(s, OFF_STRUCT)
    && |Chunks(s')| == |Chunks(s)|
    && forall x :: 0 <= x < |Chunks(s)| ==> SameTag(Chunks(s)[x], Chunks(s')[x])
  }

  lemma SameTagsOn(s: bytes, s': bytes, s'': bytes)
    requires SameTags(s, s') && SameTags(s', s'')
    ensures SameTags(s, s'')
  {
    hide TokenOf, Chunks, CheckHeader;
    forall x | 0 <= x < |Chunks(s)| ensures SameTag(Chunks(s)[x], Chunks(s'')[x]) {
      assert SameTag(Chunks(s)[x], Chunks(s')[x]) && SameTag(Chunks(s')[x], Chunks(s'')[x]);
    }
  }

  lemma {:induction false} SameTagsOff(cs: chunks, ds: chunks, i: nat)
    requires |ds| == |cs| && i <= |cs| && forall x :: 0 <= x < |cs| ==> SameTag(cs[x], ds[x])
    ensures Off(ds, i) == Off(cs, i)
  {
    hide TokenOf;
    if i > 0 {
      SameTagsOff(cs, ds, i - 1);
      OffNext(cs, i - 1);
      OffNext(ds, i - 1);
      assert SameTag(cs[i - 1], ds[i - 1]);
    }
  }

  // A property found in one is found in the same place of the other.
  lemma SameTagsProp(s: bytes, s': bytes, name: bytes, i: nat, k: nat)
    requires SameTags(s, s') && PropChunk(Chunks(s'), StringBlock(s'), name, i, k)
    ensures PropChunk(Chunks(s), StringBlock(s), name, i, k) && Off(Chunks(s'), k) == Off(Chunks(s), k)
    ensures |TokenOf(Chunks(s)[k]).value.value| == |TokenOf(Chunks(s')[k]).value.value|
  {
    hide TokenOf, Chunks, CheckHeader, NameAt, Off;
    var (cs, ds, strs) := (Chunks(s), Chunks(s'), StringBlock(s));
    SameTagsOff(cs, ds, k);
    forall x | i < x < k ensures IsOther(cs[x], strs, name) {
      assert SameTag(cs[x], ds[x]) && IsOther(ds[x], strs, name);
    }
    assert SameTag(cs[k], ds[k]);
  }

  // Chunk k stays a property of the same name with the new value; the tree and
  // the node's place in the blob follow.
  lemma InplaceEffect(s: bytes, i: nat, k: nat, nodeoffset: int32, name: bytes, val: bytes, s': bytes)
    requires Editable(s, i, nodeoffset) && OnNode(s, i, nodeoffset)
    requires PropChunk(Chunks(s), StringBlock(s), name, i, k) && PropValueAt(s, k, |val|)
    requires Hdr(s, OFF_STRUCT) + Off(Chunks(s), k) + 12 + |val| <= |s|
    requires s' == Put(s, Hdr(s, OFF_STRUCT) + Off(Chunks(s), k) + 12, val)
    ensures forall c, n :: NodeHere(s, i, c, n) ==>
              && Lookup(n, name).Some? && |Lookup(n, name).value| == |val|
              && Denotes(s', Plug(c, WithProp(n, name, val)))
              && NodeHere(s', i, c, WithProp(n, name, val))
    ensures Editable(s', i, nodeoffset) && OnNode(s', i, nodeoffset)
    ensures k < |Chunks(s')| && Chunks(s')[..k] == Chunks(s)[..k]
  {
    hide TokenOf, Walk, Be32, ChunkResolved, EventsOf, Flat, CheckHeader, Decodes, Put, Separate, Chunks;
    var (st, cs, strs) := (StructBlock(s), Chunks(s), StringBlock(s));
    var o := Off(cs, k);
    PropChunkPut(cs[k], val);
    var c' := Put(cs[k], 12, val);
    StructWithValue(s, k, val);
    StructStore(s, o + 12, val);
    NewPropResolved(cs[k], c', strs, name, val);
    FlatOne(c');
    assert strs + [] == strs;
    EditChunks(s, s', k, k + 1, [c'], []);
    EventsOfOne(c', strs);
    SamePlace(s, s', i, k, [c']);
    forall c, n | NodeHere(s, i, c, n)
      ensures && Lookup(n, name).Some? && |Lookup(n, name).value| == |val|
              && Denotes(s', Plug(c, WithProp(n, name, val)))
              && NodeHere(s', i, c, WithProp(n, name, val))
    {
      FoundProp(cs, strs, name, i, k, c, n);
    }
    OnNodeNotRefused(s, i, nodeoffset);
    var c0, n0 :| NodeHere(s, i, c0, n0);
    assert NodeHere(s', i, c0, WithProp(n0, name, val));
  }

  lemma InplaceTags(s: bytes, i: nat, k: nat, name: bytes, val: bytes, s': bytes)
    requires Walkable(s) && Separate(s) && Resolved(Chunks(s), StringBlock(s))
    requires PropChunk(Chunks(s), StringBlock(s), name, i, k) && PropValueAt(s, k, |val|)
    requires s' == Put(s, Hdr(s, OFF_STRUCT) + Off(Chunks(s), k) + 12, val)
    ensures SameTags(s, s')
  {
    hide TokenOf, Walk, Be32, ChunkResolved, EventsOf, Flat, CheckHeader, Decodes, Put, Chunks, NameAt;
    var (cs, strs) := (Chunks(s), StringBlock(s));
    StructWithValue(s, k, val);
    var (c, c') := (cs[k], Put(cs[k], 12, val));
    PropChunkPut(c, val);
    StructStore(s, Off(cs, k) + 12, val);
    StoreHeader(s, Hdr(s, OFF_STRUCT) + Off(cs, k) + 12, val);
    NewPropResolved(c, c', strs, name, val);
    FlatOne(c');
    assert strs + [] == strs;
    EditChunks(s, s', k, k + 1, [c'], []);
    assert Chunks(s') == cs[k := c'];
  }

  lemma NewPropResolved(c: bytes, c': bytes, strs: bytes, name: bytes, val: bytes)
    requires IsProp(c) && TokenOf(c') == Some(Prop(TokenOf(c).value.nameoff, val))
    requires ChunkResolved(c, strs) && NameAt(strs, TokenOf(c).value.nameoff) == name
    ensures TokenOf(c').Some? && ChunkResolved(c', strs) && ChunkEvents(c', strs) == [Attr(name, val)]
  {
    hide TokenOf, NameAt, StrAt;
  }

  // A node before the edited chunks keeps its chunk number and its offset.
  lemma SamePlace(s: bytes, s': bytes, i: nat, k: nat, mid: chunks)
    requires Readable(s) && Readable(s') && StringBlock(s) == StringBlock(s')
    requires i < k < |Chunks(s)|
    requires Chunks(s') == Chunks(s)[..k] + mid + Chunks(s)[k + 1..]
    ensures Off(Chunks(s'), i) == Off(Chunks(s), i) && Chunks(s')[i] == Chunks(s)[i]
    ensures Chunks(s')[..i] == Chunks(s)[..i]
  {
    hide Walk, Be32, Flat, CheckHeader, Chunks;
    assert Chunks(s')[..i] == Chunks(s)[..i];
  }

  // fdt_setprop_inplace: the value of the property, and no other byte, changes.
  method SetPropInplace(a: array<byte>, nodeoffset: int32, name: bytes, val: bytes, ghost i: nat)
    returns (err: int, ghost k: nat)
    requires Editable(a[..], i, nodeoffset) && name != []
    modifies a
    ensures err != 0 ==> a[..] == old(a[..])
    ensures Refused(old(a[..]), nodeoffset) ==> err == BADOFFSET
    ensures OnNode(old(a[..]), i, nodeoffset) ==>
              forall c, n :: NodeHere(old(a[..]), i, c, n) ==>
                match Lookup(n, name)
                case None => err == NOTFOUND
                case Some(v) =>
                  if |v| != |val| then err == NOSPACE
                  else err == 0 && Readable(a[..]) && NodeHere(a[..], i, c, WithProp(n, name, val))
    ensures err == 0 ==>
              && Editable(a[..], i, nodeoffset) && OnNode(a[..], i, nodeoffset)
              && k < |Chunks(a[..])| && k < |Chunks(old(a[..]))| && Chunks(a[..])[..k] == Chunks(old(a[..]))[..k]
              && PropChunk(Chunks(old(a[..])), StringBlock(old(a[..])), name, i, k)
              && PropValueAt(old(a[..]), k, |val|)
              && SameTags(old(a[..]), a[..])
              && a[..] == Put(old(a[..]), Hdr(old(a[..]), OFF_STRUCT) + Off(Chunks(old(a[..])), k) + 12, val)
  {
    hide TokenOf, Walk, Be32, ChunkResolved, EventsOf, Decodes, Off, NextTag, Put, Flat, Chunks;
    hide Separate, CheckHeader, WithProp, NameAt, Events, SameTags, Plug, FindProp, Resolved, Hdr;
    ghost var s := a[..];
    NotBoth(s, i, nodeoffset);
    var data, len;
    data, len, k := FdtGetProp(a[..], nodeoffset, name, i);
    if data == -1 {
      return len, k;
    }
    if len != |val| {
      return NOSPACE, k;
    }
    var p := Hdr(a[..], OFF_STRUCT) + data;
    MemCpy(a, p, val);
    InplaceEffect(s, i, k, nodeoffset, name, val, a[..]);
    InplaceTags(s, i, k, name, val, a[..]);
    err := 0;
  }

  // The value field of property chunk k is n bytes long and inside the block.
  ghost predicate PropValueAt(s: bytes, k: nat, n: nat)
    requires Readable(s)
  {
    && k < |Chunks(s)| && IsProp(Chunks(s)[k])
    && n == |TokenOf(Chunks(s)[k]).value.value|
    && Off(Chunks(s), k) + 12 + n <= |StructBlock(s)|
  }

  // Only the bytes of chunks i to j differ.
  ghost predicate OnlyErased(s: bytes, s': bytes, i: nat, j: nat)
    requires Readable(s)
  {
    && i <= j <= |Chunks(s)| && |s'| == |s|
    && forall x :: 0 <= x < |s| && s'[x] != s[x] ==>
         Off(Chunks(s), i) <= x - Hdr(s, OFF_STRUCT) < Off(Chunks(s), j)
  }

  lemma PutOnly(s: bytes, o: nat, b: bytes, x: nat)
    requires o + |b| <= |s| && x < |s| && Put(s, o, b)[x] != s[x]
    ensures o <= x < o + |b|
  {
  }

  lemma PutErases(s: bytes, i: nat, j: nat, b: bytes)
    requires Readable(s) && i <= j <= |Chunks(s)|
    requires |b| == Off(Chunks(s), j) - Off(Chunks(s), i)
    requires Hdr(s, OFF_STRUCT) + Off(Chunks(s), j) <= |s|
    ensures OnlyErased(s, Put(s, Hdr(s, OFF_STRUCT) + Off(Chunks(s), i), b), i, j)
  {
    hide Put, Off, Be32, Chunks, CheckHeader;
    var o := Hdr(s, OFF_STRUCT) + Off(Chunks(s), i);
    forall x | 0 <= x < |s| && Put(s, o, b)[x] != s[x]
      ensures Off(Chunks(s), i) <= x - Hdr(s, OFF_STRUCT) < Off(Chunks(s), j)
    {
      PutOnly(s, o, b, x);
    }
  }

  // fdt_nop_property: the first property of that name goes, and no byte
  // outside it moves or changes.
  method NopProperty(a: array<byte>, nodeoffset: int32, name: bytes, ghost i: nat)
    returns (err: int, ghost k: nat)
    requires Editable(a[..], i, nodeoffset) && name != []
    modifies a
    ensures err != 0 ==> a[..] == old(a[..])
    ensures Refused(old(a[..]), nodeoffset) ==> err == BADOFFSET
    ensures OnNode(old(a[..]), i, nodeoffset) ==>
              forall c, n :: NodeHere(old(a[..]), i, c, n) ==>
                if FindProp(n.items, name) == None then err == NOTFOUND
                else err == 0 && Denotes(a[..], Plug(c, WithoutProp(n, name)))
    ensures err == 0 ==>
              && PropChunk(Chunks(old(a[..])), StringBlock(old(a[..])), name, i, k)
              && OnlyErased(old(a[..]), a[..], k, k + 1)
  {
    hide TokenOf, Walk, Be32, ChunkResolved, EventsOf, Decodes, Off, NextTag, Put, Flat, Chunks;
    hide CheckHeader, Nops, Align4, Separate, NameAt, Plug, Events, WithoutProp, FindProp, Resolved;
    ghost var s := a[..];
    var prop, len;
    prop, len, k := FdtGetProperty(a[..], nodeoffset, name, i);
    if prop == -1 {
      if OnNode(s, i, nodeoffset) {
        NoSuchProp(s, i, k, name);
      }
      return len, k;
    }
    var p := Hdr(a[..], OFF_STRUCT) + prop;
    PropFields(s, k);
    AlignFrom(0, len);
    NopRegion(a, p, len + 12);
    OffsetsInBlock(s, k, k + 1);
    NopChunks(s, k, k + 1, Flat(Nops(Align4(len + 12) / 4)), a[..]);
    PutErases(s, k, k + 1, Flat(Nops(Align4(len + 12) / 4)));
    forall c, n | NodeHere(s, i, c, n)
      ensures FindProp(n.items, name).Some? && Denotes(a[..], Plug(c, WithoutProp(n, name)))
    {
      FoundProp(Chunks(s), StringBlock(s), name, i, k, c, n);
    }
    err := 0;
  }

  // The blob after the node at c went: the tree without it, and no tree at all
  // if it was the root.
  ghost predicate TreeWithout(s: bytes, c: Ctx) {
    if c.Hole? then forall t :: !Denotes(s, t) else Denotes(s, Cut(c))
  }

  lemma NodeErased(s: bytes, s': bytes, i: nat, j: nat)
    requires Walkable(s) && NodeEnd(Chunks(s), StringBlock(s), i, j)
    requires forall t :: Denotes(s', t) <==>
               Events(t) == EventsOf(Chunks(s)[..i], StringBlock(s)) + EventsOf(Chunks(s)[j..], StringBlock(s))
    ensures forall c, n :: NodeHere(s, i, c, n) ==> TreeWithout(s', c)
  {
    hide TokenOf, Walk, EventsOf, Decodes, Off, Flat, Chunks, CheckHeader, Cut, Denotes, Depth;
    forall c, n | NodeHere(s, i, c, n) ensures TreeWithout(s', c) {
      NodeEndIsNode(Chunks(s), StringBlock(s), i, j, c, n);
      if c.Under? {
        EventsCut(c);
      }
    }
  }

  // fdt_nop_node: the node goes with all it holds, and no byte outside it
  // moves or changes.
  method NopNode(a: array<byte>, nodeoffset: int32, ghost i: nat) returns (err: int, ghost j: nat)
    requires Editable(a[..], i, nodeoffset)
    modifies a
    ensures err != 0 ==> a[..] == old(a[..])
    ensures Refused(old(a[..]), nodeoffset) ==> err == if nodeoffset < 0 then nodeoffset else BADOFFSET
    ensures OnNode(old(a[..]), i, nodeoffset) ==>
              && err == 0
              && NodeEnd(Chunks(old(a[..])), StringBlock(old(a[..])), i, j)
              && OnlyErased(old(a[..]), a[..], i, j)
              && forall c, n :: NodeHere(old(a[..]), i, c, n) ==> TreeWithout(a[..], c)
  {
    hide TokenOf, Walk, Be32, ChunkResolved, EventsOf, Decodes, Off, NextTag, Put, Flat, Chunks;
    hide CheckHeader, Nops, Align4, Cut, Pre, Post;
    ghost var s := a[..];
    var endoffset;
    endoffset, j := FdtNodeEndOffset(a[..], nodeoffset, i);
    if endoffset < 0 {
      return endoffset, j;
    }
    OnNodeNotRefused(s, i, nodeoffset);
    OffsetsInBlock(s, i, j);
    var len := endoffset - nodeoffset;
    AlignedIs(len);
    NopRegion(a, Hdr(a[..], OFF_STRUCT) + nodeoffset, len);
    NopChunks(s, i, j, Flat(Nops(Align4(len) / 4)), a[..]);
    PutErases(s, i, j, Flat(Nops(Align4(len) / 4)));
    NodeErased(s, a[..], i, j);
    err := 0;
  }

  lemma AlignedIs(n: nat)
    requires n % 4 == 0
    ensures Align4(n) == n
  {
  }
}
