// fdt_rw.c, the byte level: header checks, header stores and the splices.
module FdtSplice {
  import opened ByteStrings
  import opened Memory
  import opened FdtFormat
  import opened FdtBlob
  import opened FdtWip

  // A 32-bit number as a C int.
  function AsInt(v: nat): int
    requires v < WORD
  {
    if v < INT_LIMIT then v else v - WORD
  }

  // _fdt_blocks_misordered, with the library's own libfdt_env.h: header words
  // are unsigned long long there and the sums 64 bits wide, so that only the
  // structure's size, which comes as an int, can make one wrap.
  predicate Misordered(s: bytes, rsvSize: nat, structSize: int)
    requires HEADER_SIZE <= |s|
  {
    || Hdr(s, OFF_RSVMAP) < HEADER_SIZE
    || Hdr(s, OFF_STRUCT) < Hdr(s, OFF_RSVMAP) + rsvSize
    || Hdr(s, OFF_STRINGS) < (Hdr(s, OFF_STRUCT) + structSize) % (WORD * WORD)
    || Hdr(s, TOTALSIZE) < Hdr(s, OFF_STRINGS) + Hdr(s, SIZE_STRINGS)
  }

  // The same function with boot0's libfdt_env.h, where header words are uint32_t
  // and every sum may wrap.
  predicate Misordered32(s: bytes, rsvSize: nat, structSize: int)
    requires HEADER_SIZE <= |s|
  {
    || Hdr(s, OFF_RSVMAP) < HEADER_SIZE
    || Hdr(s, OFF_STRUCT) < (Hdr(s, OFF_RSVMAP) + rsvSize) % WORD
    || Hdr(s, OFF_STRINGS) < (Hdr(s, OFF_STRUCT) + structSize) % WORD
    || Hdr(s, TOTALSIZE) < (Hdr(s, OFF_STRINGS) + Hdr(s, SIZE_STRINGS)) % WORD
  }

  // The blocks follow one another inside the blob.
  predicate InOrder(s: bytes, rsvSize: nat, structSize: nat)
    requires HEADER_SIZE <= |s|
  {
    && HEADER_SIZE <= Hdr(s, OFF_RSVMAP)
    && Hdr(s, OFF_RSVMAP) + rsvSize <= Hdr(s, OFF_STRUCT)
    && Hdr(s, OFF_STRUCT) + structSize <= Hdr(s, OFF_STRINGS)
    && Hdr(s, OFF_STRINGS) + Hdr(s, SIZE_STRINGS) <= Hdr(s, TOTALSIZE)
  }

  // The end of some block does not fit 32 bits.
  predicate EndWraps(s: bytes, rsvSize: nat, structSize: nat)
    requires HEADER_SIZE <= |s|
  {
    || Hdr(s, OFF_RSVMAP) + rsvSize >= WORD
    || Hdr(s, OFF_STRUCT) + structSize >= WORD
    || Hdr(s, OFF_STRINGS) + Hdr(s, SIZE_STRINGS) >= WORD
  }

  // In a blob whose size is an int the 64-bit test finds the order exactly when
  // the structure's size is one, too.
  lemma MisorderedMeans(s: bytes, rsvSize: nat, structSize: nat)
    requires HEADER_SIZE <= |s| && Hdr(s, TOTALSIZE) < INT_LIMIT && structSize < WORD
    ensures InOrder(s, rsvSize, structSize) <==> !Misordered(s, rsvSize, AsInt(structSize)) && structSize < INT_LIMIT
  {
    hide Hdr;
    HdrsFit(s);
    if structSize < INT_LIMIT {
      SmallMod64(Hdr(s, OFF_STRUCT) + structSize);
    }
  }

  lemma SmallMod64(n: nat)
    requires n < WORD * WORD
    ensures n % (WORD * WORD) == n
  {
  }

  // The 32-bit test finds it exactly when no end of a block wraps.
  lemma MisorderedMeans32(s: bytes, rsvSize: nat, structSize: nat)
    requires HEADER_SIZE <= |s| && structSize < WORD
    ensures InOrder(s, rsvSize, structSize) <==>
              !Misordered32(s, rsvSize, AsInt(structSize)) && !EndWraps(s, rsvSize, structSize)
  {
    hide Hdr;
    HdrsFit(s);
    SameMod(Hdr(s, OFF_STRUCT) + structSize);
    if !EndWraps(s, rsvSize, structSize) {
      SmallMod(Hdr(s, OFF_RSVMAP) + rsvSize);
      SmallMod(Hdr(s, OFF_STRUCT) + structSize);
      SmallMod(Hdr(s, OFF_STRINGS) + Hdr(s, SIZE_STRINGS));
    }
  }

  lemma SameMod(n: int)
    ensures (n - WORD) % WORD == n % WORD
  {
  }

  // What the 64-bit test accepts the 32-bit test accepts.
  lemma StricterTest(s: bytes, rsvSize: nat, structSize: nat)
    requires HEADER_SIZE <= |s| && structSize < WORD
    ensures !Misordered(s, rsvSize, AsInt(structSize)) ==> !Misordered32(s, rsvSize, AsInt(structSize))
  {
    hide Hdr;
    HdrsFit(s);
    var sum := Hdr(s, OFF_STRUCT) + AsInt(structSize);
    if sum >= 0 {
      SmallMod64(sum);
      if sum < WORD {
        SmallMod(sum);
      }
    } else {
      NegativeMod64(sum);
    }
    if !Misordered(s, rsvSize, AsInt(structSize)) {
      SmallMod(Hdr(s, OFF_RSVMAP) + rsvSize);
      SmallMod(Hdr(s, OFF_STRINGS) + Hdr(s, SIZE_STRINGS));
    }
  }

  lemma NegativeMod64(n: int)
    requires n < 0 && n + WORD >= 0
    ensures n % (WORD * WORD) == n + WORD * WORD
  {
  }

  lemma HdrsFit(s: bytes)
    requires HEADER_SIZE <= |s|
    ensures Hdr(s, OFF_STRUCT) < WORD && Hdr(s, OFF_STRINGS) < WORD && Hdr(s, TOTALSIZE) < WORD
    ensures Hdr(s, SIZE_STRUCT) < WORD
  {
  }

  // The buffer is as long as the blob says, and its size is a C int.
  predicate Buffer(s: bytes) {
    HEADER_SIZE <= |s| < INT_LIMIT && Hdr(s, TOTALSIZE) <= |s|
  }

  // _fdt_rw_check_header's verdict.
  function RwCheck(s: bytes): int
    requires HEADER_SIZE <= |s|
  {
    if CheckHeader(s) != 0 then CheckHeader(s)
    else if Hdr(s, VERSION) < 17 then BADVERSION
    else if Misordered(s, RSV_ENTRY, AsInt(Hdr(s, SIZE_STRUCT))) then BADLAYOUT
    else 0
  }

  // A blob the editors accept: reserve map, structure, strings, in that order.
  ghost predicate Ordered(s: bytes) {
    && Readable(s)
    && Separate(s)
    && Hdr(s, OFF_STRUCT) + Hdr(s, SIZE_STRUCT) <= Hdr(s, OFF_STRINGS)
    && HEADER_SIZE <= Hdr(s, OFF_RSVMAP) && Hdr(s, OFF_RSVMAP) + RSV_ENTRY <= Hdr(s, OFF_STRUCT)
  }

  // What the check accepts is ordered, unless the structure's size is no int.
  lemma RwCheckOrdered(s: bytes)
    requires Buffer(s) && Hdr(s, MAGIC) == FDT_MAGIC
    ensures Ordered(s) <==> RwCheck(s) == 0 && Hdr(s, SIZE_STRUCT) < INT_LIMIT
  {
    hide Hdr, Misordered, AsInt;
    HdrsFit(s);
    MisorderedMeans(s, RSV_ENTRY, Hdr(s, SIZE_STRUCT));
  }

  // All the same outside the header, and the same blocks.
  ghost predicate SameBlocks(s: bytes, s': bytes) {
    && Readable(s) && Readable(s') && |s| == |s'|
    && StructBlock(s') == StructBlock(s) && StringBlock(s') == StringBlock(s)
    && Hdr(s', OFF_STRUCT) == Hdr(s, OFF_STRUCT) && Hdr(s', OFF_STRINGS) == Hdr(s, OFF_STRINGS)
    && Hdr(s', OFF_RSVMAP) == Hdr(s, OFF_RSVMAP) && Hdr(s', TOTALSIZE) == Hdr(s, TOTALSIZE)
  }

  // A header store changes that field and nothing else.
  lemma HeaderStore(s: bytes, f: nat, v: nat)
    requires HEADER_SIZE <= |s| && f % 4 == 0 && f + 4 <= HEADER_SIZE && v < WORD
    ensures var s' := Put(s, f, Enc32(v));
            && Hdr(s', f) == v
            && s'[HEADER_SIZE..] == s[HEADER_SIZE..]
            && forall g :: g % 4 == 0 && 0 <= g <= HEADER_SIZE - 4 && g != f ==> Hdr(s', g) == Hdr(s, g)
  {
    hide Be32;
    var s' := Put(s, f, Enc32(v));
    PutSame(s, f, Enc32(v));
    assert s'[f..f + 4] == Enc32(v)[0..4];
    Be32OfSlice(s', f, Enc32(v), 0);
    PutAfter(s, f, Enc32(v), HEADER_SIZE, |s|);
    forall g | g % 4 == 0 && 0 <= g <= HEADER_SIZE - 4 && g != f ensures Hdr(s', g) == Hdr(s, g) {
      if g < f {
        PutBefore(s, f, Enc32(v), g, g + 4);
      } else {
        PutAfter(s, f, Enc32(v), g, g + 4);
      }
      Be32OfSlice(s', g, s, g);
    }
  }

  // Slices past the header agree when everything past the header does.
  lemma SlicePastHeader(s: bytes, s': bytes, i: nat, j: nat)
    requires HEADER_SIZE <= |s| == |s'| && s'[HEADER_SIZE..] == s[HEADER_SIZE..]
    requires HEADER_SIZE <= i <= j <= |s|
    ensures s'[i..j] == s[i..j]
  {
    SliceOfSlice(s, HEADER_SIZE, |s|, i - HEADER_SIZE, j - HEADER_SIZE);
    SliceOfSlice(s', HEADER_SIZE, |s|, i - HEADER_SIZE, j - HEADER_SIZE);
    assert s[HEADER_SIZE..|s|] == s[HEADER_SIZE..] && s'[HEADER_SIZE..|s|] == s'[HEADER_SIZE..];
  }

  // _fdt_rw_check_header: a newer version is marked down to 17.
  method RwCheckHeader(a: array<byte>) returns (err: int)
    requires Buffer(a[..])
    modifies a
    ensures err == RwCheck(old(a[..]))
    ensures err != 0 ==> a[..] == old(a[..])
    ensures err == 0 ==> a[HEADER_SIZE..] == old(a[HEADER_SIZE..]) && Hdr(a[..], VERSION) == 17
    ensures err == 0 && Ordered(old(a[..])) ==> Ordered(a[..]) && SameBlocks(old(a[..]), a[..])
  {
    ghost var s := a[..];
    err := RwCheck(a[..]);
    if err == 0 && Hdr(a[..], VERSION) > 17 {
      StoreWord(a, VERSION, 17);
      HeaderStore(s, VERSION, 17);
      if Ordered(s) {
        hide Be32, Put;
        SlicePastHeader(s, a[..], Hdr(s, OFF_STRUCT), Hdr(s, OFF_STRUCT) + Hdr(s, SIZE_STRUCT));
        SlicePastHeader(s, a[..], Hdr(s, OFF_STRINGS), Hdr(s, OFF_STRINGS) + Hdr(s, SIZE_STRINGS));
        SlicePastHeader(s, a[..], HEADER_SIZE, |s|);
      }
    }
  }

  // The end of the last block.
  function DataSize(s: bytes): nat
    requires HEADER_SIZE <= |s|
  {
    Hdr(s, OFF_STRINGS) + Hdr(s, SIZE_STRINGS)
  }

  function Spliced(s: bytes, p: nat, oldlen: nat, newlen: nat): (r: bytes)
    requires HEADER_SIZE <= |s| && p + oldlen <= DataSize(s) <= |s|
    requires DataSize(s) - oldlen + newlen <= |s|
    ensures |r| == |s|
  {
    Put(s, p + newlen, s[p + oldlen..DataSize(s)])
  }

  // _fdt_splice: from p on, oldlen bytes make room for newlen.
  method Splice(a: array<byte>, p: nat, oldlen: nat, newlen: nat) returns (err: int)
    requires Buffer(a[..]) && DataSize(a[..]) <= a.Length
    modifies a
    ensures err == if p + oldlen > DataSize(old(a[..])) then BADOFFSET
                   else if DataSize(old(a[..])) - oldlen + newlen > Hdr(old(a[..]), TOTALSIZE) then NOSPACE
                   else 0
    ensures err != 0 ==> a[..] == old(a[..])
    ensures err == 0 ==> a[..] == Spliced(old(a[..]), p, oldlen, newlen)
  {
    var end := DataSize(a[..]);
    if p + oldlen > end {
      return BADOFFSET;
    }
    if end - oldlen + newlen > Hdr(a[..], TOTALSIZE) {
      return NOSPACE;
    }
    MemMove(a, p + newlen, p + oldlen, end - p - oldlen);
    return 0;
  }

  // The bytes after a splice of the structure block and its header stores.
  function SplicedStruct(s: bytes, p: nat, oldlen: nat, newlen: nat): (r: bytes)
    requires HEADER_SIZE <= |s| < INT_LIMIT && p + oldlen <= DataSize(s) <= |s|
    requires DataSize(s) - oldlen + newlen <= |s|
    requires oldlen <= Hdr(s, SIZE_STRUCT) && oldlen <= Hdr(s, OFF_STRINGS) && p >= HEADER_SIZE
    requires Hdr(s, SIZE_STRUCT) <= |s|
    ensures |r| == |s|
  {
    hide Be32, Put;
    var s1 := Spliced(s, p, oldlen, newlen);
    PutBefore(s, p + newlen, s[p + oldlen..DataSize(s)], 0, HEADER_SIZE);
    HeaderKept(s, s1);
    var s2 := Put(s1, SIZE_STRUCT, Enc32(Hdr(s1, SIZE_STRUCT) - oldlen + newlen));
    HeaderStore(s1, SIZE_STRUCT, Hdr(s1, SIZE_STRUCT) - oldlen + newlen);
    Put(s2, OFF_STRINGS, Enc32(Hdr(s2, OFF_STRINGS) - oldlen + newlen))
  }

  // _fdt_splice_struct.
  method SpliceStruct(a: array<byte>, p: nat, oldlen: nat, newlen: nat) returns (err: int)
    requires Ordered(a[..])
    requires Hdr(a[..], OFF_STRUCT) <= p && p + oldlen <= Hdr(a[..], OFF_STRUCT) + Hdr(a[..], SIZE_STRUCT)
    modifies a
    ensures err == if DataSize(old(a[..])) - oldlen + newlen > Hdr(old(a[..]), TOTALSIZE) then NOSPACE else 0
    ensures err != 0 ==> a[..] == old(a[..])
    ensures err == 0 ==> a[..] == SplicedStruct(old(a[..]), p, oldlen, newlen)
  {
    hide Be32, Put, CheckHeader;
    ghost var s := a[..];
    err := Splice(a, p, oldlen, newlen);
    if err != 0 {
      return;
    }
    PutBefore(s, p + newlen, s[p + oldlen..DataSize(s)], 0, HEADER_SIZE);
    HeaderKept(s, a[..]);
    ghost var s1 := a[..];
    HeaderStore(s1, SIZE_STRUCT, Hdr(s1, SIZE_STRUCT) - oldlen + newlen);
    StoreWord(a, SIZE_STRUCT, Hdr(a[..], SIZE_STRUCT) - oldlen + newlen);
    StoreWord(a, OFF_STRINGS, Hdr(a[..], OFF_STRINGS) - oldlen + newlen);
  }

  // The header and the blocks after _fdt_splice_struct: the structure block
  // changes at o = p - off_dt_struct only, the strings block has moved whole,
  // and everything before the structure block is where it was.
  ghost predicate StructSpliced(s: bytes, s': bytes, o: nat, oldlen: nat, newlen: nat)
    requires Ordered(s) && o + oldlen <= |StructBlock(s)|
  {
    && |s'| == |s| && Ordered(s')
    && Hdr(s', OFF_STRUCT) == Hdr(s, OFF_STRUCT) && Hdr(s', OFF_RSVMAP) == Hdr(s, OFF_RSVMAP)
    && Hdr(s', TOTALSIZE) == Hdr(s, TOTALSIZE) && Hdr(s', VERSION) == Hdr(s, VERSION)
    && DataSize(s') == DataSize(s) - oldlen + newlen
    && |StructBlock(s')| == |StructBlock(s)| - oldlen + newlen
    && StructBlock(s')[..o] == StructBlock(s)[..o]
    && StructBlock(s')[o + newlen..] == StructBlock(s)[o + oldlen..]
    && StringBlock(s') == StringBlock(s)
    && s'[HEADER_SIZE..Hdr(s, OFF_STRUCT)] == s[HEADER_SIZE..Hdr(s, OFF_STRUCT)]
  }

  // Moving the rest of the data shifts every slice of it.
  lemma SplicedSlices(s: bytes, p: nat, oldlen: nat, newlen: nat, i: nat, j: nat)
    requires HEADER_SIZE <= |s| && p + oldlen <= DataSize(s) <= |s|
    requires DataSize(s) - oldlen + newlen <= |s|
    requires i <= j <= |s|
    ensures j <= p ==> Spliced(s, p, oldlen, newlen)[i..j] == s[i..j]
    ensures p + oldlen <= i && j <= DataSize(s) ==>
              Spliced(s, p, oldlen, newlen)[i - oldlen + newlen..j - oldlen + newlen] == s[i..j]
  {
    hide Be32;
    var s' := Spliced(s, p, oldlen, newlen);
    var moved := s[p + oldlen..DataSize(s)];
    if j <= p {
      PutBefore(s, p + newlen, moved, i, j);
    }
    if p + oldlen <= i && j <= DataSize(s) {
      PutSame(s, p + newlen, moved);
      var (a, b) := (p + newlen, p + newlen + |moved|);
      SliceOfSlice(s', a, b, i - oldlen - p, j - oldlen - p);
      SliceOfSlice(s, p + oldlen, DataSize(s), i - oldlen - p, j - oldlen - p);
    }
  }

  lemma SpliceStructEffect(s: bytes, p: nat, oldlen: nat, newlen: nat, s': bytes)
    requires Ordered(s)
    requires Hdr(s, OFF_STRUCT) <= p && p + oldlen <= Hdr(s, OFF_STRUCT) + Hdr(s, SIZE_STRUCT)
    requires DataSize(s) - oldlen + newlen <= Hdr(s, TOTALSIZE)
    requires s' == SplicedStruct(s, p, oldlen, newlen)
    ensures StructSpliced(s, s', p - Hdr(s, OFF_STRUCT), oldlen, newlen)
  {
    hide Be32, Put, CheckHeader;
    var s1 := Spliced(s, p, oldlen, newlen);
    PutBefore(s, p + newlen, s[p + oldlen..DataSize(s)], 0, HEADER_SIZE);
    HeaderKept(s, s1);
    var v := Hdr(s1, SIZE_STRUCT) - oldlen + newlen;
    var s2 := Put(s1, SIZE_STRUCT, Enc32(v));
    HeaderStore(s1, SIZE_STRUCT, v);
    var w := Hdr(s2, OFF_STRINGS) - oldlen + newlen;
    HeaderStore(s2, OFF_STRINGS, w);
    assert s'[HEADER_SIZE..] == s1[HEADER_SIZE..];
    StillReadable(s, s');
    SpliceStructBlocks(s, p, oldlen, newlen, s1, s');
  }

  lemma StillReadable(s: bytes, s': bytes)
    requires Ordered(s) && |s'| == |s|
    requires Hdr(s', MAGIC) == Hdr(s, MAGIC) && Hdr(s', VERSION) == Hdr(s, VERSION)
    requires Hdr(s', LAST_COMP) == Hdr(s, LAST_COMP) && Hdr(s', TOTALSIZE) == Hdr(s, TOTALSIZE)
    requires Hdr(s', OFF_STRUCT) == Hdr(s, OFF_STRUCT) && Hdr(s', OFF_RSVMAP) == Hdr(s, OFF_RSVMAP)
    requires Hdr(s', OFF_STRUCT) + Hdr(s', SIZE_STRUCT) <= Hdr(s', OFF_STRINGS)
    requires DataSize(s') <= Hdr(s, TOTALSIZE)
    ensures Ordered(s')
  {
    hide Be32;
  }

  lemma SpliceStructBlocks(s: bytes, p: nat, oldlen: nat, newlen: nat, s1: bytes, s': bytes)
    requires Ordered(s) && Ordered(s') && |s'| == |s|
    requires Hdr(s, OFF_STRUCT) <= p && p + oldlen <= Hdr(s, OFF_STRUCT) + Hdr(s, SIZE_STRUCT)
    requires DataSize(s) - oldlen + newlen <= Hdr(s, TOTALSIZE)
    requires s1 == Spliced(s, p, oldlen, newlen) && s'[HEADER_SIZE..] == s1[HEADER_SIZE..]
    requires Hdr(s', OFF_STRUCT) == Hdr(s, OFF_STRUCT) && Hdr(s', SIZE_STRINGS) == Hdr(s, SIZE_STRINGS)
    requires Hdr(s', SIZE_STRUCT) == Hdr(s, SIZE_STRUCT) - oldlen + newlen
    requires Hdr(s', OFF_STRINGS) == Hdr(s, OFF_STRINGS) - oldlen + newlen
    ensures var o := p - Hdr(s, OFF_STRUCT);
            && StructBlock(s')[..o] == StructBlock(s)[..o]
            && StructBlock(s')[o + newlen..] == StructBlock(s)[o + oldlen..]
    ensures StringBlock(s') == StringBlock(s)
    ensures s'[HEADER_SIZE..Hdr(s, OFF_STRUCT)] == s[HEADER_SIZE..Hdr(s, OFF_STRUCT)]
  {
    hide Be32, Put, CheckHeader, Spliced, Hdr;
    SpliceInStruct(s, p, oldlen, newlen, s1, s');
    SpliceOutside(s, p, oldlen, newlen, s1, s');
  }

  lemma SpliceInStruct(s: bytes, p: nat, oldlen: nat, newlen: nat, s1: bytes, s': bytes)
    requires Ordered(s) && Ordered(s') && |s'| == |s|
    requires Hdr(s, OFF_STRUCT) <= p && p + oldlen <= Hdr(s, OFF_STRUCT) + Hdr(s, SIZE_STRUCT)
    requires DataSize(s) - oldlen + newlen <= Hdr(s, TOTALSIZE)
    requires s1 == Spliced(s, p, oldlen, newlen) && s'[HEADER_SIZE..] == s1[HEADER_SIZE..]
    requires Hdr(s', OFF_STRUCT) == Hdr(s, OFF_STRUCT) && Hdr(s', SIZE_STRINGS) == Hdr(s, SIZE_STRINGS)
    requires Hdr(s', SIZE_STRUCT) == Hdr(s, SIZE_STRUCT) - oldlen + newlen
    requires Hdr(s', OFF_STRINGS) == Hdr(s, OFF_STRINGS) - oldlen + newlen
    ensures var o := p - Hdr(s, OFF_STRUCT);
            && StructBlock(s')[..o] == StructBlock(s)[..o]
            && StructBlock(s')[o + newlen..] == StructBlock(s)[o + oldlen..]
  {
    hide Be32, Put, CheckHeader, Spliced, Hdr;
    SpliceBefore(s, p, oldlen, newlen, s1, s');
    SpliceAfter(s, p, oldlen, newlen, s1, s');
  }

  lemma SpliceBefore(s: bytes, p: nat, oldlen: nat, newlen: nat, s1: bytes, s': bytes)
    requires Ordered(s) && Ordered(s') && |s'| == |s|
    requires Hdr(s, OFF_STRUCT) <= p && p + oldlen <= Hdr(s, OFF_STRUCT) + Hdr(s, SIZE_STRUCT)
    requires DataSize(s) - oldlen + newlen <= Hdr(s, TOTALSIZE)
    requires s1 == Spliced(s, p, oldlen, newlen) && s'[HEADER_SIZE..] == s1[HEADER_SIZE..]
    requires Hdr(s', OFF_STRUCT) == Hdr(s, OFF_STRUCT) && Hdr(s', SIZE_STRINGS) == Hdr(s, SIZE_STRINGS)
    requires Hdr(s', SIZE_STRUCT) == Hdr(s, SIZE_STRUCT) - oldlen + newlen
    requires Hdr(s', OFF_STRINGS) == Hdr(s, OFF_STRINGS) - oldlen + newlen
    ensures var o := p - Hdr(s, OFF_STRUCT); StructBlock(s')[..o] == StructBlock(s)[..o]
  {
    hide Be32, Put, CheckHeader, Spliced, Hdr;
    var b := Hdr(s, OFF_STRUCT);
    var e := b + Hdr(s, SIZE_STRUCT);
    SplicedSlices(s, p, oldlen, newlen, b, p);
    SlicePastHeader(s1, s', b, p);
    SliceOfSlice(s', b, e + (newlen - oldlen), 0, p - b);
    SliceOfSlice(s, b, e, 0, p - b);
  }

  lemma SpliceAfter(s: bytes, p: nat, oldlen: nat, newlen: nat, s1: bytes, s': bytes)
    requires Ordered(s) && Ordered(s') && |s'| == |s|
    requires Hdr(s, OFF_STRUCT) <= p && p + oldlen <= Hdr(s, OFF_STRUCT) + Hdr(s, SIZE_STRUCT)
    requires DataSize(s) - oldlen + newlen <= Hdr(s, TOTALSIZE)
    requires s1 == Spliced(s, p, oldlen, newlen) && s'[HEADER_SIZE..] == s1[HEADER_SIZE..]
    requires Hdr(s', OFF_STRUCT) == Hdr(s, OFF_STRUCT) && Hdr(s', SIZE_STRINGS) == Hdr(s, SIZE_STRINGS)
    requires Hdr(s', SIZE_STRUCT) == Hdr(s, SIZE_STRUCT) - oldlen + newlen
    requires Hdr(s', OFF_STRINGS) == Hdr(s, OFF_STRINGS) - oldlen + newlen
    ensures var o := p - Hdr(s, OFF_STRUCT); StructBlock(s')[o + newlen..] == StructBlock(s)[o + oldlen..]
  {
    hide Be32, Put, CheckHeader, Spliced, Hdr;
    var b := Hdr(s, OFF_STRUCT);
    var (e, o, d) := (b + Hdr(s, SIZE_STRUCT), p - b, newlen - oldlen);
    SplicedSlices(s, p, oldlen, newlen, p + oldlen, e);
    SlicePastHeader(s1, s', p + newlen, e + d);
    SliceOfSlice(s', b, e + d, o + newlen, e + d - b);
    SliceOfSlice(s, b, e, o + oldlen, e - b);
  }

  lemma SpliceOutside(s: bytes, p: nat, oldlen: nat, newlen: nat, s1: bytes, s': bytes)
    requires Ordered(s) && Ordered(s') && |s'| == |s|
    requires Hdr(s, OFF_STRUCT) <= p && p + oldlen <= Hdr(s, OFF_STRUCT) + Hdr(s, SIZE_STRUCT)
    requires DataSize(s) - oldlen + newlen <= Hdr(s, TOTALSIZE)
    requires s1 == Spliced(s, p, oldlen, newlen) && s'[HEADER_SIZE..] == s1[HEADER_SIZE..]
    requires Hdr(s', OFF_STRUCT) == Hdr(s, OFF_STRUCT) && Hdr(s', SIZE_STRINGS) == Hdr(s, SIZE_STRINGS)
    requires Hdr(s', SIZE_STRUCT) == Hdr(s, SIZE_STRUCT) - oldlen + newlen
    requires Hdr(s', OFF_STRINGS) == Hdr(s, OFF_STRINGS) - oldlen + newlen
    ensures StringBlock(s') == StringBlock(s)
    ensures s'[HEADER_SIZE..Hdr(s, OFF_STRUCT)] == s[HEADER_SIZE..Hdr(s, OFF_STRUCT)]
  {
    hide Be32, Put, CheckHeader, Spliced, Hdr;
    var (b, q) := (Hdr(s, OFF_STRUCT), Hdr(s, OFF_STRINGS));
    var d := newlen - oldlen;
    SplicedSlices(s, p, oldlen, newlen, q, DataSize(s));
    SlicePastHeader(s1, s', q + d, DataSize(s'));
    SplicedSlices(s, p, oldlen, newlen, HEADER_SIZE, b);
    SlicePastHeader(s1, s', HEADER_SIZE, b);
  }

  // _fdt_splice_string: nothing follows the strings block, so nothing moves.
  method SpliceString(a: array<byte>, newlen: nat) returns (err: int)
    requires Ordered(a[..])
    modifies a
    ensures err == if DataSize(old(a[..])) + newlen > Hdr(old(a[..]), TOTALSIZE) then NOSPACE else 0
    ensures err != 0 ==> a[..] == old(a[..])
    ensures err == 0 ==>
              a[..] == Put(old(a[..]), SIZE_STRINGS, Enc32(Hdr(old(a[..]), SIZE_STRINGS) + newlen))
  {
    hide Be32, Put, CheckHeader;
    ghost var s := a[..];
    var p := DataSize(a[..]);
    err := Splice(a, p, 0, newlen);
    if err != 0 {
      return;
    }
    MovesNothing(s, p, newlen);
    StoreWord(a, SIZE_STRINGS, Hdr(a[..], SIZE_STRINGS) + newlen);
  }

  lemma MovesNothing(s: bytes, p: nat, newlen: nat)
    requires HEADER_SIZE <= |s| && p == DataSize(s) && p + newlen <= |s|
    ensures Spliced(s, p, 0, newlen) == s
  {
    hide Be32;
    assert s[p..p] == [];
  }
}
