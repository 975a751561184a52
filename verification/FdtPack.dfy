// fdt_pack and fdt_open_into: the blocks of a blob moved together, in place or
// into another buffer of the same memory.
module FdtPack {
  import opened ByteStrings
  import opened Memory
  import opened FdtFormat
  import opened FdtBlob
  import opened FdtSplice

  // The reserve map at o: address and size pairs up to the first size of zero.
  // None when the buffer ends first.
  function RsvList(s: bytes, o: nat): (r: Option<seq<(nat, nat)>>)
    ensures r.Some? ==> o + RSV_ENTRY * (|r.value| + 1) <= |s|
    decreases |s| - o
  {
    if o + RSV_ENTRY > |s| then None
    else if Be64(s, o + 8) == 0 then Some([])
    else
      match RsvList(s, o + RSV_ENTRY)
      case None => None
      case Some(rest) => Some([(Be64(s, o), Be64(s, o + 8))] + rest)
  }

  function Reserved(s: bytes): Option<seq<(nat, nat)>>
    requires HEADER_SIZE <= |s|
  {
    RsvList(s, Hdr(s, OFF_RSVMAP))
  }

  // Bytes of the reserve map with its terminator.
  function RsvSize(s: bytes): nat
    requires HEADER_SIZE <= |s| && Reserved(s).Some?
  {
    RSV_ENTRY * (|Reserved(s).value| + 1)
  }

  // The list is in its bytes, wherever they are moved to.
  lemma {:induction false} RsvListMoves(s: bytes, o: nat, t: bytes, p: nat)
    requires RsvList(s, o).Some?
    requires var n := RSV_ENTRY * (|RsvList(s, o).value| + 1);
             p + n <= |t| && t[p..p + n] == s[o..o + n]
    ensures RsvList(t, p) == RsvList(s, o)
    decreases |s| - o
  {
    hide Be64;
    var n := RSV_ENTRY * (|RsvList(s, o).value| + 1);
    SliceOfSlice(s, o, o + n, 8, 16);
    SliceOfSlice(t, p, p + n, 8, 16);
    Be64OfSlice(s, o + 8, t, p + 8);
    if Be64(s, o + 8) != 0 {
      SliceOfSlice(s, o, o + n, 0, 8);
      SliceOfSlice(t, p, p + n, 0, 8);
      Be64OfSlice(s, o, t, p);
      SliceOfSlice(s, o, o + n, 16, n);
      SliceOfSlice(t, p, p + n, 16, n);
      RsvListMoves(s, o + RSV_ENTRY, t, p + RSV_ENTRY);
    }
  }

  // fdt_num_mem_rsv.
  method NumMemRsv(s: bytes) returns (i: nat)
    requires HEADER_SIZE <= |s| && Reserved(s).Some?
    ensures i == |Reserved(s).value|
  {
    hide Be64;
    var o := Hdr(s, OFF_RSVMAP);
    i := 0;
    while Be64(s, o + RSV_ENTRY * i + 8) != 0
      invariant RsvList(s, o + RSV_ENTRY * i).Some?
      invariant |RsvList(s, o + RSV_ENTRY * i).value| + i == |Reserved(s).value|
      decreases |Reserved(s).value| - i
    {
      i := i + 1;
    }
  }

  lemma PutApart(s: bytes, o: nat, b: bytes, i: nat, j: nat)
    requires o + |b| <= |s| && i <= j <= |s|
    requires j <= o || o + |b| <= i
    ensures Put(s, o, b)[i..j] == s[i..j]
  {
    if j <= o {
      PutBefore(s, o, b, i, j);
    } else {
      PutAfter(s, o, b, i, j);
    }
  }

  // The blob in memory from address base on.
  function At(m: bytes, base: nat, size: nat): (r: bytes)
    requires base + size <= |m|
    ensures |r| == size
  {
    m[base..base + size]
  }

  function Field(m: bytes, base: nat, f: nat): (r: nat)
    requires base + f + 4 <= |m|
    ensures r < WORD
  {
    Be32(m, base + f)
  }

  lemma FieldIs(m: bytes, base: nat, size: nat, f: nat)
    requires base + size <= |m| && HEADER_SIZE <= size && f + 4 <= HEADER_SIZE
    ensures Field(m, base, f) == Hdr(At(m, base, size), f)
  {
    hide Word;
    SliceOfSlice(m, base, base + size, f, f + 4);
    Be32OfSlice(m, base + f, At(m, base, size), f);
  }

  // What _fdt_packblocks may be called with: blocks and target inside the
  // memory, and the target apart from the old blob or starting where it does.
  ghost predicate Packable(m: bytes, old_: nat, oldsize: nat, new_: nat, r: nat, z: nat) {
    && old_ + oldsize <= |m| < INT_LIMIT && HEADER_SIZE <= oldsize
    && var s := At(m, old_, oldsize);
    && Readable(s) && Hdr(s, SIZE_STRUCT) == z
    && Hdr(s, OFF_RSVMAP) + r <= oldsize
    && new_ + HEADER_SIZE + r + z + Hdr(s, SIZE_STRINGS) <= |m|
    && if old_ == new_ then
         HEADER_SIZE <= Hdr(s, OFF_RSVMAP) && HEADER_SIZE <= Hdr(s, OFF_STRUCT) && HEADER_SIZE <= Hdr(s, OFF_STRINGS)
       else
         new_ + HEADER_SIZE + r + z + Hdr(s, SIZE_STRINGS) <= old_ || old_ + oldsize <= new_
  }

  // Slices that survive a store of n bytes at o.
  ghost predicate KeepsApart(m: bytes, m': bytes, o: nat, n: nat) {
    && |m'| == |m|
    && forall i: nat, j: nat {:trigger m'[i..j]} :: i <= j <= |m| && (j <= o || o + n <= i) ==> m'[i..j] == m[i..j]
  }

  lemma StoreKeeps(m: bytes, o: nat, b: bytes)
    requires o + |b| <= |m|
    ensures KeepsApart(m, Put(m, o, b), o, |b|)
    ensures Put(m, o, b)[o..o + |b|] == b
  {
    hide Put;
    var m' := Put(m, o, b);
    PutSame(m, o, b);
    forall i: nat, j: nat | i <= j <= |m| && (j <= o || o + |b| <= i) ensures m'[i..j] == m[i..j] {
      PutApart(m, o, b, i, j);
    }
  }

  lemma FieldKept2(m: bytes, m': bytes, o: nat, n: nat, base: nat, f: nat)
    requires KeepsApart(m, m', o, n) && base + f + 4 <= |m|
    requires base + f + 4 <= o || o + n <= base + f
    ensures Field(m', base, f) == Field(m, base, f)
  {
    hide Word;
    assert m'[base + f..base + f + 4] == m[base + f..base + f + 4];
    Be32OfSlice(m', base + f, m, base + f);
  }

  // The header words the packers set or rely on: all but boot_cpuid_phys.
  datatype Words = Words(rsv: nat, struct_: nat, strings: nat, zstrings: nat, zstruct: nat,
                         magic: nat, version: nat, lastcomp: nat, total: nat)

  function WordsAt(m: bytes, base: nat): Words
    requires base + HEADER_SIZE <= |m|
  {
    Words(Field(m, base, OFF_RSVMAP), Field(m, base, OFF_STRUCT), Field(m, base, OFF_STRINGS),
          Field(m, base, SIZE_STRINGS), Field(m, base, SIZE_STRUCT),
          Field(m, base, MAGIC), Field(m, base, VERSION), Field(m, base, LAST_COMP), Field(m, base, TOTALSIZE))
  }

  // A store outside a header keeps all its words.
  lemma WordsKept(m: bytes, m': bytes, o: nat, n: nat, base: nat)
    requires KeepsApart(m, m', o, n) && base + HEADER_SIZE <= |m|
    requires base + HEADER_SIZE <= o || o + n <= base
    ensures WordsAt(m', base) == WordsAt(m, base)
  {
    hide KeepsApart, Field;
    FieldKept2(m, m', o, n, base, OFF_RSVMAP); FieldKept2(m, m', o, n, base, OFF_STRUCT);
    FieldKept2(m, m', o, n, base, OFF_STRINGS); FieldKept2(m, m', o, n, base, SIZE_STRINGS);
    FieldKept2(m, m', o, n, base, SIZE_STRUCT); FieldKept2(m, m', o, n, base, MAGIC);
    FieldKept2(m, m', o, n, base, VERSION); FieldKept2(m, m', o, n, base, LAST_COMP);
    FieldKept2(m, m', o, n, base, TOTALSIZE);
  }

  // Setting one of the words; boot_cpuid_phys is not among them.
  function WithWord(h: Words, f: nat, v: nat): Words {
    if f == OFF_RSVMAP then h.(rsv := v)
    else if f == OFF_STRUCT then h.(struct_ := v)
    else if f == OFF_STRINGS then h.(strings := v)
    else if f == SIZE_STRINGS then h.(zstrings := v)
    else if f == SIZE_STRUCT then h.(zstruct := v)
    else if f == MAGIC then h.(magic := v)
    else if f == VERSION then h.(version := v)
    else if f == LAST_COMP then h.(lastcomp := v)
    else if f == TOTALSIZE then h.(total := v)
    else h
  }

  method SetField(a: array<byte>, base: nat, f: nat, v: nat)
    requires base + HEADER_SIZE <= a.Length && v < WORD
    requires f % 4 == 0 && f + 4 <= HEADER_SIZE
    modifies a
    ensures KeepsApart(old(a[..]), a[..], base, HEADER_SIZE)
    ensures WordsAt(a[..], base) == WithWord(WordsAt(old(a[..]), base), f, v)
  {
    hide Put, Field, Enc32;
    ghost var m := a[..];
    StoreWord(a, base + f, v);
    StoreKeeps(m, base + f, Enc32(v));
    FieldStored(m, a[..], base, f, v, OFF_RSVMAP); FieldStored(m, a[..], base, f, v, OFF_STRUCT);
    FieldStored(m, a[..], base, f, v, OFF_STRINGS); FieldStored(m, a[..], base, f, v, SIZE_STRINGS);
    FieldStored(m, a[..], base, f, v, SIZE_STRUCT); FieldStored(m, a[..], base, f, v, MAGIC);
    FieldStored(m, a[..], base, f, v, VERSION); FieldStored(m, a[..], base, f, v, LAST_COMP);
    FieldStored(m, a[..], base, f, v, TOTALSIZE);
  }

  lemma FieldStored(m: bytes, m': bytes, base: nat, f: nat, v: nat, g: nat)
    requires base + HEADER_SIZE <= |m| && v < WORD
    requires f % 4 == 0 && g % 4 == 0 && f + 4 <= HEADER_SIZE && g + 4 <= HEADER_SIZE
    requires m' == Put(m, base + f, Enc32(v)) && KeepsApart(m, m', base + f, 4)
    ensures Field(m', base, g) == if g == f then v else Field(m, base, g)
  {
    hide Put, Word, Enc32, Be32;
    if g == f {
      PutSame(m, base + f, Enc32(v));
      Be32OfSlice(m', base + f, Enc32(v), 0);
    } else {
      FieldKept2(m, m', base + f, 4, base, g);
    }
  }

  // Memory after _fdt_packblocks: x, y and w are the reserve map, the structure
  // and the strings; they follow the header at new_, and nothing else changed.
  ghost predicate Packed(m: bytes, m': bytes, new_: nat, x: bytes, y: bytes, w: bytes) {
    var (a, size) := (new_ + HEADER_SIZE, HEADER_SIZE + |x| + |y| + |w|);
    && |m'| == |m| && new_ + size <= |m|
    && KeepsApart(m, m', new_, size)
    && m'[a..a + |x|] == x
    && m'[a + |x|..a + |x| + |y|] == y
    && m'[a + |x| + |y|..new_ + size] == w
    && WordsAt(m', new_) == WordsAt(m, new_).(rsv := HEADER_SIZE, struct_ := HEADER_SIZE + |x|, zstruct := |y|,
                                             strings := HEADER_SIZE + |x| + |y|, zstrings := |w|)
  }

  // One block moved: it arrives, the words of the header stay, the rest stays.
  method MoveBlock(a: array<byte>, base: nat, dst: nat, src: nat, n: nat)
    requires dst + n <= a.Length && src + n <= a.Length && base + HEADER_SIZE <= dst
    modifies a
    ensures a[..] == Put(old(a[..]), dst, old(a[..])[src..src + n])
    ensures WordsAt(a[..], base) == WordsAt(old(a[..]), base)
  {
    hide Put, Field;
    ghost var m := a[..];
    MemMove(a, dst, src, n);
    assert old(a[src..src + n]) == m[src..src + n];
    StoreKeeps(m, dst, m[src..src + n]);
    WordsKept(m, a[..], dst, n, base);
  }

  lemma OldAfterSet(m1: bytes, m2: bytes, old_: nat, new_: nat, f: nat, v: nat)
    requires KeepsApart(m1, m2, new_, HEADER_SIZE)
    requires new_ + HEADER_SIZE <= |m1| && old_ + HEADER_SIZE <= |m1|
    requires WordsAt(m2, new_) == WithWord(WordsAt(m1, new_), f, v)
    requires old_ == new_ || old_ + HEADER_SIZE <= new_ || new_ + HEADER_SIZE <= old_
    ensures WordsAt(m2, old_) == if old_ == new_ then WithWord(WordsAt(m1, old_), f, v) else WordsAt(m1, old_)
  {
    hide WordsAt, KeepsApart, WithWord;
    if old_ != new_ {
      WordsKept(m1, m2, new_, HEADER_SIZE, old_);
    }
  }

  // Absolute places of the blocks, from the old header.
  lemma Places(m: bytes, old_: nat, oldsize: nat, new_: nat, r: nat, z: nat)
    requires Packable(m, old_, oldsize, new_, r, z)
    ensures var (s, h, n) := (At(m, old_, oldsize), WordsAt(m, old_), HEADER_SIZE + r + z);
            && h.zstruct == z && |m| < INT_LIMIT && old_ + HEADER_SIZE <= |m|
            && (old_ == new_ || old_ + HEADER_SIZE <= new_ || new_ + n + h.zstrings <= old_)
            && MoveFits(m, old_, new_, r, z)
            && ApartFrom(old_ + h.struct_, z, new_, HEADER_SIZE)
            && ApartFrom(old_ + h.strings, h.zstrings, new_, HEADER_SIZE)
  {
    hide Be32, CheckHeader, Field;
    var s := At(m, old_, oldsize);
    FieldIs(m, old_, oldsize, OFF_RSVMAP); FieldIs(m, old_, oldsize, OFF_STRUCT);
    FieldIs(m, old_, oldsize, OFF_STRINGS); FieldIs(m, old_, oldsize, SIZE_STRINGS);
    FieldIs(m, old_, oldsize, SIZE_STRUCT);
  }

  // The blocks that are there before the moves.
  lemma PlacedBlocks(m: bytes, old_: nat, oldsize: nat, new_: nat, r: nat, z: nat)
    requires Packable(m, old_, oldsize, new_, r, z)
    ensures var (s, h) := (At(m, old_, oldsize), WordsAt(m, old_));
            && MoveFits(m, old_, new_, r, z)
            && m[old_ + h.rsv..old_ + h.rsv + r] == s[Hdr(s, OFF_RSVMAP)..Hdr(s, OFF_RSVMAP) + r]
            && m[old_ + h.struct_..old_ + h.struct_ + z] == StructBlock(s)
            && m[old_ + h.strings..old_ + h.strings + h.zstrings] == StringBlock(s)
  {
    hide Be32, CheckHeader, Field;
    var s := At(m, old_, oldsize);
    FieldIs(m, old_, oldsize, OFF_RSVMAP); FieldIs(m, old_, oldsize, OFF_STRUCT);
    FieldIs(m, old_, oldsize, OFF_STRINGS); FieldIs(m, old_, oldsize, SIZE_STRINGS);
    FieldIs(m, old_, oldsize, SIZE_STRUCT);
    var (p, q, o) := (Hdr(s, OFF_STRUCT), Hdr(s, OFF_STRINGS), Hdr(s, OFF_RSVMAP));
    SliceOfSlice(m, old_, old_ + oldsize, o, o + r);
    SliceOfSlice(m, old_, old_ + oldsize, p, p + z);
    SliceOfSlice(m, old_, old_ + oldsize, q, q + Hdr(s, SIZE_STRINGS));
  }

  predicate Fits(m: bytes, o: nat, n: nat) {
    o + n <= |m|
  }

  ghost predicate MoveFits(m: bytes, old_: nat, new_: nat, r: nat, z: nat) {
    && old_ + HEADER_SIZE <= |m|
    && var h := WordsAt(m, old_);
    && Fits(m, old_ + h.rsv, r) && Fits(m, old_ + h.struct_, z) && Fits(m, old_ + h.strings, h.zstrings)
    && Fits(m, new_, HEADER_SIZE + r + z + h.zstrings)
  }

  predicate ApartFrom(i: nat, n: nat, o: nat, k: nat) {
    i + n <= o || o + k <= i
  }

  // What the three moves deliver, each from the memory the earlier ones left.
  ghost function Moved(m: bytes, old_: nat, new_: nat, r: nat, z: nat): (b: (bytes, bytes, bytes))
    requires MoveFits(m, old_, new_, r, z)
    ensures |b.0| == r && |b.1| == z && |b.2| == WordsAt(m, old_).zstrings
  {
    var h := WordsAt(m, old_);
    var x := m[old_ + h.rsv..old_ + h.rsv + r];
    var m1 := Put(m, new_ + HEADER_SIZE, x);
    var y := m1[old_ + h.struct_..old_ + h.struct_ + z];
    var m2 := Put(m1, new_ + HEADER_SIZE + r, y);
    (x, y, m2[old_ + h.strings..old_ + h.strings + h.zstrings])
  }

  // To a target apart from the old blob the moves deliver its blocks.
  lemma MovedApart(m: bytes, old_: nat, oldsize: nat, new_: nat, r: nat, z: nat)
    requires Packable(m, old_, oldsize, new_, r, z) && old_ != new_
    ensures MoveFits(m, old_, new_, r, z)
    ensures var s := At(m, old_, oldsize);
            && Moved(m, old_, new_, r, z)
               == (s[Hdr(s, OFF_RSVMAP)..Hdr(s, OFF_RSVMAP) + r], StructBlock(s), StringBlock(s))
  {
    hide Be32, CheckHeader, Field, Put, StructBlock, StringBlock;
    PlacedBlocks(m, old_, oldsize, new_, r, z);
    BlobWords(m, old_, oldsize);
    var (s, h) := (At(m, old_, oldsize), WordsAt(m, old_));
    var (x, y) := (m[old_ + h.rsv..old_ + h.rsv + r], m[old_ + h.struct_..old_ + h.struct_ + z]);
    var m1 := Put(m, new_ + HEADER_SIZE, x);
    PutApart(m, new_ + HEADER_SIZE, x, old_ + h.struct_, old_ + h.struct_ + z);
    PutApart(m, new_ + HEADER_SIZE, x, old_ + h.strings, old_ + h.strings + h.zstrings);
    PutApart(m1, new_ + HEADER_SIZE + r, y, old_ + h.strings, old_ + h.strings + h.zstrings);
  }

  // One block moved to dst and its offset written into the header at base.
  ghost predicate Placed(m: bytes, m': bytes, base: nat, old_: nat, dst: nat, src: nat, n: nat, f: nat, v: nat) {
    && dst + n <= |m| && src + n <= |m| && base + HEADER_SIZE <= |m| && old_ + HEADER_SIZE <= |m|
    && KeepsApart(Put(m, dst, m[src..src + n]), m', base, HEADER_SIZE)
    && WordsAt(m', base) == WithWord(WordsAt(m, base), f, v)
    && WordsAt(m', old_) == if old_ == base then WithWord(WordsAt(m, old_), f, v) else WordsAt(m, old_)
  }

  method PlaceBlock(a: array<byte>, base: nat, dst: nat, src: nat, n: nat, f: nat, v: nat, ghost old_: nat)
    requires dst + n <= a.Length && src + n <= a.Length && base + HEADER_SIZE <= dst && v < WORD
    requires f == OFF_RSVMAP || f == OFF_STRUCT || f == OFF_STRINGS
    requires old_ + HEADER_SIZE <= a.Length
    requires old_ == base || old_ + HEADER_SIZE <= base || dst + n <= old_
    modifies a
    ensures Placed(old(a[..]), a[..], base, old_, dst, src, n, f, v)
  {
    hide WordsAt, WithWord, Put;
    ghost var m := a[..];
    MoveBlock(a, base, dst, src, n);
    ghost var m1 := a[..];
    StoreKeeps(m, dst, m[src..src + n]);
    OldAfterMove(m, m1, dst, n, old_, base);
    SetField(a, base, f, v);
    OldAfterSet(m1, a[..], old_, base, f, v);
  }

  // _fdt_packblocks.
  method PackBlocks(a: array<byte>, old_: nat, new_: nat, r: nat, z: nat, ghost oldsize: nat)
    requires Packable(a[..], old_, oldsize, new_, r, z)
    modifies a
    ensures MoveFits(old(a[..]), old_, new_, r, z)
    ensures var b := Moved(old(a[..]), old_, new_, r, z); Packed(old(a[..]), a[..], new_, b.0, b.1, b.2)
  {
    hide Put, Field, Readable, Be32, Packable, WordsAt, Packed, Placed, KeepsApart, WithWord;
    hide StructBlock, StringBlock, Hdr, At, Moved;
    ghost var m := a[..];
    Places(m, old_, oldsize, new_, r, z);
    ghost var h := WordsAt(m, old_);
    var (d1, d2, d3) := (new_ + HEADER_SIZE, new_ + HEADER_SIZE + r, new_ + HEADER_SIZE + r + z);
    PlaceBlock(a, new_, d1, old_ + WordsAt(a[..], old_).rsv, r, OFF_RSVMAP, HEADER_SIZE, old_);
    ghost var m1 := a[..];
    PlacedWords(m, m1, new_, old_, d1, old_ + h.rsv, r, OFF_RSVMAP, HEADER_SIZE);
    PlaceBlock(a, new_, d2, old_ + WordsAt(a[..], old_).struct_, z, OFF_STRUCT, HEADER_SIZE + r, old_);
    ghost var m2 := a[..];
    PlacedWords(m1, m2, new_, old_, d2, old_ + h.struct_, z, OFF_STRUCT, HEADER_SIZE + r);
    SetField(a, new_, SIZE_STRUCT, z);
    ghost var m3 := a[..];
    OldAfterSet(m2, m3, old_, new_, SIZE_STRUCT, z);
    OtherWords(WordsAt(m2, old_), SIZE_STRUCT, z);
    PlaceBlock(a, new_, d3, old_ + WordsAt(a[..], old_).strings, WordsAt(a[..], old_).zstrings,
               OFF_STRINGS, HEADER_SIZE + r + z, old_);
    ghost var m4 := a[..];
    PlacedWords(m3, m4, new_, old_, d3, old_ + h.strings, h.zstrings, OFF_STRINGS, HEADER_SIZE + r + z);
    SetField(a, new_, SIZE_STRINGS, WordsAt(a[..], old_).zstrings);
    PackSteps(m, m1, m2, m3, m4, a[..], old_, oldsize, new_, r, z);
  }

  lemma PlacedWords(m: bytes, m': bytes, base: nat, old_: nat, dst: nat, src: nat, n: nat, f: nat, v: nat)
    requires Placed(m, m', base, old_, dst, src, n, f, v)
    requires f == OFF_RSVMAP || f == OFF_STRUCT || f == OFF_STRINGS
    ensures |m'| == |m|
    ensures var (h, h') := (WordsAt(m, old_), WordsAt(m', old_));
            && (f != OFF_STRUCT ==> h'.struct_ == h.struct_)
            && (f != OFF_STRINGS ==> h'.strings == h.strings)
            && h'.zstrings == h.zstrings
  {
    hide WordsAt, WithWord;
    OtherWords(WordsAt(m, old_), f, v);
  }

  lemma PackSteps(m: bytes, m1: bytes, m2: bytes, m3: bytes, m4: bytes, m5: bytes,
                  old_: nat, oldsize: nat, new_: nat, r: nat, z: nat)
    requires Packable(m, old_, oldsize, new_, r, z)
    requires old_ + HEADER_SIZE <= |m| && new_ + HEADER_SIZE <= |m|
    requires Placed(m, m1, new_, old_, new_ + HEADER_SIZE, old_ + WordsAt(m, old_).rsv, r, OFF_RSVMAP, HEADER_SIZE)
    requires Placed(m1, m2, new_, old_, new_ + HEADER_SIZE + r, old_ + WordsAt(m, old_).struct_, z,
                    OFF_STRUCT, HEADER_SIZE + r)
    requires KeepsApart(m2, m3, new_, HEADER_SIZE)
    requires WordsAt(m3, new_) == WithWord(WordsAt(m2, new_), SIZE_STRUCT, z)
    requires Placed(m3, m4, new_, old_, new_ + HEADER_SIZE + r + z, old_ + WordsAt(m, old_).strings,
                    WordsAt(m, old_).zstrings, OFF_STRINGS, HEADER_SIZE + r + z)
    requires KeepsApart(m4, m5, new_, HEADER_SIZE)
    requires WordsAt(m5, new_) == WithWord(WordsAt(m4, new_), SIZE_STRINGS, WordsAt(m, old_).zstrings)
    ensures MoveFits(m, old_, new_, r, z)
    ensures var b := Moved(m, old_, new_, r, z); Packed(m, m5, new_, b.0, b.1, b.2)
  {
    hide Put, Field, Readable, Be32, Packable, WordsAt, Packed, KeepsApart, WithWord;
    hide StructBlock, StringBlock, Hdr, At;
    Places(m, old_, oldsize, new_, r, z);
    var h := WordsAt(m, old_);
    var (x, y, w) := Moved(m, old_, new_, r, z);
    var (d1, d2, d3) := (new_ + HEADER_SIZE, new_ + HEADER_SIZE + r, new_ + HEADER_SIZE + r + z);
    var p1 := Put(m, d1, x);
    var p2 := Put(p1, d2, y);
    var p3 := Put(p2, d3, w);
    KeptApart(p1, m1, new_, HEADER_SIZE, old_ + h.struct_, old_ + h.struct_ + z);
    SameAround(p1, m1, m2, d2, y, new_);
    KeepsOn(p2, m2, m3, new_);
    KeptApart(p2, m3, new_, HEADER_SIZE, old_ + h.strings, old_ + h.strings + h.zstrings);
    SameAround(p2, m3, m4, d3, w, new_);
    KeepsOn(p3, m4, m5, new_);
    FinalWords(WordsAt(m, new_), r, z, h.zstrings);
    AllPacked(m, m5, new_, x, y, w);
  }

  // The same move in two memories that differ in a header only.
  lemma SameAround(p: bytes, m: bytes, m': bytes, d: nat, b: bytes, base: nat)
    requires KeepsApart(p, m, base, HEADER_SIZE) && base + HEADER_SIZE <= d && d + |b| <= |p|
    requires KeepsApart(Put(m, d, b), m', base, HEADER_SIZE)
    ensures KeepsApart(Put(p, d, b), m', base, HEADER_SIZE)
  {
    hide KeepsApart;
    KeptLength(p, m, base);
    var (q, q') := (Put(p, d, b), Put(m, d, b));
    KeptApart(p, m, base, HEADER_SIZE, 0, base);
    KeptApart(p, m, base, HEADER_SIZE, base + HEADER_SIZE, |p|);
    assert q'[..base] == m[0..base] == p[0..base] == q[..base];
    var (tail, tail') := (p[base + HEADER_SIZE..|p|], m[base + HEADER_SIZE..|p|]);
    forall i | base + HEADER_SIZE <= i < |p| ensures q'[i] == q[i] {
      assert p[i] == tail[i - base - HEADER_SIZE] && m[i] == tail'[i - base - HEADER_SIZE];
    }
    SameMeansKept(q, q', base);
    KeepsOn(q, q', m', base);
  }

  lemma KeptLength(p: bytes, m: bytes, base: nat)
    requires KeepsApart(p, m, base, HEADER_SIZE)
    ensures |m| == |p|
  {
  }

  lemma SameMeansKept(q: bytes, q': bytes, base: nat)
    requires |q'| == |q| && base + HEADER_SIZE <= |q|
    requires q'[..base] == q[..base] && forall i :: base + HEADER_SIZE <= i < |q| ==> q'[i] == q[i]
    ensures KeepsApart(q, q', base, HEADER_SIZE)
  {
    forall i: nat, j: nat | i <= j <= |q| && (j <= base || base + HEADER_SIZE <= i) ensures q'[i..j] == q[i..j] {
      if j <= base {
        assert q'[i..j] == q'[..base][i..j] && q[i..j] == q[..base][i..j];
      }
    }
  }

  lemma KeepsOn(p: bytes, m: bytes, m': bytes, base: nat)
    requires KeepsApart(p, m, base, HEADER_SIZE) && KeepsApart(m, m', base, HEADER_SIZE)
    ensures KeepsApart(p, m', base, HEADER_SIZE)
  {
    forall i: nat, j: nat | i <= j <= |p| && (j <= base || base + HEADER_SIZE <= i) ensures m'[i..j] == p[i..j] {
      assert m[i..j] == p[i..j];
    }
  }

  lemma OtherWords(h: Words, f: nat, v: nat)
    requires f == OFF_RSVMAP || f == OFF_STRUCT || f == OFF_STRINGS || f == SIZE_STRUCT
    ensures f != OFF_STRUCT ==> WithWord(h, f, v).struct_ == h.struct_
    ensures f != OFF_STRINGS ==> WithWord(h, f, v).strings == h.strings
    ensures WithWord(h, f, v).zstrings == h.zstrings
  {
  }

  lemma FinalWords(h: Words, r: nat, z: nat, zs: nat)
    ensures WithWord(WithWord(WithWord(WithWord(WithWord(h, OFF_RSVMAP, HEADER_SIZE), OFF_STRUCT, HEADER_SIZE + r),
                                       SIZE_STRUCT, z), OFF_STRINGS, HEADER_SIZE + r + z), SIZE_STRINGS, zs)
            == h.(rsv := HEADER_SIZE, struct_ := HEADER_SIZE + r, zstruct := z,
                  strings := HEADER_SIZE + r + z, zstrings := zs)
  {
  }

  lemma KeptApart(m: bytes, m': bytes, o: nat, n: nat, i: nat, j: nat)
    requires KeepsApart(m, m', o, n) && i <= j <= |m| && (j <= o || o + n <= i)
    ensures |m'| == |m| && m'[i..j] == m[i..j]
  {
  }

  lemma AllPacked(m: bytes, m': bytes, new_: nat, x: bytes, y: bytes, w: bytes)
    requires new_ + HEADER_SIZE + |x| + |y| + |w| <= |m|
    requires var (d1, d2, d3) := (new_ + HEADER_SIZE, new_ + HEADER_SIZE + |x|, new_ + HEADER_SIZE + |x| + |y|);
             KeepsApart(Put(Put(Put(m, d1, x), d2, y), d3, w), m', new_, HEADER_SIZE)
    requires WordsAt(m', new_) == WordsAt(m, new_).(rsv := HEADER_SIZE, struct_ := HEADER_SIZE + |x|, zstruct := |y|,
                                                    strings := HEADER_SIZE + |x| + |y|, zstrings := |w|)
    ensures Packed(m, m', new_, x, y, w)
  {
    hide WordsAt, Put, KeepsApart;
    var (d1, d2, d3) := (new_ + HEADER_SIZE, new_ + HEADER_SIZE + |x|, new_ + HEADER_SIZE + |x| + |y|);
    var p1 := Put(m, d1, x);
    var p2 := Put(p1, d2, y);
    var p3 := Put(p2, d3, w);
    var size := HEADER_SIZE + |x| + |y| + |w|;
    PutSame(m, d1, x); PutSame(p1, d2, y); PutSame(p2, d3, w);
    PutApart(p1, d2, y, d1, d2); PutApart(p2, d3, w, d1, d2); PutApart(p2, d3, w, d2, d3);
    KeptApart(p3, m', new_, HEADER_SIZE, d1, d2);
    KeptApart(p3, m', new_, HEADER_SIZE, d2, d3);
    KeptApart(p3, m', new_, HEADER_SIZE, d3, new_ + size);
    ThreePutsKeep(m, m', new_, x, y, w);
  }

  // Three blocks stored behind a header change nothing around them.
  lemma ThreePutsKeep(m: bytes, m': bytes, new_: nat, x: bytes, y: bytes, w: bytes)
    requires new_ + HEADER_SIZE + |x| + |y| + |w| <= |m|
    requires var (d1, d2, d3) := (new_ + HEADER_SIZE, new_ + HEADER_SIZE + |x|, new_ + HEADER_SIZE + |x| + |y|);
             KeepsApart(Put(Put(Put(m, d1, x), d2, y), d3, w), m', new_, HEADER_SIZE)
    ensures |m'| == |m| && KeepsApart(m, m', new_, HEADER_SIZE + |x| + |y| + |w|)
  {
    hide Put, KeepsApart;
    var (d1, d2, d3) := (new_ + HEADER_SIZE, new_ + HEADER_SIZE + |x|, new_ + HEADER_SIZE + |x| + |y|);
    var p1 := Put(m, d1, x);
    var p2 := Put(p1, d2, y);
    var p3 := Put(p2, d3, w);
    var size := HEADER_SIZE + |x| + |y| + |w|;
    KeptLength(p3, m', new_);
    forall i: nat, j: nat | i <= j <= |m| && (j <= new_ || new_ + size <= i) ensures m'[i..j] == m[i..j] {
      PutApart(m, d1, x, i, j); PutApart(p1, d2, y, i, j); PutApart(p2, d3, w, i, j);
      KeptApart(p3, m', new_, HEADER_SIZE, i, j);
    }
    KeepsWhen(m, m', new_, size);
  }

  lemma KeepsWhen(m: bytes, m': bytes, o: nat, n: nat)
    requires |m'| == |m|
    requires forall i: nat, j: nat {:trigger m'[i..j]} ::
               i <= j <= |m| && (j <= o || o + n <= i) ==> m'[i..j] == m[i..j]
    ensures KeepsApart(m, m', o, n)
  {
  }

  lemma OldAfterMove(m1: bytes, m2: bytes, dst: nat, n: nat, old_: nat, new_: nat)
    requires KeepsApart(m1, m2, dst, n) && old_ + HEADER_SIZE <= |m1| && new_ + HEADER_SIZE <= dst
    requires dst + n <= |m1|
    requires WordsAt(m2, new_) == WordsAt(m1, new_)
    requires old_ == new_ || old_ + HEADER_SIZE <= new_ || dst + n <= old_
    ensures WordsAt(m2, old_) == WordsAt(m1, old_)
  {
    hide WordsAt, KeepsApart;
    if old_ != new_ {
      WordsKept(m1, m2, dst, n, old_);
    }
  }

  // The header of a finished version 17 blob whose blocks follow it in order.
  ghost predicate PackedHeader(h: Words, r: nat, z: nat, zs: nat) {
    && h.magic == FDT_MAGIC && h.version == 17 && h.lastcomp <= FDT_LAST_SUPPORTED_VERSION
    && h.rsv == HEADER_SIZE && h.struct_ == HEADER_SIZE + r && h.zstruct == z
    && h.strings == HEADER_SIZE + r + z && h.zstrings == zs
    && HEADER_SIZE + r + z + zs <= h.total
  }

  // Same tree, same reserve list: a blob made of the blocks of another.
  ghost predicate SameContents(s: bytes, d: bytes)
    requires HEADER_SIZE <= |s|
  {
    && Ordered(d)
    && Reserved(d) == Reserved(s)
    && forall t :: Denotes(s, t) ==> Denotes(d, t)
  }

  lemma PackedBlob(m: bytes, base: nat, size: nat, s: bytes)
    requires Readable(s) && Reserved(s).Some?
    requires HEADER_SIZE <= size < INT_LIMIT && base + size <= |m|
    requires var (r, z, zs) := (RsvSize(s), Hdr(s, SIZE_STRUCT), Hdr(s, SIZE_STRINGS));
             && PackedHeader(WordsAt(m, base), r, z, zs) && WordsAt(m, base).total <= size
             && LiesAt(m, base + HEADER_SIZE, s[Hdr(s, OFF_RSVMAP)..Hdr(s, OFF_RSVMAP) + r])
             && LiesAt(m, base + HEADER_SIZE + r, StructBlock(s))
             && LiesAt(m, base + HEADER_SIZE + r + z, StringBlock(s))
    ensures SameContents(s, At(m, base, size))
  {
    hide Be32, Field, RsvList, StructBlock, StringBlock, CheckHeader, At, WordsAt, PackedHeader, Ordered, Denotes;
    var d := At(m, base, size);
    RsvInside(s, Hdr(s, OFF_RSVMAP));
    PackedBlocks(m, base, size, s[Hdr(s, OFF_RSVMAP)..Hdr(s, OFF_RSVMAP) + RsvSize(s)], StructBlock(s), StringBlock(s));
    RsvListMoves(s, Hdr(s, OFF_RSVMAP), d, HEADER_SIZE);
    SameBlocksSameTree(s, d);
  }

  // A packed header with three blocks behind it makes a blob of these blocks.
  lemma PackedBlocks(m: bytes, base: nat, size: nat, x: bytes, y: bytes, w: bytes)
    requires HEADER_SIZE <= size < INT_LIMIT && base + size <= |m| && |x| >= RSV_ENTRY
    requires PackedHeader(WordsAt(m, base), |x|, |y|, |w|) && WordsAt(m, base).total <= size
    requires LiesAt(m, base + HEADER_SIZE, x) && LiesAt(m, base + HEADER_SIZE + |x|, y)
    requires LiesAt(m, base + HEADER_SIZE + |x| + |y|, w)
    ensures var d := At(m, base, size);
            && Ordered(d) && Hdr(d, OFF_RSVMAP) == HEADER_SIZE
            && HEADER_SIZE + |x| <= |d| && d[HEADER_SIZE..HEADER_SIZE + |x|] == x
            && Readable(d) && StructBlock(d) == y && StringBlock(d) == w
            && Hdr(d, TOTALSIZE) == WordsAt(m, base).total && DataSize(d) == HEADER_SIZE + |x| + |y| + |w|
  {
    hide Be32, Field;
    BlobWords(m, base, size);
    var (o1, o2, o3) := (HEADER_SIZE, HEADER_SIZE + |x|, HEADER_SIZE + |x| + |y|);
    SliceOfSlice(m, base, base + size, o1, o2);
    SliceOfSlice(m, base, base + size, o2, o3);
    SliceOfSlice(m, base, base + size, o3, o3 + |w|);
  }

  lemma BlobWords(m: bytes, base: nat, size: nat)
    requires base + size <= |m| && HEADER_SIZE <= size
    ensures var (d, h) := (At(m, base, size), WordsAt(m, base));
            && Hdr(d, MAGIC) == h.magic && Hdr(d, VERSION) == h.version && Hdr(d, LAST_COMP) == h.lastcomp
            && Hdr(d, TOTALSIZE) == h.total && Hdr(d, OFF_RSVMAP) == h.rsv && Hdr(d, OFF_STRUCT) == h.struct_
            && Hdr(d, SIZE_STRUCT) == h.zstruct && Hdr(d, OFF_STRINGS) == h.strings
            && Hdr(d, SIZE_STRINGS) == h.zstrings
  {
    hide Field, Be32;
    FieldIs(m, base, size, MAGIC); FieldIs(m, base, size, VERSION); FieldIs(m, base, size, LAST_COMP);
    FieldIs(m, base, size, TOTALSIZE); FieldIs(m, base, size, OFF_RSVMAP); FieldIs(m, base, size, OFF_STRUCT);
    FieldIs(m, base, size, SIZE_STRUCT); FieldIs(m, base, size, OFF_STRINGS); FieldIs(m, base, size, SIZE_STRINGS);
  }

  lemma SameBlocksSameTree(s: bytes, d: bytes)
    requires Readable(s) && Readable(d)
    requires StructBlock(d) == StructBlock(s) && StringBlock(d) == StringBlock(s)
    ensures forall t :: Denotes(s, t) ==> Denotes(d, t)
  {
    hide CheckHeader, Be32, Walk, BlocksDenote;
  }

  lemma RsvInside(s: bytes, o: nat)
    requires RsvList(s, o).Some?
    ensures o + RSV_ENTRY * (|RsvList(s, o).value| + 1) <= |s|
  {
  }

  // The buffer holds the blocks as fdt_pack lays them out.
  ghost predicate PackRoom(s: bytes)
    requires HEADER_SIZE <= |s|
  {
    Reserved(s).Some? && PackSize(s) <= |s|
  }

  ghost function PackSize(s: bytes): nat
    requires HEADER_SIZE <= |s| && Reserved(s).Some?
  {
    HEADER_SIZE + RsvSize(s) + Hdr(s, SIZE_STRUCT) + Hdr(s, SIZE_STRINGS)
  }

  // Where the target of a move reaches into a block still to be moved, the
  // bytes that arrive there are the block's own.  There is no such place when
  // the map, moved behind the header, ends before the structure.
  ghost predicate Unclobbered(s: bytes)
    requires Ordered(s) && Reserved(s).Some?
  {
    RsvInside(s, Hdr(s, OFF_RSVMAP));
    var (o, b, q) := (Hdr(s, OFF_RSVMAP), Hdr(s, OFF_STRUCT), Hdr(s, OFF_STRINGS));
    var (r, z, zs) := (RsvSize(s), Hdr(s, SIZE_STRUCT), Hdr(s, SIZE_STRINGS));
    MapOverStruct(s, o, r, b, z) && MapOverStrings(s, o, r, b, z, q, zs)
  }

  // The map of r bytes at o, moved behind the header, on the structure.
  predicate MapOverStruct(s: bytes, o: nat, r: nat, b: nat, z: nat)
    requires o + r <= |s| && HEADER_SIZE <= b && b + z <= |s|
  {
    forall i :: b <= i < b + z && i < HEADER_SIZE + r ==> s[i] == s[o + i - HEADER_SIZE]
  }

  // The map, and the structure moved behind it, on the strings.
  predicate MapOverStrings(s: bytes, o: nat, r: nat, b: nat, z: nat, q: nat, zs: nat)
    requires o + r <= |s| && b + z <= |s| && HEADER_SIZE <= q && q + zs <= |s|
  {
    && (forall i :: q <= i < q + zs && i < HEADER_SIZE + r ==> s[i] == s[o + i - HEADER_SIZE])
    && forall i :: q <= i < q + zs && HEADER_SIZE + r <= i < HEADER_SIZE + r + z ==> s[i] == s[b + i - HEADER_SIZE - r]
  }

  // A map that fits in front of the structure clobbers nothing.
  // _fdt_rw_check_header looks at its first entry only.
  lemma MapBeforeStruct(s: bytes)
    requires Ordered(s) && Reserved(s).Some? && HEADER_SIZE + RsvSize(s) <= Hdr(s, OFF_STRUCT)
    ensures Unclobbered(s) && PackRoom(s)
  {
    hide Be32, RsvList, CheckHeader;
  }

  ghost function Delivered(s: bytes): (b: (bytes, bytes, bytes))
    requires Ordered(s) && PackRoom(s)
    ensures |b.0| == RsvSize(s) && |b.1| == Hdr(s, SIZE_STRUCT) && |b.2| == Hdr(s, SIZE_STRINGS)
  {
    DeliveredFits(s);
    Moved(s, 0, 0, RsvSize(s), Hdr(s, SIZE_STRUCT))
  }

  lemma DeliveredFits(s: bytes)
    requires Ordered(s) && PackRoom(s)
    ensures MoveFits(s, 0, 0, RsvSize(s), Hdr(s, SIZE_STRUCT))
    ensures Packable(s, 0, |s|, 0, RsvSize(s), Hdr(s, SIZE_STRUCT))
    ensures WordsAt(s, 0).zstrings == Hdr(s, SIZE_STRINGS)
  {
    hide Be32, CheckHeader, RsvList;
    WholeBuffer(s);
    BlobWords(s, 0, |s|);
  }

  // x stored at d is what the n bytes at b have there already.
  predicate Agrees(s: bytes, d: nat, x: bytes, b: nat, n: nat)
    requires d + |x| <= |s| && b + n <= |s|
  {
    forall i :: b <= i < b + n && d <= i < d + |x| ==> s[i] == x[i - d]
  }

  // A slice survives a store exactly when what is stored over it is the same.
  lemma SliceOverPut(s: bytes, d: nat, x: bytes, b: nat, n: nat)
    requires d + |x| <= |s| && b + n <= |s|
    ensures Put(s, d, x)[b..b + n] == s[b..b + n] <==> Agrees(s, d, x, b, n)
  {
    var t := Put(s, d, x);
    forall i | 0 <= i < |s| ensures t[i] == if d <= i < d + |x| then x[i - d] else s[i] {
    }
    if t[b..b + n] == s[b..b + n] {
      forall i | b <= i < b + n && d <= i < d + |x| ensures s[i] == x[i - d] {
        assert t[b..b + n][i - b] == s[b..b + n][i - b];
      }
    }
  }

  lemma PutTwice(s: bytes, d: nat, x: bytes, y: bytes)
    requires d + |x| + |y| <= |s|
    ensures Put(Put(s, d, x), d + |x|, y) == Put(s, d, x + y)
  {
  }

  lemma DeliveredParts(s: bytes)
    requires Ordered(s) && PackRoom(s)
    ensures var (o, b, q) := (Hdr(s, OFF_RSVMAP), Hdr(s, OFF_STRUCT), Hdr(s, OFF_STRINGS));
            var (r, z, zs) := (RsvSize(s), Hdr(s, SIZE_STRUCT), Hdr(s, SIZE_STRINGS));
            && o + r <= |s| && b + z <= |s| && q + zs <= |s| && PackSize(s) <= |s|
            && StructBlock(s) == s[b..b + z] && StringBlock(s) == s[q..q + zs]
            && Delivered(s).0 == s[o..o + r]
            && Delivered(s).1 == Put(s, HEADER_SIZE, Delivered(s).0)[b..b + z]
            && Delivered(s).2 == Put(Put(s, HEADER_SIZE, Delivered(s).0), HEADER_SIZE + r, Delivered(s).1)[q..q + zs]
  {
    hide Be32, RsvList, CheckHeader, Field, Put;
    DeliveredFits(s);
    WholeBuffer(s);
    BlobWords(s, 0, |s|);
  }

  // Structure and strings arrive as they were exactly when nothing of them is
  // overwritten by anything else first.
  lemma DeliveredMeans(s: bytes)
    requires Ordered(s) && PackRoom(s)
    ensures Delivered(s).0 == s[Hdr(s, OFF_RSVMAP)..Hdr(s, OFF_RSVMAP) + RsvSize(s)]
    ensures Delivered(s).1 == StructBlock(s) && Delivered(s).2 == StringBlock(s) <==> Unclobbered(s)
  {
    hide Be32, RsvList, CheckHeader, Put, Delivered, StructBlock, StringBlock, MapOverStruct, MapOverStrings;
    DeliveredParts(s);
    RsvInside(s, Hdr(s, OFF_RSVMAP));
    var (o, b, q) := (Hdr(s, OFF_RSVMAP), Hdr(s, OFF_STRUCT), Hdr(s, OFF_STRINGS));
    var (r, z, zs) := (RsvSize(s), Hdr(s, SIZE_STRUCT), Hdr(s, SIZE_STRINGS));
    var y := Delivered(s).1;
    StructUnder(s, o, r, b, z);
    if y == StructBlock(s) {
      StringsUnder(s, o, r, b, z, q, zs);
    }
  }

  lemma StructAgrees(s: bytes, o: nat, b: nat, r: nat, z: nat, x: bytes)
    requires o + r <= |s| && HEADER_SIZE + r <= |s| && b + z <= |s| && HEADER_SIZE <= b && x == s[o..o + r]
    ensures Agrees(s, HEADER_SIZE, x, b, z) <==> MapOverStruct(s, o, r, b, z)
  {
  }

  lemma StringsAgree(s: bytes, o: nat, b: nat, q: nat, r: nat, z: nat, zs: nat, x: bytes, y: bytes)
    requires o + r <= |s| && HEADER_SIZE + r + z <= |s| && b + z <= |s| && q + zs <= |s| && HEADER_SIZE <= q
    requires x == s[o..o + r] && y == s[b..b + z]
    ensures Agrees(s, HEADER_SIZE, x + y, q, zs) <==> MapOverStrings(s, o, r, b, z, q, zs)
  {
  }

  lemma StructUnder(s: bytes, o: nat, r: nat, b: nat, z: nat)
    requires o + r <= |s| && HEADER_SIZE + r <= |s| && HEADER_SIZE <= b && b + z <= |s|
    ensures Put(s, HEADER_SIZE, s[o..o + r])[b..b + z] == s[b..b + z] <==> MapOverStruct(s, o, r, b, z)
  {
    hide Put, Agrees, MapOverStruct, MapOverStrings;
    SliceOverPut(s, HEADER_SIZE, s[o..o + r], b, z);
    StructAgrees(s, o, b, r, z, s[o..o + r]);
  }

  lemma StringsUnder(s: bytes, o: nat, r: nat, b: nat, z: nat, q: nat, zs: nat)
    requires o + r <= |s| && HEADER_SIZE + r + z <= |s| && b + z <= |s| && HEADER_SIZE <= q && q + zs <= |s|
    ensures var (x, y) := (s[o..o + r], s[b..b + z]);
            Put(Put(s, HEADER_SIZE, x), HEADER_SIZE + r, y)[q..q + zs] == s[q..q + zs] <==>
              MapOverStrings(s, o, r, b, z, q, zs)
  {
    hide Put, Agrees, MapOverStruct, MapOverStrings;
    var (x, y) := (s[o..o + r], s[b..b + z]);
    PutTwice(s, HEADER_SIZE, x, y);
    SliceOverPut(s, HEADER_SIZE, x + y, q, zs);
    StringsAgree(s, o, b, q, r, z, zs, x, y);
  }

  lemma CheckedReserve(s: bytes, s1: bytes)
    requires Ordered(s) && Reserved(s).Some? && SameBlocks(s, s1) && s1[HEADER_SIZE..] == s[HEADER_SIZE..]
    requires Ordered(s1)
    ensures Reserved(s1) == Reserved(s)
    ensures forall t :: Denotes(s, t) ==> Denotes(s1, t)
  {
    hide Be32, RsvList, CheckHeader;
    var o := Hdr(s, OFF_RSVMAP);
    RsvInside(s, o);
    SlicePastHeader(s, s1, o, o + RsvSize(s));
    RsvListMoves(s, o, s1, o);
    SameBlocksSameTree(s, s1);
  }

  // The version field, all that the check may change, moves no byte of a block.
  lemma CheckedDelivery(s: bytes, s1: bytes)
    requires Ordered(s) && PackRoom(s) && SameBlocks(s, s1) && s1[HEADER_SIZE..] == s[HEADER_SIZE..]
    requires Ordered(s1) && Reserved(s1) == Reserved(s)
    ensures PackRoom(s1) && Delivered(s1) == Delivered(s)
  {
    hide Be32, RsvList, CheckHeader, Delivered, Put, StructBlock, StringBlock;
    DeliveredParts(s);
    DeliveredParts(s1);
    var (o, b, q) := (Hdr(s, OFF_RSVMAP), Hdr(s, OFF_STRUCT), Hdr(s, OFF_STRINGS));
    var (r, z, zs) := (RsvSize(s), Hdr(s, SIZE_STRUCT), Hdr(s, SIZE_STRINGS));
    SlicePastHeader(s, s1, o, o + r);
    var x := s[o..o + r];
    PutPastHeader(s, s1, HEADER_SIZE, x);
    var (m, m1) := (Put(s, HEADER_SIZE, x), Put(s1, HEADER_SIZE, x));
    SlicePastHeader(m, m1, b, b + z);
    var y := m[b..b + z];
    PutPastHeader(m, m1, HEADER_SIZE + r, y);
    SlicePastHeader(Put(m, HEADER_SIZE + r, y), Put(m1, HEADER_SIZE + r, y), q, q + zs);
  }

  lemma PutPastHeader(s: bytes, s1: bytes, d: nat, b: bytes)
    requires HEADER_SIZE <= |s| == |s1| && s1[HEADER_SIZE..] == s[HEADER_SIZE..]
    requires HEADER_SIZE <= d && d + |b| <= |s|
    ensures Put(s1, d, b)[HEADER_SIZE..] == Put(s, d, b)[HEADER_SIZE..]
  {
    forall i | HEADER_SIZE <= i < |s| ensures Put(s1, d, b)[i] == Put(s, d, b)[i] {
      assert s1[i] == s1[HEADER_SIZE..][i - HEADER_SIZE] && s[i] == s[HEADER_SIZE..][i - HEADER_SIZE];
    }
  }

  lemma WholeBuffer(m: bytes)
    ensures At(m, 0, |m|) == m
  {
  }

  // fdt_pack.  It packs the blocks as the three moves deliver them; that is the
  // same blob exactly when no move destroys what a later one needs.
  method Pack(a: array<byte>) returns (err: int)
    requires Buffer(a[..])
    requires RwCheck(a[..]) == 0 ==> Ordered(a[..]) && PackRoom(a[..])
    modifies a
    ensures err == RwCheck(old(a[..]))
    ensures err != 0 ==> a[..] == old(a[..])
    ensures err == 0 ==>
              && Ordered(a[..]) && Reserved(a[..]) == Reserved(old(a[..]))
              && (StructBlock(a[..]), StringBlock(a[..])) == (Delivered(old(a[..])).1, Delivered(old(a[..])).2)
              && (Unclobbered(old(a[..])) <==>
                    StructBlock(a[..]) == StructBlock(old(a[..])) && StringBlock(a[..]) == StringBlock(old(a[..])))
              && Hdr(a[..], TOTALSIZE) == DataSize(a[..]) == PackSize(old(a[..]))
              && KeepsApart(old(a[..]), a[..], 0, PackSize(old(a[..])))
    ensures err == 0 && Unclobbered(old(a[..])) ==> SameContents(old(a[..]), a[..])
  {
    hide Be32, Put, Field, Packable, Packed, WordsAt, RsvList, Misordered, CheckHeader, KeepsApart, Unclobbered, Moved;
    hide Delivered, MoveFits;
    ghost var s := a[..];
    err := RwCheckHeader(a);
    if err != 0 {
      return;
    }
    ghost var s1 := a[..];
    CheckedReserve(s, s1);
    CheckedDelivery(s, s1);
    DeliveredMeans(s);
    DeliveredFits(s1);
    var n := NumMemRsv(a[..]);
    var (r, z) := ((n + 1) * RSV_ENTRY, Hdr(a[..], SIZE_STRUCT));
    PackBlocks(a, 0, 0, r, z, |s1|);
    ghost var s2 := a[..];
    DeliveredIs(s1);
    PackedWords(s1, s2);
    var total := DataSize(a[..]);
    SetField(a, 0, TOTALSIZE, total);
    PackDone(s, s1, s2, a[..]);
  }

  lemma DeliveredIs(s: bytes)
    requires Ordered(s) && PackRoom(s)
    ensures MoveFits(s, 0, 0, RsvSize(s), Hdr(s, SIZE_STRUCT))
    ensures Delivered(s) == Moved(s, 0, 0, RsvSize(s), Hdr(s, SIZE_STRUCT))
  {
    hide Be32, RsvList, CheckHeader, Field, Moved;
    DeliveredFits(s);
  }

  lemma PackedWords(m: bytes, m': bytes)
    requires Ordered(m) && PackRoom(m)
    requires var b := Delivered(m); Packed(m, m', 0, b.0, b.1, b.2)
    ensures |m'| == |m| && DataSize(m') == PackSize(m)
    ensures HEADER_SIZE <= |m'|
  {
    hide Be32, CheckHeader, RsvList, Field, Delivered;
    WholeBuffer(m);
    WholeBuffer(m');
    BlobWords(m', 0, |m|);
    BlobWords(m, 0, |m|);
  }

  lemma PackDone(s: bytes, m: bytes, m': bytes, m2: bytes)
    requires Ordered(s) && PackRoom(s)
    requires Ordered(m) && PackRoom(m) && Hdr(m, VERSION) == 17
    requires SameBlocks(s, m) && m[HEADER_SIZE..] == s[HEADER_SIZE..]
    requires Reserved(m) == Reserved(s) && Delivered(m) == Delivered(s)
    requires var b := Delivered(m); Packed(m, m', 0, b.0, b.1, b.2)
    requires KeepsApart(m', m2, 0, HEADER_SIZE)
    requires WordsAt(m2, 0) == WithWord(WordsAt(m', 0), TOTALSIZE, PackSize(m))
    ensures |m2| == |s| && Ordered(m2) && Reserved(m2) == Reserved(s)
    ensures (StructBlock(m2), StringBlock(m2)) == (Delivered(s).1, Delivered(s).2)
    ensures Hdr(m2, TOTALSIZE) == DataSize(m2) == PackSize(s)
    ensures KeepsApart(s, m2, 0, PackSize(s))
    ensures Delivered(s).1 == StructBlock(s) && Delivered(s).2 == StringBlock(s) ==> SameContents(s, m2)
  {
    hide Be32, RsvList, Field, Delivered, WordsAt, Packed, KeepsApart, CheckHeader, Ordered, StructBlock, StringBlock;
    var (x, y, w) := Delivered(m);
    DeliveredMeans(s);
    FinalBlob(m, m', m2, x, y, w);
    RsvInside(s, Hdr(s, OFF_RSVMAP));
    RsvListMoves(s, Hdr(s, OFF_RSVMAP), m2, HEADER_SIZE);
    PackedApart(m, m', x, y, w);
    OutsidePacked(s, m, m', m2, PackSize(s));
    if y == StructBlock(s) && w == StringBlock(s) {
      SameBlocksSameTree(s, m2);
    }
  }

  lemma PackedApart(m: bytes, m': bytes, x: bytes, y: bytes, w: bytes)
    requires Packed(m, m', 0, x, y, w)
    ensures KeepsApart(m, m', 0, HEADER_SIZE + |x| + |y| + |w|)
  {
    hide WordsAt, KeepsApart;
  }

  // The packed blocks with the header finished are a blob.
  lemma FinalBlob(m: bytes, m': bytes, m2: bytes, x: bytes, y: bytes, w: bytes)
    requires Ordered(m) && Hdr(m, VERSION) == 17 && |x| >= RSV_ENTRY
    requires Packed(m, m', 0, x, y, w) && KeepsApart(m', m2, 0, HEADER_SIZE)
    requires WordsAt(m2, 0) == WithWord(WordsAt(m', 0), TOTALSIZE, HEADER_SIZE + |x| + |y| + |w|)
    ensures |m2| == |m| && Ordered(m2) && Readable(m2) && Hdr(m2, OFF_RSVMAP) == HEADER_SIZE
    ensures HEADER_SIZE + |x| <= |m2| && m2[HEADER_SIZE..HEADER_SIZE + |x|] == x
    ensures StructBlock(m2) == y && StringBlock(m2) == w
    ensures Hdr(m2, TOTALSIZE) == DataSize(m2) == HEADER_SIZE + |x| + |y| + |w|
  {
    hide Be32, Field;
    WholeBuffer(m);
    WholeBuffer(m2);
    BlobWords(m, 0, |m|);
    PackedBlocks(m2, 0, |m|, x, y, w);
  }

  lemma OutsidePacked(s: bytes, m: bytes, m': bytes, m2: bytes, n: nat)
    requires HEADER_SIZE <= |s| == |m| && m[HEADER_SIZE..] == s[HEADER_SIZE..] && HEADER_SIZE <= n
    requires KeepsApart(m, m', 0, n) && KeepsApart(m', m2, 0, HEADER_SIZE)
    ensures KeepsApart(s, m2, 0, n)
  {
    forall i: nat, j: nat | i <= j <= |s| && (j <= 0 || 0 + n <= i) ensures m2[i..j] == s[i..j] {
      if n <= i {
        assert m2[i..j] == m'[i..j];
        assert m'[i..j] == m[i..j];
        SlicePastHeader(s, m, i, j);
      }
    }
  }
}
