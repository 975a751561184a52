// fdt_open_into: a blob into a buffer of the same memory, which may overlap it.
module FdtOpen {
  import opened ByteStrings
  import opened Memory
  import opened FdtFormat
  import opened FdtBlob
  import opened FdtSplice
  import opened FdtPack

  // The blob at fdt, as long as its header says.
  function BlobAt(m: bytes, fdt: nat): bytes
    requires fdt + HEADER_SIZE <= |m| && fdt + Field(m, fdt, TOTALSIZE) <= |m|
  {
    At(m, fdt, Field(m, fdt, TOTALSIZE))
  }

  // A whole version 17 blob with a terminated reserve map inside it.
  ghost predicate Complete(m: bytes, fdt: nat) {
    && fdt + HEADER_SIZE <= |m| && HEADER_SIZE <= Field(m, fdt, TOTALSIZE)
    && fdt + Field(m, fdt, TOTALSIZE) <= |m| < INT_LIMIT
    && Readable(BlobAt(m, fdt)) && Reserved(BlobAt(m, fdt)).Some?
  }

  ghost predicate Openable(m: bytes, fdt: nat, buf: nat, bufsize: nat) {
    && fdt + HEADER_SIZE <= |m| < INT_LIMIT && buf + bufsize <= |m|
    && (CheckHeader(At(m, fdt, HEADER_SIZE)) == 0 ==> Complete(m, fdt))
  }

  // The verdict on space: a blob in order is copied whole; any other is packed
  // into the buffer, or right behind itself when the buffer's start overlaps it.
  ghost function OpenResult(s: bytes, fdt: nat, buf: nat, bufsize: nat): int
    requires InBounds(s) && Reserved(s).Some?
  {
    var (r, z) := (RsvSize(s), Hdr(s, SIZE_STRUCT));
    var newsize := HEADER_SIZE + r + z + Hdr(s, SIZE_STRINGS);
    if !Misordered(s, r, z) then (if |s| > bufsize then NOSPACE else 0)
    else if bufsize < newsize then NOSPACE
    else if buf + newsize > fdt && buf < fdt + |s| && fdt + |s| + newsize > buf + bufsize then NOSPACE
    else 0
  }

  lemma CopiedWords(m: bytes, m': bytes, src: nat, dst: nat, n: nat)
    requires |m'| == |m| && src + n <= |m| && dst + n <= |m| && n >= HEADER_SIZE
    requires m'[dst..dst + n] == m[src..src + n]
    ensures WordsAt(m', dst) == WordsAt(m, src)
  {
    hide Field, Be32;
    BlobWords(m, src, n);
    BlobWords(m', dst, n);
    assert At(m', dst, n) == At(m, src, n);
  }

  lemma CopiedSlice(m: bytes, m': bytes, src: nat, dst: nat, n: nat, i: nat, b: bytes)
    requires |m'| == |m| && src + n <= |m| && dst + n <= |m| && i + |b| <= n
    requires m'[dst..dst + n] == m[src..src + n]
    requires LiesAt(m, src + i, b)
    ensures LiesAt(m', dst + i, b)
  {
    SliceOfSlice(m, src, src + n, i, i + |b|);
    SliceOfSlice(m', dst, dst + n, i, i + |b|);
  }

  // The blocks of a blob that is copied whole, in order and inside it.
  lemma CopyInOrder(s: bytes)
    requires Readable(s) && Reserved(s).Some?
    requires !Misordered(s, RsvSize(s), Hdr(s, SIZE_STRUCT)) && Hdr(s, TOTALSIZE) < INT_LIMIT
    ensures InOrder(s, RsvSize(s), Hdr(s, SIZE_STRUCT))
  {
    hide Misordered, CheckHeader, Hdr, RsvList;
    MisorderedMeans(s, RsvSize(s), Hdr(s, SIZE_STRUCT));
  }

  // The header of the copy: as it was but for version and total size.
  ghost predicate Reheaded(s: bytes, d: bytes)
    requires HEADER_SIZE <= |s|
  {
    && HEADER_SIZE <= |d|
    && Hdr(d, MAGIC) == Hdr(s, MAGIC) && Hdr(d, VERSION) == 17 && Hdr(d, LAST_COMP) == Hdr(s, LAST_COMP)
    && Hdr(d, OFF_RSVMAP) == Hdr(s, OFF_RSVMAP)
    && Hdr(d, OFF_STRUCT) == Hdr(s, OFF_STRUCT) && Hdr(d, SIZE_STRUCT) == Hdr(s, SIZE_STRUCT)
    && Hdr(d, OFF_STRINGS) == Hdr(s, OFF_STRINGS) && Hdr(d, SIZE_STRINGS) == Hdr(s, SIZE_STRINGS)
    && Hdr(d, TOTALSIZE) == |d|
  }

  // Under such a header the three blocks of s are a blob of the same contents.
  lemma SameUnderHeader(s: bytes, d: bytes)
    requires Readable(s) && Reserved(s).Some? && InOrder(s, RsvSize(s), Hdr(s, SIZE_STRUCT))
    requires Hdr(s, TOTALSIZE) == |s| <= |d| < INT_LIMIT && Reheaded(s, d)
    requires forall i, j :: HEADER_SIZE <= i <= j <= |s| ==> d[i..j] == s[i..j]
    ensures SameContents(s, d)
  {
    hide Misordered, Hdr, RsvList, Denotes;
    RsvListMoves(s, Hdr(s, OFF_RSVMAP), d, Hdr(d, OFF_RSVMAP));
    SameBlocksSameTree(s, d);
  }

  // A blob in order, copied to buf, with a new total size.
  lemma CopiedBlob(m: bytes, m1: bytes, m2: bytes, fdt: nat, buf: nat, bufsize: nat)
    requires Complete(m, fdt) && |m2| == |m1| == |m| && buf + bufsize <= |m|
    requires var s := BlobAt(m, fdt);
             && !Misordered(s, RsvSize(s), Hdr(s, SIZE_STRUCT)) && |s| <= bufsize
             && m1[buf..buf + |s|] == s
    requires KeepsApart(m1, m2, buf, HEADER_SIZE)
    requires WordsAt(m2, buf) == WordsAt(m1, buf).(version := 17, zstruct := Hdr(BlobAt(m, fdt), SIZE_STRUCT),
                                                   total := bufsize)
    ensures SameContents(BlobAt(m, fdt), At(m2, buf, bufsize))
    ensures Hdr(At(m2, buf, bufsize), TOTALSIZE) == bufsize
  {
    hide Field, RsvList, KeepsApart, Misordered, CheckHeader, Hdr, WordsAt;
    var s := BlobAt(m, fdt);
    var d := At(m2, buf, bufsize);
    TotalIs(m, fdt);
    BlobWords(m2, buf, bufsize);
    BlobWords(m1, buf, |s|);
    CopyInOrder(s);
    forall i, j | HEADER_SIZE <= i <= j <= |s| ensures d[i..j] == s[i..j] {
      InCopy(m1, m2, s, buf, bufsize, i, j);
    }
    SameUnderHeader(s, d);
  }

  lemma TotalIs(m: bytes, fdt: nat)
    requires Complete(m, fdt)
    ensures Hdr(BlobAt(m, fdt), TOTALSIZE) == |BlobAt(m, fdt)|
  {
    hide Hdr, Field, Readable;
    FieldIs(m, fdt, Field(m, fdt, TOTALSIZE), TOTALSIZE);
  }

  lemma InCopy(m1: bytes, m2: bytes, s: bytes, buf: nat, bufsize: nat, i: nat, j: nat)
    requires |m2| == |m1| && buf + bufsize <= |m1| && |s| <= bufsize && HEADER_SIZE <= i <= j <= |s|
    requires m1[buf..buf + |s|] == s && KeepsApart(m1, m2, buf, HEADER_SIZE)
    ensures At(m2, buf, bufsize)[i..j] == s[i..j]
  {
    KeptApart(m1, m2, buf, HEADER_SIZE, buf + i, buf + j);
    SliceOfSlice(m1, buf, buf + |s|, i, j);
    SliceOfSlice(m2, buf, buf + bufsize, i, j);
  }

  // The packed copy at tmp, moved to buf and given its header.
  lemma MovedBlob(m: bytes, m1: bytes, m2: bytes, m3: bytes, fdt: nat, tmp: nat, buf: nat, bufsize: nat)
    requires Complete(m, fdt) && buf + bufsize <= |m|
    requires var s := BlobAt(m, fdt);
             var n := HEADER_SIZE + RsvSize(s) + Hdr(s, SIZE_STRUCT) + Hdr(s, SIZE_STRINGS);
             && Packed(m, m1, tmp, s[Hdr(s, OFF_RSVMAP)..Hdr(s, OFF_RSVMAP) + RsvSize(s)],
                       StructBlock(s), StringBlock(s))
             && n <= bufsize && |m2| == |m1| && m2[buf..buf + n] == m1[tmp..tmp + n]
    requires KeepsApart(m2, m3, buf, HEADER_SIZE)
    requires WordsAt(m3, buf) == WordsAt(m2, buf).(magic := FDT_MAGIC, total := bufsize, version := 17, lastcomp := 16)
    ensures SameContents(BlobAt(m, fdt), At(m3, buf, bufsize))
    ensures Hdr(At(m3, buf, bufsize), TOTALSIZE) == bufsize
  {
    hide Be32, Field, RsvList, KeepsApart, WordsAt, Packed, LiesAt, At, CheckHeader;
    var s := BlobAt(m, fdt);
    var (x, y, w) := (s[Hdr(s, OFF_RSVMAP)..Hdr(s, OFF_RSVMAP) + RsvSize(s)], StructBlock(s), StringBlock(s));
    var (r, z) := (RsvSize(s), Hdr(s, SIZE_STRUCT));
    PackedHolds(m, m1, tmp, x, y, w);
    MovedPart(m1, m2, m3, tmp, buf, HEADER_SIZE + r + z + |w|, HEADER_SIZE, x);
    MovedPart(m1, m2, m3, tmp, buf, HEADER_SIZE + r + z + |w|, HEADER_SIZE + r, y);
    MovedPart(m1, m2, m3, tmp, buf, HEADER_SIZE + r + z + |w|, HEADER_SIZE + r + z, w);
    CopiedWords(m1, m2, tmp, buf, HEADER_SIZE + r + z + |w|);
    PackedBlob(m3, buf, bufsize, s);
    BlobWords(m3, buf, bufsize);
  }

  lemma PackedHolds(m: bytes, m1: bytes, tmp: nat, x: bytes, y: bytes, w: bytes)
    requires Packed(m, m1, tmp, x, y, w)
    ensures |m1| == |m| && tmp + HEADER_SIZE + |x| + |y| + |w| <= |m|
    ensures LiesAt(m1, tmp + HEADER_SIZE, x)
    ensures LiesAt(m1, tmp + HEADER_SIZE + |x|, y)
    ensures LiesAt(m1, tmp + HEADER_SIZE + |x| + |y|, w)
    ensures var h := WordsAt(m1, tmp);
            && h.rsv == HEADER_SIZE && h.struct_ == HEADER_SIZE + |x| && h.zstruct == |y|
            && h.strings == HEADER_SIZE + |x| + |y| && h.zstrings == |w|
  {
    hide WordsAt;
  }

  lemma MovedPart(m1: bytes, m2: bytes, m3: bytes, tmp: nat, buf: nat, n: nat, i: nat, b: bytes)
    requires |m2| == |m1| && tmp + n <= |m1| && buf + n <= |m1| && HEADER_SIZE <= i && i + |b| <= n
    requires m2[buf..buf + n] == m1[tmp..tmp + n] && KeepsApart(m2, m3, buf, HEADER_SIZE)
    requires LiesAt(m1, tmp + i, b)
    ensures |m3| == |m2| && LiesAt(m3, buf + i, b)
  {
    hide KeepsApart;
    CopiedSlice(m1, m2, tmp, buf, n, i, b);
    KeptApart(m2, m3, buf, HEADER_SIZE, buf + i, buf + i + |b|);
  }

  method SetHeader(a: array<byte>, buf: nat, bufsize: nat, cpu: nat)
    requires buf + HEADER_SIZE <= a.Length && bufsize < WORD && cpu < WORD
    modifies a
    ensures KeepsApart(old(a[..]), a[..], buf, HEADER_SIZE)
    ensures WordsAt(a[..], buf)
            == WordsAt(old(a[..]), buf).(magic := FDT_MAGIC, total := bufsize, version := 17, lastcomp := 16)
  {
    hide WordsAt;
    SetField(a, buf, MAGIC, FDT_MAGIC);
    SetField(a, buf, TOTALSIZE, bufsize);
    SetField(a, buf, VERSION, 17);
    SetField(a, buf, LAST_COMP, 16);
    SetField(a, buf, BOOT_CPUID, cpu);
  }

  // The branch without reordering: fdt_move, then three header words.
  method CopyWhole(a: array<byte>, fdt: nat, buf: nat, bufsize: nat, z: nat) returns (err: int)
    requires Complete(a[..], fdt) && buf + bufsize <= a.Length
    requires var s := BlobAt(a[..], fdt); z == Hdr(s, SIZE_STRUCT) && !Misordered(s, RsvSize(s), z)
    modifies a
    ensures err == if |BlobAt(old(a[..]), fdt)| > bufsize then NOSPACE else 0
    ensures err != 0 ==> a[..] == old(a[..])
    ensures err == 0 ==>
              && SameContents(BlobAt(old(a[..]), fdt), At(a[..], buf, bufsize))
              && Hdr(At(a[..], buf, bufsize), TOTALSIZE) == bufsize
              && KeepsApart(old(a[..]), a[..], buf, bufsize)
  {
    hide Be32, Put, WordsAt, RsvList, CheckHeader, KeepsApart, Readable, Misordered, SameContents, Field;
    ghost var m := a[..];
    var total := Field(a[..], fdt, TOTALSIZE);
    if total > bufsize {
      return NOSPACE;
    }
    MemMove(a, buf, fdt, total);
    ghost var m1 := a[..];
    StoreKeeps(m, buf, m[fdt..fdt + total]);
    SetField(a, buf, VERSION, 17);
    ghost var m2 := a[..];
    SetField(a, buf, SIZE_STRUCT, z);
    ghost var m3 := a[..];
    SetField(a, buf, TOTALSIZE, bufsize);
    Keeps3(m1, m2, m3, a[..], buf, HEADER_SIZE);
    KeepsBoth(m, m1, a[..], buf, total, buf, HEADER_SIZE, buf, bufsize);
    CopiedBlob(m, m1, a[..], fdt, buf, bufsize);
    err := 0;
  }

  lemma Keeps3(m: bytes, m1: bytes, m2: bytes, m3: bytes, o: nat, n: nat)
    requires KeepsApart(m, m1, o, n) && KeepsApart(m1, m2, o, n) && KeepsApart(m2, m3, o, n)
    ensures KeepsApart(m, m3, o, n)
  {
    forall i: nat, j: nat | i <= j <= |m| && (j <= o || o + n <= i) ensures m3[i..j] == m[i..j] {
      assert m1[i..j] == m[i..j];
      assert m2[i..j] == m[i..j];
    }
  }

  lemma KeepsBoth(m: bytes, m1: bytes, m2: bytes, o1: nat, n1: nat, o2: nat, n2: nat, o: nat, n: nat)
    requires KeepsApart(m, m1, o1, n1) && KeepsApart(m1, m2, o2, n2)
    requires o <= o1 && o1 + n1 <= o + n && o <= o2 && o2 + n2 <= o + n
    ensures KeepsApart(m, m2, o, n)
  {
    forall i: nat, j: nat | i <= j <= |m| && (j <= o || o + n <= i) ensures m2[i..j] == m[i..j] {
      assert m1[i..j] == m[i..j];
    }
  }

  // The reordering branch: packed at the buffer's start, or right behind the
  // old blob when the two overlap, then moved to the start.
  method CopyPacked(a: array<byte>, fdt: nat, buf: nat, bufsize: nat, r: nat, z: nat) returns (err: int)
    requires Complete(a[..], fdt) && buf + bufsize <= a.Length
    requires var s := BlobAt(a[..], fdt);
             r == RsvSize(s) && z == Hdr(s, SIZE_STRUCT) && Misordered(s, r, z)
    modifies a
    ensures err == OpenResult(BlobAt(old(a[..]), fdt), fdt, buf, bufsize)
    ensures err != 0 ==> a[..] == old(a[..])
    ensures err == 0 ==>
              && SameContents(BlobAt(old(a[..]), fdt), At(a[..], buf, bufsize))
              && Hdr(At(a[..], buf, bufsize), TOTALSIZE) == bufsize
              && KeepsApart(old(a[..]), a[..], buf, bufsize)
  {
    hide Be32, Put, RsvList, CheckHeader, KeepsApart, Misordered, SameContents, Field;
    var fdtend := fdt + Field(a[..], fdt, TOTALSIZE);
    var newsize := HEADER_SIZE + r + z + Hdr(BlobAt(a[..], fdt), SIZE_STRINGS);
    if bufsize < newsize {
      return NOSPACE;
    }
    var tmp := buf;
    if tmp + newsize > fdt && tmp < fdtend {
      tmp := fdtend;
      if tmp + newsize > buf + bufsize {
        return NOSPACE;
      }
    }
    PackAndMove(a, fdt, tmp, buf, bufsize, r, z, newsize);
    err := 0;
  }

  // The blocks packed at tmp, apart from the old blob, and moved to the buffer.
  method PackAndMove(a: array<byte>, fdt: nat, tmp: nat, buf: nat, bufsize: nat, r: nat, z: nat, newsize: nat)
    requires Complete(a[..], fdt) && buf + bufsize <= a.Length
    requires var s := BlobAt(a[..], fdt);
             && r == RsvSize(s) && z == Hdr(s, SIZE_STRUCT) && Misordered(s, r, z)
             && newsize == HEADER_SIZE + r + z + Hdr(s, SIZE_STRINGS) <= bufsize
             && buf <= tmp && tmp + newsize <= buf + bufsize
             && (tmp + newsize <= fdt || fdt + |s| <= tmp)
    modifies a
    ensures SameContents(BlobAt(old(a[..]), fdt), At(a[..], buf, bufsize))
    ensures Hdr(At(a[..], buf, bufsize), TOTALSIZE) == bufsize
    ensures KeepsApart(old(a[..]), a[..], buf, bufsize)
  {
    hide Be32, Put, WordsAt, RsvList, CheckHeader, KeepsApart, Misordered, SameContents, Field, Packed;
    hide Packable, Hdr, StructBlock, StringBlock, WithWord;
    ghost var m := a[..];
    ghost var s := BlobAt(a[..], fdt);
    ApartPackable(m, fdt, tmp, r, z);
    PackApart(a, fdt, tmp, r, z, |s|);
    ghost var m1 := a[..];
    PackedKeeps(m, m1, tmp, s[Hdr(s, OFF_RSVMAP)..Hdr(s, OFF_RSVMAP) + r], StructBlock(s), StringBlock(s), newsize);
    MemMove(a, buf, tmp, newsize);
    ghost var m2 := a[..];
    StoreKeeps(m1, buf, m1[tmp..tmp + newsize]);
    SetHeader(a, buf, bufsize, Field(a[..], fdt, BOOT_CPUID));
    KeepsBoth(m, m1, m2, tmp, newsize, buf, newsize, buf, bufsize);
    KeepsBoth(m, m2, a[..], buf, bufsize, buf, HEADER_SIZE, buf, bufsize);
    MovedBlob(m, m1, m2, a[..], fdt, tmp, buf, bufsize);
  }

  // _fdt_packblocks to a target apart from the old blob.
  method PackApart(a: array<byte>, old_: nat, new_: nat, r: nat, z: nat, ghost oldsize: nat)
    requires Packable(a[..], old_, oldsize, new_, r, z) && old_ != new_
    modifies a
    ensures var s := At(old(a[..]), old_, oldsize);
            Packed(old(a[..]), a[..], new_,
                   s[Hdr(s, OFF_RSVMAP)..Hdr(s, OFF_RSVMAP) + r], StructBlock(s), StringBlock(s))
  {
    hide Packed, Moved, MoveFits, Be32, CheckHeader, Field;
    MovedApart(a[..], old_, oldsize, new_, r, z);
    PackBlocks(a, old_, new_, r, z, oldsize);
  }

  lemma ApartPackable(m: bytes, fdt: nat, tmp: nat, r: nat, z: nat)
    requires Complete(m, fdt)
    requires var s := BlobAt(m, fdt);
             && r == RsvSize(s) && z == Hdr(s, SIZE_STRUCT) && Misordered(s, r, z)
             && tmp + HEADER_SIZE + r + z + Hdr(s, SIZE_STRINGS) <= |m|
             && (tmp + HEADER_SIZE + r + z + Hdr(s, SIZE_STRINGS) <= fdt || fdt + |s| <= tmp)
    ensures Packable(m, fdt, |BlobAt(m, fdt)|, tmp, r, z)
  {
    hide Be32, Field, RsvList, CheckHeader, Misordered;
  }

  lemma PackedKeeps(m: bytes, m': bytes, tmp: nat, x: bytes, y: bytes, w: bytes, n: nat)
    requires Packed(m, m', tmp, x, y, w) && n == HEADER_SIZE + |x| + |y| + |w|
    ensures |m'| == |m| && tmp + n <= |m| && KeepsApart(m, m', tmp, n)
  {
    hide KeepsApart, WordsAt;
  }

  // fdt_open_into.
  method OpenInto(a: array<byte>, fdt: nat, buf: nat, bufsize: nat) returns (err: int)
    requires Openable(a[..], fdt, buf, bufsize)
    modifies a
    ensures err != 0 ==> a[..] == old(a[..])
    ensures CheckHeader(At(old(a[..]), fdt, HEADER_SIZE)) != 0 ==> err == CheckHeader(At(old(a[..]), fdt, HEADER_SIZE))
    ensures CheckHeader(At(old(a[..]), fdt, HEADER_SIZE)) == 0 ==>
              err == OpenResult(BlobAt(old(a[..]), fdt), fdt, buf, bufsize)
    ensures err == 0 ==>
              && SameContents(BlobAt(old(a[..]), fdt), At(a[..], buf, bufsize))
              && Hdr(At(a[..], buf, bufsize), TOTALSIZE) == bufsize
              && KeepsApart(old(a[..]), a[..], buf, bufsize)
  {
    hide Be32, Put, Field, RsvList, CheckHeader, KeepsApart, Readable, Misordered, SameContents;
    err := CheckHeader(At(a[..], fdt, HEADER_SIZE));
    if err != 0 {
      return;
    }
    var s := BlobAt(a[..], fdt);
    var n := NumMemRsv(s);
    var (r, z) := ((n + 1) * RSV_ENTRY, Hdr(s, SIZE_STRUCT));
    if !Misordered(s, r, z) {
      err := CopyWhole(a, fdt, buf, bufsize, z);
    } else {
      err := CopyPacked(a, fdt, buf, bufsize, r, z);
    }
  }
}
