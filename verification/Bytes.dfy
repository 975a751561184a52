// Byte strings, big- and little-endian words, and overwriting a range in place.
module ByteStrings {
  type byte = x: int | 0 <= x < 256
  type bytes = seq<byte>

  const WORD: nat := 0x1_0000_0000

  // The big-endian 32-bit word at o: the byte order of every device tree cell.
  function Be32(s: bytes, o: nat): (r: nat)
    requires o + 4 <= |s|
    ensures r < WORD
  {
    Word(s[o], s[o + 1], s[o + 2], s[o + 3])
  }

  function Word(b3: byte, b2: byte, b1: byte, b0: byte): (r: nat)
    ensures r < WORD
  {
    var (h3: int, h2: int, h1: int, h0: int) := (b3, b2, b1, b0);
    ((h3 * 256 + h2) * 256 + h1) * 256 + h0
  }

  function Enc32(v: nat): (r: bytes)
    requires v < WORD
    ensures |r| == 4 && Be32(r, 0) == v
  {
    var q1 := v / 256;
    var q2 := q1 / 256;
    [q2 / 256, q2 % 256, q1 % 256, v % 256]
  }

  // A word is fixed by its four bytes, wherever they lie.
  lemma Be32OfSlice(s: bytes, o: nat, t: bytes, p: nat)
    requires o + 4 <= |s| && p + 4 <= |t|
    requires s[o..o + 4] == t[p..p + 4]
    ensures Be32(s, o) == Be32(t, p)
  {
    assert s[o] == s[o..o + 4][0] && s[o + 1] == s[o..o + 4][1];
    assert s[o + 2] == s[o..o + 4][2] && s[o + 3] == s[o..o + 4][3];
    assert t[p] == t[p..p + 4][0] && t[p + 1] == t[p..p + 4][1];
    assert t[p + 2] == t[p..p + 4][2] && t[p + 3] == t[p..p + 4][3];
  }

  // The big-endian 64-bit word at o.
  function Be64(s: bytes, o: nat): nat
    requires o + 8 <= |s|
  {
    Be32(s, o) * WORD + Be32(s, o + 4)
  }

  function Enc64(v: nat): (r: bytes)
    requires v < WORD * WORD
    ensures |r| == 8 && Be64(r, 0) == v
  {
    Join64(Enc32(v / WORD), Enc32(v % WORD));
    Enc32(v / WORD) + Enc32(v % WORD)
  }

  lemma Join64(a: bytes, b: bytes)
    requires |a| == 4 && |b| == 4
    ensures Be64(a + b, 0) == Be32(a, 0) * WORD + Be32(b, 0)
  {
    assert (a + b)[0..4] == a[0..4] && (a + b)[4..8] == b[0..4];
    Be32OfSlice(a + b, 0, a, 0);
    Be32OfSlice(a + b, 4, b, 0);
  }

  lemma Be64OfSlice(s: bytes, o: nat, t: bytes, p: nat)
    requires o + 8 <= |s| && p + 8 <= |t|
    requires s[o..o + 8] == t[p..p + 8]
    ensures Be64(s, o) == Be64(t, p)
  {
    hide Word;
    SliceOfSlice(s, o, o + 8, 0, 4);
    SliceOfSlice(t, p, p + 8, 0, 4);
    SliceOfSlice(s, o, o + 8, 4, 8);
    SliceOfSlice(t, p, p + 8, 4, 8);
    Be32OfSlice(s, o, t, p);
    Be32OfSlice(s, o + 4, t, p + 4);
  }

  ghost predicate LiesAt(s: bytes, o: nat, b: bytes) {
    o + |b| <= |s| && s[o..o + |b|] == b
  }

  // s with the bytes from o on overwritten by b: what memcpy and memmove leave behind.
  function Put(s: bytes, o: nat, b: bytes): (r: bytes)
    requires o + |b| <= |s|
    ensures |r| == |s|
  {
    s[..o] + b + s[o + |b|..]
  }

  lemma PutSame(s: bytes, o: nat, b: bytes)
    requires o + |b| <= |s|
    ensures Put(s, o, b)[o..o + |b|] == b
  {
  }

  lemma PutBefore(s: bytes, o: nat, b: bytes, i: nat, j: nat)
    requires o + |b| <= |s|
    requires i <= j <= o
    ensures Put(s, o, b)[i..j] == s[i..j]
  {
  }

  lemma PutAfter(s: bytes, o: nat, b: bytes, i: nat, j: nat)
    requires o + |b| <= |s|
    requires o + |b| <= i <= j <= |s|
    ensures Put(s, o, b)[i..j] == s[i..j]
  {
  }

  lemma SliceOfSlice(s: bytes, a: nat, b: nat, i: nat, j: nat)
    requires a <= b <= |s| && i <= j <= b - a
    ensures s[a..b][i..j] == s[a + i..a + j]
  {
    forall k | 0 <= k < j - i ensures s[a..b][i..j][k] == s[a + i..a + j][k] {
      assert s[a..b][i + k] == s[a + i + k];
    }
  }

  function Align4(n: nat): (r: nat)
    ensures r % 4 == 0 && n <= r < n + 4
    ensures n % 4 == 0 ==> r == n
  {
    (n + 3) / 4 * 4
  }

  // A C string's bytes: none of them is the terminator.
  predicate NoNul(s: bytes) {
    forall i :: 0 <= i < |s| ==> s[i] != 0
  }

  // The C string at o, if its terminator is found before the end of s.
  function StrAt(s: bytes, o: nat): (r: Option<bytes>)
    ensures r.Some? ==> NoNul(r.value) && o + |r.value| < |s|
                        && s[o..o + |r.value|] == r.value && s[o + |r.value|] == 0
    decreases |s| - o
  {
    if o >= |s| then None
    else if s[o] == 0 then Some([])
    else
      match StrAt(s, o + 1)
      case None => None
      case Some(t) =>
        assert s[o..o + 1 + |t|] == [s[o]] + s[o + 1..o + 1 + |t|];
        Some([s[o]] + t)
  }

  lemma {:induction false} StrAtUnique(s: bytes, o: nat, t: bytes)
    requires o + |t| < |s| && s[o..o + |t|] == t && s[o + |t|] == 0 && NoNul(t)
    ensures StrAt(s, o) == Some(t)
    decreases |t|
  {
    if t == [] {
    } else {
      assert s[o] == s[o..o + |t|][0] == t[0];
      assert s[o + 1..o + 1 + |t[1..]|] == s[o..o + |t|][1..] == t[1..];
      StrAtUnique(s, o + 1, t[1..]);
      assert t == [t[0]] + t[1..];
    }
  }

  // Growing the table leaves every string already in it readable.
  lemma StrAtPrefix(s: bytes, o: nat, more: bytes)
    requires StrAt(s, o).Some?
    ensures StrAt(s + more, o) == StrAt(s, o)
  {
    var t := StrAt(s, o).value;
    assert (s + more)[o..o + |t|] == s[o..o + |t|];
    StrAtUnique(s + more, o, t);
  }

  lemma StrAtSuffix(more: bytes, s: bytes, o: nat)
    requires StrAt(s, o).Some?
    ensures StrAt(more + s, |more| + o) == StrAt(s, o)
  {
    var t := StrAt(s, o).value;
    assert (more + s)[|more| + o..|more| + o + |t|] == s[o..o + |t|];
    StrAtUnique(more + s, |more| + o, t);
  }

  datatype Option<+T> = None | Some(value: T)

  lemma CancelLeft<T>(a: seq<T>, b: seq<T>, c: seq<T>)
    requires a + b == a + c
    ensures b == c
  {
    assert (a + b)[|a|..] == b && (a + c)[|a|..] == c;
  }

  lemma Cat3<T>(a: seq<T>, b: seq<T>, c: seq<T>)
    ensures a + b + c == a + (b + c)
  {
  }

  lemma Cat4<T>(a: seq<T>, b: seq<T>, c: seq<T>, d: seq<T>)
    ensures a + b + c + d == a + b + (c + d) == a + (b + c + d)
  {
  }

  lemma TwoPrefixes<T>(a: seq<T>, b: seq<T>, c: seq<T>, d: seq<T>)
    requires a + b == c + d
    ensures |c| < |a| ==> c == a[..|c|]
    ensures |c| >= |a| ==> c[..|a|] == a
  {
    var whole := a + b;
    assert whole[..|a|] == a && whole[..|c|] == c;
  }
}
