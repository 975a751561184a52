// Stores into a byte buffer.
module Memory {
  import opened ByteStrings

  method StoreByte(a: array<byte>, i: nat, x: byte)
    requires i < a.Length
    modifies a
    ensures a[..] == old(a[..])[i := x]
  {
    a[i] := x;
  }

  lemma PutNothing(s: bytes, o: nat)
    requires o <= |s|
    ensures Put(s, o, []) == s
  {
  }

  // memmove of string.c: the copying direction keeps an overlapping source intact.
  method MemMove(a: array<byte>, dst: nat, src: nat, n: nat)
    requires dst + n <= a.Length && src + n <= a.Length
    modifies a
    ensures a[..] == Put(old(a[..]), dst, old(a[src..src + n]))
  {
    if dst <= src || dst >= src + n {
      CopyUp(a, dst, src, n);
    } else {
      CopyDown(a, dst, src, n);
    }
  }

  method CopyUp(a: array<byte>, dst: nat, src: nat, n: nat)
    requires dst + n <= a.Length && src + n <= a.Length
    requires dst <= src || dst >= src + n
    modifies a
    ensures a[..] == Put(old(a[..]), dst, old(a[src..src + n]))
  {
    hide Put;
    ghost var was := a[..];
    PutNothing(was, dst);
    var k := 0;
    assert was[src..src] == [];
    while k < n
      invariant 0 <= k <= n
      invariant a[..] == Put(was, dst, was[src..src + k])
    {
      PutRead(was, dst, was[src..src + k], src + k);
      StoreByte(a, dst + k, a[..][src + k]);
      PutUp(was, dst, was[src..src + k], was[src + k]);
      assert was[src..src + k + 1] == was[src..src + k] + [was[src + k]];
      k := k + 1;
    }
  }

  method CopyDown(a: array<byte>, dst: nat, src: nat, n: nat)
    requires dst + n <= a.Length && src + n <= a.Length
    requires src < dst < src + n
    modifies a
    ensures a[..] == Put(old(a[..]), dst, old(a[src..src + n]))
  {
    hide Put;
    ghost var was := a[..];
    PutNothing(was, dst + n);
    var k := n;
    assert was[src + n..src + n] == [];
    while k > 0
      invariant 0 <= k <= n
      invariant a[..] == Put(was, dst + k, was[src + k..src + n])
    {
      k := k - 1;
      PutRead(was, dst + k + 1, was[src + k + 1..src + n], src + k);
      StoreByte(a, dst + k, a[..][src + k]);
      PutDown(was, dst + k, was[src + k + 1..src + n], was[src + k]);
      assert was[src + k..src + n] == [was[src + k]] + was[src + k + 1..src + n];
    }
  }

  lemma PutRead(s: bytes, o: nat, b: bytes, i: nat)
    requires o + |b| <= |s| && i < |s| && (i < o || i >= o + |b|)
    ensures Put(s, o, b)[i] == s[i]
  {
  }

  lemma PutUp(s: bytes, o: nat, b: bytes, x: byte)
    requires o + |b| < |s|
    ensures Put(s, o, b)[o + |b| := x] == Put(s, o, b + [x])
  {
  }

  lemma PutDown(s: bytes, o: nat, b: bytes, x: byte)
    requires o + 1 + |b| <= |s|
    ensures Put(s, o + 1, b)[o := x] == Put(s, o, [x] + b)
  {
  }

  // memcpy from outside the buffer.
  method MemCpy(a: array<byte>, dst: nat, b: bytes)
    requires dst + |b| <= a.Length
    modifies a
    ensures a[..] == Put(old(a[..]), dst, b)
  {
    var k := 0;
    while k < |b|
      invariant 0 <= k <= |b|
      invariant forall j :: 0 <= j < a.Length ==>
                  a[j] == if dst <= j < dst + k then b[j - dst] else old(a[j])
    {
      a[dst + k] := b[k];
      k := k + 1;
    }
  }

  // A big-endian word.
  method StoreWord(a: array<byte>, dst: nat, v: nat)
    requires dst + 4 <= a.Length && v < WORD
    modifies a
    ensures a[..] == Put(old(a[..]), dst, Enc32(v))
  {
    MemCpy(a, dst, Enc32(v));
  }

  // The byte k behind p and the byte k behind q are the same; addresses have
  // 32 bits.
  predicate SameAt(m: bytes, p: nat, q: nat, k: nat)
    requires |m| == WORD
  {
    m[(p + k) % WORD] == m[(q + k) % WORD]
  }

  ghost predicate SameBytes(m: bytes, p: nat, q: nat, n: nat)
    requires |m| == WORD
  {
    forall k: nat :: k < n ==> SameAt(m, p, q, k)
  }

  lemma SameNext(m: bytes, p: nat, q: nat, k: nat)
    requires |m| == WORD && SameBytes(m, p, q, k)
    ensures SameBytes(m, p, q, k + 1) <==> SameAt(m, p, q, k)
  {
    hide SameAt;
  }

  lemma NotSame(m: bytes, p: nat, q: nat, k: nat, n: nat)
    requires |m| == WORD && k < n && !SameAt(m, p, q, k)
    ensures !SameBytes(m, p, q, n)
  {
    hide SameAt;
  }

  lemma NothingCompared(m: bytes, p: nat, q: nat)
    requires |m| == WORD
    ensures SameBytes(m, p, q, 0)
  {
  }

  lemma NextAddress(p: nat, k: nat)
    ensures ((p + k) % WORD + 1) % WORD == (p + (k + 1)) % WORD
  {
  }

  // How many bytes memcmp compares at most.
  function Rounds(n: nat): (r: nat)
    ensures r > 0
  {
    if n == 0 then WORD else n
  }

  lemma CountDown(left: nat)
    requires left < WORD
    ensures (left - 1) % WORD == if left == 0 then WORD - 1 else left - 1
  {
  }

  // memcmp of string.c on the whole memory.  It counts down after the first
  // comparison, so that a count of zero stands for 2^32 bytes.
  method MemCmp(m: bytes, p: nat, q: nat, n: nat) returns (r: int)
    requires |m| == WORD && n < WORD
    ensures r == 0 <==> SameBytes(m, p, q, if n == 0 then WORD else n)
  {
    hide SameBytes;
    var (p1, p2, left) := (p % WORD, q % WORD, n);
    ghost var k: nat := 0;
    NothingCompared(m, p, q);
    while m[p1] == m[p2]
      invariant k < Rounds(n) && left == (if k == 0 then n else Rounds(n) - k)
      invariant p1 == (p + k) % WORD && p2 == (q + k) % WORD
      invariant SameBytes(m, p, q, k)
      decreases Rounds(n) - k
    {
      SameNext(m, p, q, k);
      CountDown(left);
      left := (left - 1) % WORD;
      if left == 0 {
        break;
      }
      NextAddress(p, k);
      NextAddress(q, k);
      p1, p2 := (p1 + 1) % WORD, (p2 + 1) % WORD;
      k := k + 1;
    }
    if !SameAt(m, p, q, k) {
      NotSame(m, p, q, k, Rounds(n));
    }
    var (x: int, y: int) := (m[p1], m[p2]);
    return x - y;
  }
}
