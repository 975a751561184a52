// The checksum over DRAM of standby_dram_crc.c, on words as their bits, the
// least significant first.
module DramCrc {
  type word = s: seq<bool> | |s| == 32 witness Zeros(32)
  type octet = s: seq<bool> | |s| == 8 witness Zeros(8)

  const OK: int := 0
  const EINVAL: int := -22

  const DRAM_BASE: nat := 0x4000_0000
  const DRAM_END: nat := 0x8000_0000
  const CRC_MAX_LEN: nat := 16 * 1024 * 1024
  const POLYNOMIAL: word := Bits(0xedb8_8320, 32)
  const ONES: word := Same(true, 32)

  function Same(b: bool, n: nat): (r: seq<bool>)
    ensures |r| == n && forall i :: 0 <= i < n ==> r[i] == b
  {
    seq(n, _ => b)
  }

  function Zeros(n: nat): (r: seq<bool>)
    ensures |r| == n && forall i :: 0 <= i < n ==> !r[i]
  {
    Same(false, n)
  }

  function Bits(v: nat, n: nat): (r: seq<bool>)
    ensures |r| == n
  {
    if n == 0 then [] else [v % 2 == 1] + Bits(v / 2, n - 1)
  }

  function Pow2(n: nat): (r: nat)
    ensures r > 0
  {
    if n == 0 then 1 else 2 * Pow2(n - 1)
  }

  // The C operators.
  function Xor(x: seq<bool>, y: seq<bool>): (r: seq<bool>)
    requires |x| == |y|
    ensures |r| == |x| && forall i :: 0 <= i < |x| ==> r[i] == (x[i] != y[i])
  {
    seq(|x|, i requires 0 <= i < |x| => x[i] != y[i])
  }

  function And(x: seq<bool>, y: seq<bool>): (r: seq<bool>)
    requires |x| == |y|
    ensures |r| == |x| && forall i :: 0 <= i < |x| ==> r[i] == (x[i] && y[i])
  {
    seq(|x|, i requires 0 <= i < |x| => x[i] && y[i])
  }

  function Shr(x: word, n: nat): (r: word)
    requires n <= 32
    ensures forall i :: 0 <= i < 32 ==> r[i] == (i + n < 32 && x[i + n])
  {
    x[n..] + Zeros(n)
  }

  // One turn of the inner loop with nothing shifted in.
  function Shift(x: word): word {
    Xor(Shr(x, 1), And(POLYNOMIAL, Same(x[0], 32)))
  }

  function Shifts(x: word, n: nat): word {
    if n == 0 then x else Shift(Shifts(x, n - 1))
  }

  // The register after a word.
  function WordStep(crc: word, w: word): word {
    Shifts(Xor(crc, w), 32)
  }

  // The register after all the words, and the checksum.
  function Register(words: seq<word>): word {
    if words == [] then ONES
    else WordStep(Register(words[..|words| - 1]), words[|words| - 1])
  }

  function Crc(words: seq<word>): word {
    Xor(Register(words), ONES)
  }

  // --- The register can be run backwards ---

  lemma {:induction false} TopBit(v: nat, n: nat)
    requires n > 0 && Pow2(n - 1) <= v < Pow2(n)
    ensures Bits(v, n)[n - 1]
  {
    if n > 1 {
      TopBit(v / 2, n - 1);
    }
  }

  // The polynomial's top bit is set.
  lemma PolynomialTop()
    ensures POLYNOMIAL[31]
  {
    hide Bits;
    Pow31();
    TopBit(0xedb8_8320, 32);
  }

  lemma Pow31()
    ensures Pow2(31) == 0x8000_0000 && Pow2(32) == 0x1_0000_0000
  {
    assert Pow2(8) == 0x100;
    assert Pow2(16) == 0x1_0000;
    assert Pow2(24) == 0x100_0000;
  }

  // The top bit after a turn tells the bottom bit before it.
  lemma ShiftInjective(x: word, y: word)
    requires Shift(x) == Shift(y)
    ensures x == y
  {
    PolynomialTop();
    assert Shift(x)[31] == x[0] && Shift(y)[31] == y[0];
    forall i | 0 <= i < 32 ensures x[i] == y[i] {
      if i > 0 {
        assert Shift(x)[i - 1] == Shift(y)[i - 1];
      }
    }
  }

  lemma {:induction false} ShiftsInjective(x: word, y: word, n: nat)
    requires Shifts(x, n) == Shifts(y, n)
    ensures x == y
  {
    hide Shift;
    if n > 0 {
      ShiftInjective(Shifts(x, n - 1), Shifts(y, n - 1));
      ShiftsInjective(x, y, n - 1);
    }
  }

  // A word step is one-to-one in the register and in the word.
  lemma WordStepInjective(crc: word, w: word, crc': word, w': word)
    requires WordStep(crc, w) == WordStep(crc', w')
    ensures crc == crc' <==> w == w'
  {
    hide Shifts;
    ShiftsInjective(Xor(crc, w), Xor(crc', w'), 32);
    var (x, x') := (Xor(crc, w), Xor(crc', w'));
    forall i | 0 <= i < 32 ensures (crc[i] != w[i]) == (crc'[i] != w'[i]) {
      assert x[i] == x'[i];
    }
  }

  // Two regions that differ in exactly one word never have the same checksum.
  lemma {:induction false} OneWordDetected(a: seq<word>, b: seq<word>, k: nat)
    requires |a| == |b| && k < |a| && a[k] != b[k]
    requires forall i :: 0 <= i < |a| && i != k ==> a[i] == b[i]
    ensures Register(a) != Register(b) && Crc(a) != Crc(b)
    decreases |a|
  {
    hide WordStep;
    var n := |a| - 1;
    assert k == n ==> a[..n] == b[..n];
    if Register(a) == Register(b) {
      WordStepInjective(Register(a[..n]), a[n], Register(b[..n]), b[n]);
      if k < n {
        OneWordDetected(a[..n], b[..n], k);
      }
      assert false;
    }
    NotAgain(Register(a), Register(b));
  }

  lemma NotAgain(x: word, y: word)
    requires x != y
    ensures Xor(x, ONES) != Xor(y, ONES)
  {
    if Xor(x, ONES) == Xor(y, ONES) {
      forall i | 0 <= i < 32 ensures x[i] == y[i] {
        assert Xor(x, ONES)[i] == Xor(y, ONES)[i];
      }
    }
  }

  // --- The bytewise checksum of section 8 of RFC 1952 ---

  // Entry n of its table: the byte through eight turns.
  function Table(b: octet): word {
    Shifts(b + Zeros(24), 8)
  }

  // c = crc_table[(c ^ b) & 0xff] ^ (c >> 8).
  function ByteStep(c: word, b: octet): word {
    Xor(Table(Xor(c[..8], b)), Shr(c, 8))
  }

  function Bytewise(octets: seq<octet>): word {
    if octets == [] then ONES
    else ByteStep(Bytewise(octets[..|octets| - 1]), octets[|octets| - 1])
  }

  // The bytes of the words, least significant first.
  function Octets(words: seq<word>): (r: seq<octet>)
    ensures |r| == 4 * |words|
  {
    if words == [] then []
    else
      var w := words[|words| - 1];
      Octets(words[..|words| - 1]) + [w[..8], w[8..16], w[16..24], w[24..]]
  }

  lemma ShiftLinear(x: word, y: word)
    ensures Shift(Xor(x, y)) == Xor(Shift(x), Shift(y))
  {
    forall i | 0 <= i < 32 ensures Shift(Xor(x, y))[i] == Xor(Shift(x), Shift(y))[i] {
    }
  }

  lemma {:induction false} ShiftsLinear(x: word, y: word, n: nat)
    ensures Shifts(Xor(x, y), n) == Xor(Shifts(x, n), Shifts(y, n))
  {
    hide Shift;
    if n > 0 {
      ShiftsLinear(x, y, n - 1);
      ShiftLinear(Shifts(x, n - 1), Shifts(y, n - 1));
    }
  }

  // Zeros at the bottom are only shifted out.
  lemma {:induction false} ShiftsOfZeros(x: word, n: nat)
    requires n <= 32 && forall i :: 0 <= i < n ==> !x[i]
    ensures Shifts(x, n) == Shr(x, n)
  {
    if n > 0 {
      ShiftsOfZeros(x, n - 1);
      var y := Shr(x, n - 1);
      assert !y[0];
      forall i | 0 <= i < 32 ensures Shift(y)[i] == Shr(x, n)[i] {
      }
    } else {
      assert Shr(x, 0) == x;
    }
  }

  // Eight turns are one look into the table.
  lemma EightShifts(x: word)
    ensures Shifts(x, 8) == Xor(Table(x[..8]), Shr(x, 8))
  {
    hide Shifts, Shift;
    var low: word := x[..8] + Zeros(24);
    var high: word := Zeros(8) + x[8..];
    assert x == Xor(low, high);
    ShiftsLinear(low, high, 8);
    ShiftsOfZeros(high, 8);
    assert Shr(high, 8) == Shr(x, 8);
  }

  // A byte shifted in below the rest of the word.
  lemma ByteShifts(c: word, w: word)
    ensures Shifts(Xor(c, w), 8) == Xor(ByteStep(c, w[..8]), Shr(w, 8))
  {
    hide Shifts, Shift, Table;
    var x := Xor(c, w);
    EightShifts(x);
    assert x[..8] == Xor(c[..8], w[..8]);
    var t := Table(x[..8]);
    forall i | 0 <= i < 32 ensures Xor(t, Shr(x, 8))[i] == Xor(Xor(t, Shr(c, 8)), Shr(w, 8))[i] {
    }
  }

  lemma {:induction false} ShiftsAdd(x: word, m: nat, n: nat)
    ensures Shifts(x, m + n) == Shifts(Shifts(x, m), n)
    decreases n
  {
    hide Shift;
    if n > 0 {
      ShiftsAdd(x, m, n - 1);
    }
  }

  lemma WordIsFourBytes(c: word, w: word)
    ensures WordStep(c, w) ==
              ByteStep(ByteStep(ByteStep(ByteStep(c, w[..8]), w[8..16]), w[16..24]), w[24..])
  {
    hide Shifts, Shift, ByteStep, Xor;
    var (w1, w2, w3) := (Shr(w, 8), Shr(w, 16), Shr(w, 24));
    var c1 := ByteStep(c, w[..8]);
    var c2 := ByteStep(c1, w[8..16]);
    var c3 := ByteStep(c2, w[16..24]);
    assert w1[..8] == w[8..16] && w2[..8] == w[16..24] && w3[..8] == w[24..];
    assert Shr(w1, 8) == w2 && Shr(w2, 8) == w3 && Shr(w3, 8) == Zeros(32);
    ByteShifts(c, w);
    ByteShifts(c1, w1);
    ByteShifts(c2, w2);
    ByteShifts(c3, w3);
    ShiftsAdd(Xor(c, w), 8, 24);
    ShiftsAdd(Xor(c1, w1), 8, 16);
    ShiftsAdd(Xor(c2, w2), 8, 8);
    XorZeros(ByteStep(c3, w[24..]));
  }

  lemma XorZeros(x: word)
    ensures Xor(x, Zeros(32)) == x
  {
  }

  // The word-at-a-time register is the bytewise one over the same bytes.
  lemma {:induction false} WordwiseIsBytewise(words: seq<word>)
    ensures Register(words) == Bytewise(Octets(words))
    ensures Crc(words) == Xor(Bytewise(Octets(words)), ONES)
  {
    hide WordStep, ByteStep;
    if words != [] {
      var n := |words| - 1;
      WordwiseIsBytewise(words[..n]);
      WordIsFourBytes(Register(words[..n]), words[n]);
      var (before, w) := (Octets(words[..n]), words[n]);
      FourMore(before, w[..8], w[8..16], w[16..24], w[24..]);
    }
  }

  lemma FourMore(before: seq<octet>, b0: octet, b1: octet, b2: octet, b3: octet)
    ensures Bytewise(before + [b0, b1, b2, b3])
            == ByteStep(ByteStep(ByteStep(ByteStep(Bytewise(before), b0), b1), b2), b3)
  {
    hide ByteStep;
    OneMore(before, b0);
    OneMore(before + [b0], b1);
    OneMore(before + [b0] + [b1], b2);
    OneMore(before + [b0] + [b1] + [b2], b3);
    assert before + [b0] + [b1] + [b2] + [b3] == before + [b0, b1, b2, b3];
  }

  lemma OneMore(before: seq<octet>, b: octet)
    ensures Bytewise(before + [b]) == ByteStep(Bytewise(before), b)
  {
    assert (before + [b])[..|before|] == before;
  }

  // --- The parameters and the loop ---

  // Addresses of a region that standby_dram_crc may read word by word.
  predicate InDram(src: nat, len: nat) {
    && src % 4 == 0 && len % 4 == 0 && 0 < len <= CRC_MAX_LEN
    && DRAM_BASE <= src && src + len <= DRAM_END
  }

  // The 32-bit words of DRAM from its base on.
  type dram = s: seq<word> | |s| == (DRAM_END - DRAM_BASE) / 4 witness seq((DRAM_END - DRAM_BASE) / 4, _ => Zeros(32))

  function Index(address: nat): nat
    requires DRAM_BASE <= address
  {
    (address - DRAM_BASE) / 4
  }

  class CrcService {
    var enable: nat
    var src: nat
    var len: nat

    // What every call of standby_set_dram_crc_paras keeps.
    ghost predicate Valid()
      reads this
    {
      enable <= 1 && InDram(src, len)
    }

    constructor ()
      ensures Valid() && enable == 0
    {
      enable, src, len := 0, 0x4000_0000, 1024 * 1024;
    }

    // standby_set_dram_crc_paras.
    method SetParas(on: nat, from: nat, length: nat) returns (r: int)
      requires Valid() && from < 0x1_0000_0000 && length < 0x1_0000_0000
      modifies this
      ensures Valid()
      ensures r == OK || r == EINVAL
      ensures r == OK <==> on == 0 || (on == 1 && InDram(from, length))
      ensures r == OK && on == 1 ==> enable == 1 && src == from && len == length
      ensures r == OK && on == 0 ==> enable == 0 && unchanged(this`src, this`len)
      ensures r != OK ==> unchanged(this)
    {
      if on > 1 {
        return EINVAL;
      }
      if on == 0 {
        enable := 0;
        return OK;
      }
      if from % 4 != 0 || length % 4 != 0 || length == 0 || length > CRC_MAX_LEN
         || from < DRAM_BASE || from >= DRAM_END || length > DRAM_END - from {
        return EINVAL;
      }
      enable, src, len := on, from, length;
      return OK;
    }

    // A load of the word at an address.
    method Load(mem: dram, address: nat) returns (w: word)
      requires DRAM_BASE <= address && address + 4 <= DRAM_END && address % 4 == 0
      ensures w == mem[Index(address)]
    {
      w := mem[Index(address)];
    }

    // standby_dram_crc.
    method DramCrc(mem: dram) returns (crc: word)
      requires Valid()
      ensures crc == Crc(mem[Index(src)..Index(src + len)])
    {
      hide Xor, Shr, And, Shift, WordStep, Register;
      var pdata, end := src, src + len;
      crc := ONES;
      NoWords();
      assert mem[Index(src)..Index(pdata)] == [];
      while pdata < end
        invariant src <= pdata <= end && pdata % 4 == 0
        invariant crc == Register(mem[Index(src)..Index(pdata)])
        decreases end - pdata
      {
        ghost var before := crc;
        var w := Load(mem, pdata);
        pdata := pdata + 4;
        crc := Turns(crc, w);
        NextWord(mem, Index(src), Index(pdata - 4));
      }
      crc := Xor(crc, ONES);
    }

    // The 32 turns for one word.
    method Turns(before: word, w: word) returns (crc: word)
      ensures crc == WordStep(before, w)
    {
      hide Xor, Shr, And, Shift;
      crc := before;
      var value := w;
      ShrNone(w);
      for bit := 0 to 32
        invariant Xor(crc, value) == Shifts(Xor(before, w), bit)
        invariant value == Shr(w, bit)
      {
        Turn(crc, value);
        ShrNext(w, bit);
        var mask := Same(Xor(crc, value)[0], 32);
        crc := Xor(Shr(crc, 1), And(POLYNOMIAL, mask));
        value := Shr(value, 1);
      }
      ShrAll(w);
      XorZeros(crc);
    }
  }

  lemma NoWords()
    ensures Register([]) == ONES
  {
  }

  lemma NextWord(mem: seq<word>, i: nat, j: nat)
    requires i <= j < |mem|
    ensures Register(mem[i..j + 1]) == WordStep(Register(mem[i..j]), mem[j])
  {
    hide WordStep;
    assert mem[i..j + 1][..j - i] == mem[i..j];
  }

  lemma Turn(crc: word, value: word)
    ensures Xor(Xor(Shr(crc, 1), And(POLYNOMIAL, Same(Xor(crc, value)[0], 32))), Shr(value, 1))
            == Shift(Xor(crc, value))
  {
    hide Bits;
    var next := Xor(Shr(crc, 1), And(POLYNOMIAL, Same(Xor(crc, value)[0], 32)));
    forall i | 0 <= i < 32 ensures Xor(next, Shr(value, 1))[i] == Shift(Xor(crc, value))[i] {
    }
  }

  lemma ShrNone(w: word)
    ensures Shr(w, 0) == w
  {
  }

  lemma ShrNext(w: word, n: nat)
    requires n < 32
    ensures Shr(Shr(w, n), 1) == Shr(w, n + 1)
  {
  }

  lemma ShrAll(w: word)
    ensures Shr(w, 32) == Zeros(32)
  {
  }
}
