// The AXP8191 voltage selectors of axp8191_voltage.c.
module Voltage {
  datatype Range = Range(minMv: nat, minSelector: nat, maxSelector: nat, stepMv: nat)

  const DCDC6: seq<Range> := [
    Range(500, 0x00, 0x46, 10), Range(1220, 0x47, 0x57, 20),
    Range(1800, 0x58, 0x67, 20), Range(2440, 0x68, 0x70, 40)]
  const DCDC7: seq<Range> := [Range(500, 0x00, 0x46, 10), Range(1220, 0x47, 0x57, 20)]
  const DCDC8: seq<Range> := [Range(500, 0x00, 0x46, 10), Range(1220, 0x47, 0x57, 20), Range(1900, 0x58, 0x67, 100)]
  const ELDO: seq<Range> := [Range(500, 0x00, 0x28, 25)]
  const CLDO: seq<Range> := [Range(500, 0x00, 0x1d, 100)]
  const RAILS: seq<seq<Range>> := [DCDC6, DCDC7, DCDC8, ELDO, CLDO]

  // What a selector of a range stands for.
  function Mv(r: Range, selector: nat): int {
    r.minMv + (selector - r.minSelector) * r.stepMv
  }

  predicate In(r: Range, selector: nat) {
    r.minSelector <= selector <= r.maxSelector
  }

  // range_max_mv.
  function MaxMv(r: Range): int {
    r.minMv + (r.maxSelector - r.minSelector) * r.stepMv
  }

  // Ranges one above the other, in selectors and in voltage.
  ghost predicate Sorted(ranges: seq<Range>) {
    && ranges != []
    && (forall i :: 0 <= i < |ranges| ==> ranges[i].stepMv > 0 && ranges[i].minSelector <= ranges[i].maxSelector)
    && forall i, j :: 0 <= i < j < |ranges| ==>
         ranges[i].maxSelector < ranges[j].minSelector && MaxMv(ranges[i]) < ranges[j].minMv
  }

  function Clamped(ranges: seq<Range>, mv: nat): int
    requires ranges != []
  {
    var low := if mv < ranges[0].minMv then ranges[0].minMv else mv;
    var most := MaxMv(ranges[|ranges| - 1]);
    if low > most then most else low
  }

  // A selector whose voltage is at least the clamped request.
  ghost predicate Enough(ranges: seq<Range>, mv: nat, i: nat, selector: nat)
    requires ranges != []
  {
    i < |ranges| && In(ranges[i], selector) && Mv(ranges[i], selector) >= Clamped(ranges, mv)
  }

  // The least of them.
  ghost predicate Least(ranges: seq<Range>, mv: nat, selector: nat)
    requires ranges != []
  {
    && (exists i: nat :: Enough(ranges, mv, i, selector))
    && forall j: nat, s: nat :: Enough(ranges, mv, j, s) ==> selector <= s
  }

  lemma TablesSorted(rail: nat)
    requires rail < |RAILS|
    ensures Sorted(RAILS[rail])
  {
  }

  // A higher request never gets a lower selector.
  lemma Monotone(ranges: seq<Range>, mv: nat, mv': nat, selector: nat, selector': nat)
    requires Sorted(ranges) && mv <= mv' && Least(ranges, mv, selector) && Least(ranges, mv', selector')
    ensures selector <= selector'
  {
    var i: nat :| Enough(ranges, mv', i, selector');
    assert Enough(ranges, mv, i, selector');
  }

  lemma MulMono(a: int, b: int, c: int)
    requires a <= b && c >= 0
    ensures a * c <= b * c
  {
  }

  // Within a range: the least number of steps that is enough.
  lemma Steps(d: nat, step: nat, n: nat)
    requires step > 0 && d > 0
    ensures var k := (d + step - 1) / step; k * step >= d && (k - 1) * step < d && (d <= n * step ==> k <= n)
  {
    var k := (d + step - 1) / step;
    assert k * step <= d + step - 1 < (k + 1) * step;
    if d <= n * step && k > n {
      MulMono(n, k - 1, step);
      assert false;
    }
  }

  lemma InRange(r: Range, selector: nat)
    requires r.stepMv > 0 && In(r, selector)
    ensures r.minMv <= Mv(r, selector) <= MaxMv(r)
  {
    MulMono(0, selector - r.minSelector, r.stepMv);
    MulMono(selector - r.minSelector, r.maxSelector - r.minSelector, r.stepMv);
  }

  // The least in the first range that reaches the request is the least of all.
  lemma LeastHere(ranges: seq<Range>, mv: nat, i: nat, selector: nat)
    requires Sorted(ranges) && i < |ranges|
    requires forall j :: 0 <= j < i ==> MaxMv(ranges[j]) < Clamped(ranges, mv)
    requires Enough(ranges, mv, i, selector)
    requires forall s: nat :: Enough(ranges, mv, i, s) ==> selector <= s
    ensures Least(ranges, mv, selector)
  {
    forall j: nat, s: nat | Enough(ranges, mv, j, s) ensures selector <= s {
      InRange(ranges[j], s);
    }
  }

  lemma OffsetIsLeast(ranges: seq<Range>, mv: nat, i: nat)
    requires Sorted(ranges) && i < |ranges|
    requires forall j :: 0 <= j < i ==> MaxMv(ranges[j]) < Clamped(ranges, mv)
    requires ranges[i].minMv < Clamped(ranges, mv) <= MaxMv(ranges[i])
    ensures var r := ranges[i];
            var offset := (Clamped(ranges, mv) - r.minMv + r.stepMv - 1) / r.stepMv;
            offset >= 0 && r.minSelector + offset <= r.maxSelector && Least(ranges, mv, r.minSelector + offset)
  {
    hide Clamped;
    var r := ranges[i];
    var d := Clamped(ranges, mv) - r.minMv;
    Steps(d, r.stepMv, r.maxSelector - r.minSelector);
    var offset := (d + r.stepMv - 1) / r.stepMv;
    assert Mv(r, r.minSelector + offset) == r.minMv + offset * r.stepMv;
    assert Enough(ranges, mv, i, r.minSelector + offset);
    forall s: nat | Enough(ranges, mv, i, s) ensures r.minSelector + offset <= s {
      InRange(r, s);
      Steps(d, r.stepMv, s - r.minSelector);
    }
    LeastHere(ranges, mv, i, r.minSelector + offset);
  }

  // a7s_axp8191_voltage_selector on one table: it always finds the least
  // selector that is enough.
  method Selector(ranges: seq<Range>, request: nat) returns (ok: bool, selector: nat)
    requires Sorted(ranges)
    ensures ok && Least(ranges, request, selector)
  {
    var millivolts: int := request;
    if millivolts < ranges[0].minMv {
      millivolts := ranges[0].minMv;
    }
    var maxMv := MaxMv(ranges[|ranges| - 1]);
    if millivolts > maxMv {
      millivolts := maxMv;
    }
    var index := 0;
    while index < |ranges|
      invariant 0 <= index <= |ranges| && millivolts == Clamped(ranges, request)
      invariant forall j :: 0 <= j < index ==> MaxMv(ranges[j]) < millivolts
    {
      var range := ranges[index];
      if range.stepMv == 0 || range.minSelector > range.maxSelector {
        assert false;
      }
      if millivolts > MaxMv(range) {
        index := index + 1;
        continue;
      }
      if millivolts <= range.minMv {
        InRange(range, range.minSelector);
        assert Enough(ranges, request, index, range.minSelector);
        LeastHere(ranges, request, index, range.minSelector);
        return true, range.minSelector;
      }
      var offset := (millivolts - range.minMv + range.stepMv - 1) / range.stepMv;
      OffsetIsLeast(ranges, request, index);
      // Never taken on an ascending table, like the test at the top of the loop.
      if range.minSelector + offset > range.maxSelector {
        assert false;
      }
      return true, range.minSelector + offset;
    }
    assert false;
  }

  method VoltageSelector(rail: nat, millivolts: nat) returns (r: int, selector: nat)
    ensures r == if rail < |RAILS| then 0 else -1
    ensures r == 0 ==> Least(RAILS[rail], millivolts, selector)
  {
    if rail >= |RAILS| {
      return -1, 0;
    }
    TablesSorted(rail);
    var ok;
    ok, selector := Selector(RAILS[rail], millivolts);
    r := 0;
  }
}
