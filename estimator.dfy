/** `calculate_output`: the line count and byte size announced before any
    line is written, computed from the keyword and the options alone. */
module Estimator {
  import opened Text
  import opened Settings
  import opened Transformations
  import opened Lines
  import opened Numbering
  import opened Years
  import opened Paddings
  import opened Stages

  /** The options as `calculate_output` reads them: it never looks at
      `custom_paddings_only`, so it counts "after" padding only when
      `common_paddings_after` is set. */
  function AsEstimated(cfg: Config): (e: Config)
    ensures PadsAfterOn(e) == cfg.paddingsAfter && Sides(e) <= Sides(cfg)
    ensures e.customPaddingsOnly == false
  {
    cfg.(customPaddingsOnly := false)
  }

  /** Counting up by one never shortens the decimal form, and lengthens it
      only at a carry from a leading nine to a leading one. */
  lemma {:induction false} DecCarry(n: nat)
    ensures |Dec(n)| <= |Dec(n + 1)|
    ensures |Dec(n)| < |Dec(n + 1)| ==> Dec(n)[0] == '9' && Dec(n + 1)[0] == '1'
    decreases n
  {
    if n == 9 {
      assert Dec(10) == Dec(1) + [DigitChar(0)];
    } else if n >= 10 {
      var h := n / 10;
      if n % 10 == 9 {
        assert (n + 1) / 10 == h + 1 && (n + 1) % 10 == 0;
        DecCarry(h);
        assert Dec(n) == Dec(h) + [DigitChar(n % 10)];
        assert Dec(n + 1) == Dec(h + 1) + [DigitChar(0)];
        DecValue(h);
        DecValue(h + 1);
      } else {
        assert (n + 1) / 10 == h;
      }
    }
  }

  /** The stand-in words of two successive iterations never produce the same
      remembered string, whatever follows them. */
  lemma NeighboursDiffer(w: nat, x: string, y: string)
    requires w >= 1
    ensures Dec(w - 1) + x != Dec(w) + y
  {
    DecCarry(w - 1);
    DecValue(w - 1);
    DecValue(w);
    if |Dec(w - 1)| == |Dec(w)| {
      OtherWord(Dec(w - 1), Dec(w), x, y);
    } else {
      assert (Dec(w - 1) + x)[0] == '9';
      assert (Dec(w) + y)[0] == '1';
    }
  }

  /** The innermost loop of the numbering estimate: counters 1..limit of
      level `i` for the stand-in word `str(w)`, counted when they differ
      from what `previous_list` remembers at their slot. */
  method EstimateLevel(w: nat, n: nat, i: nat, limit: int, first: bool, previous: seq<string>)
    returns (count: nat, size: nat, prev: seq<string>)
    requires i >= 1
    requires first ==> i == 1 && previous == []
    requires !first ==> |previous| == Counters(limit) && Consistent(previous, Dec(w), i)
    ensures prev == Memory(Dec(w), i, Counters(limit))
    ensures count == 2 * LevelCount(i, Counters(limit))
    ensures size == LevelSize(n, i, Counters(limit))
  {
    ghost var lim := Counters(limit);
    var word := Dec(w);
    count, size, prev := 0, 0, previous;
    var k := 1;
    while k <= limit
      invariant 1 <= k <= lim + 1
      invariant first ==> prev == Memory(word, i, k - 1)
      invariant !first ==> prev == Memory(word, i, k - 1) + previous[k - 1..]
      invariant count == 2 * LevelCount(i, k - 1) && size == LevelSize(n, i, k - 1)
    {
      var s := ZFill(Dec(k), i);
      if first {
        count := count + 2;
        size := size + (n + 1) * 2 + |s| * 2 + 1;
        prev := prev + [word + s];
      } else {
        RememberStep(word, i, k, previous, prev, s);
        if prev[k - 1] != word + s {
          size := size + (n + 1) * 2 + |s| * 2 + 1;
          count := count + 2;
          prev := prev[k - 1 := word + s];
        }
      }
      k := k + 1;
    }
    if !first {
      assert previous[lim..] == [];
    }
  }

  /** The middle loop of the numbering estimate: levels 1..`lvl` for one
      stand-in word; `first_cycle` is cleared after every level. */
  method EstimateWord(w: nat, n: nat, lvl: nat, limit: int, first: bool, previous: seq<string>)
    returns (count: nat, size: nat, first': bool, prev: seq<string>)
    requires lvl >= 1
    requires first ==> previous == []
    requires !first ==> |previous| == Counters(limit) && Consistent(previous, Dec(w), 1)
    ensures !first' && prev == Memory(Dec(w), lvl, Counters(limit))
    ensures count == 2 * PerWordCount(lvl, Counters(limit))
    ensures size == PerWordSize(n, lvl, Counters(limit))
  {
    ghost var lim := Counters(limit);
    count, size, first', prev := 0, 0, first, previous;
    var i := 1;
    while i <= lvl
      invariant 1 <= i <= lvl + 1
      invariant i == 1 ==> first' == first && prev == previous
      invariant i > 1 ==> !first' && prev == Memory(Dec(w), i - 1, lim)
      invariant count == 2 * PerWordCount(i - 1, lim) && size == PerWordSize(n, i - 1, lim)
    {
      if i > 1 {
        forall q | 0 <= q < |prev|
          ensures prev[q] != Dec(w) + Padded(q + 1, i) <==> Written(i, q + 1)
        {
          MemoryAt(Dec(w), i - 1, lim, q);
          PadStep(Dec(w), i, q + 1);
        }
      }
      var c, s;
      c, s, prev := EstimateLevel(w, n, i, limit, first', prev);
      count, size := count + c, size + s;
      first' := false;
      i := i + 1;
    }
  }

  /** The numbering part of `calculate_output`: `str(w)` for w in
      0..total-1 stands in for the basic mutations. Successive stand-ins
      never collide, so every stand-in is charged exactly what the
      numbering stage writes for a word of the keyword's length. */
  method NumberingEstimate(total: nat, n: nat, lvl: nat, limit: int) returns (count: nat, size: nat)
    requires lvl >= 1
    ensures count == total * (2 * PerWordCount(lvl, Counters(limit)))
    ensures size == total * PerWordSize(n, lvl, Counters(limit))
  {
    ghost var lim := Counters(limit);
    var firstCycle := true;
    var previous: seq<string> := [];
    count, size := 0, 0;
    var w := 0;
    while w < total
      invariant w <= total
      invariant firstCycle <==> w == 0
      invariant firstCycle ==> previous == []
      invariant w > 0 ==> previous == Memory(Dec(w - 1), lvl, lim)
      invariant count == w * (2 * PerWordCount(lvl, lim)) && size == w * PerWordSize(n, lvl, lim)
    {
      if !firstCycle {
        forall q | 0 <= q < |previous|
          ensures previous[q] != Dec(w) + Padded(q + 1, 1) <==> Written(1, q + 1)
        {
          MemoryAt(Dec(w - 1), lvl, lim, q);
          NeighboursDiffer(w, Padded(q + 1, lvl), Padded(q + 1, 1));
        }
      }
      var c, s;
      c, s, firstCycle, previous := EstimateWord(w, n, lvl, limit, firstCycle, previous);
      MulSucc(w, 2 * PerWordCount(lvl, lim));
      MulSucc(w, PerWordSize(n, lvl, lim));
      count, size := count + c, size + s;
      w := w + 1;
    }
  }

  /** The separator loop of the year estimate: for every separator, the
      four-character and the two-character year behind it, for every word
      and year. */
  method SepsEstimate(size: int, basicTotal: int, yearsLen: nat, seps: seq<string>) returns (size': int)
    ensures size' == size + (basicTotal * yearsLen) * SepExtraFour(seps)
  {
    ghost var f := basicTotal * yearsLen;
    size' := size;
    var j := 0;
    while j < |seps|
      invariant j <= |seps|
      invariant size' == size + f * SepExtraFour(seps[..j])
    {
      var sep := seps[j];
      assert seps[..j + 1][..j] == seps[..j];
      assert basicTotal * (4 + |sep|) * yearsLen + basicTotal * (2 + |sep|) * yearsLen
          == f * ((4 + |sep|) + (2 + |sep|));
      size' := size' + basicTotal * (4 + |sep|) * yearsLen;
      size' := size' + basicTotal * (2 + |sep|) * yearsLen;
      j := j + 1;
    }
    assert seps[..j] == seps;
  }

  /** `sum([m * (len(v) + extra) for v in pads])`. */
  function ScaledLengths(m: int, pads: seq<string>, extra: nat): int
  {
    if pads == [] then 0 else ScaledLengths(m, pads[..|pads| - 1], extra) + m * (|pads[|pads| - 1]| + extra)
  }

  /** The two padding sums of the estimator together are the bytes the
      tokens add to `m` words, both line forms counted. */
  lemma {:induction false} ScaledLengthsPads(m: int, pads: seq<string>)
    ensures ScaledLengths(m, pads, 0) + ScaledLengths(m, pads, 1) == m * PadsExtra(pads)
  {
    if pads != [] {
      var p := pads[..|pads| - 1];
      var v := pads[|pads| - 1];
      ScaledLengthsPads(m, p);
      assert m * (|v| + 0) + m * (|v| + 1) == m * (2 * |v| + 1);
      assert m * PadsExtra(pads) == m * PadsExtra(p) + m * (2 * |v| + 1);
    }
  }

  /** `calculate_output`, called with the lower-cased keyword. The count is
      what the generator writes for the options as read here; the size
      too, as long as every year has four characters (the estimate
      hard-codes 4 and 2 for the year lengths). */
  method CalculateOutput(cfg: Config, keyword: string) returns (count: int, size: int)
    requires Lowered(keyword)
    ensures count == KeywordCount(AsEstimated(cfg), BasicTotal(cfg.transformations, keyword))
    ensures (forall j :: 0 <= j < |cfg.years| ==> |cfg.years[j]| == 4) ==>
              size == KeywordSize(AsEstimated(cfg), BasicTotal(cfg.transformations, keyword), |keyword|)
  {
    ghost var e := AsEstimated(cfg);
    ghost var m := BasicTotal(cfg.transformations, keyword);
    ghost var n := |keyword|;
    var numberingCount, numberingSize := 0, 0;
    var basicTotal: int, _ := CalculateTransformations(cfg.transformations, keyword);
    var total := basicTotal;
    var basicSize := total * (|keyword| + 1);
    size := basicSize;
    if cfg.appendNumbering > 0 {
      numberingCount, numberingSize := NumberingEstimate(total, |keyword|, cfg.appendNumbering, cfg.numberingLimit);
    }
    if |cfg.years| > 0 {
      var patterns := |cfg.yearSeparators| * 2;
      var yearsLen := |cfg.years|;
      size := size + basicSize * patterns * yearsLen;
      size := SepsEstimate(size, basicTotal, yearsLen, cfg.yearSeparators);
      total := total + total * |cfg.years| * patterns;
      basicTotal := total;
      basicSize := size;
      if forall j :: 0 <= j < |cfg.years| ==> |cfg.years[j]| == 4 {
        YearsExtraFour(cfg.years, cfg.yearSeparators);
      }
      YearsArith(m, n, yearsLen, |cfg.yearSeparators|, SepExtraFour(cfg.yearSeparators), YearsExtra(cfg.years, cfg.yearSeparators), total, size);
    }
    ghost var ext, extSize := total, size;
    var patterns := 2;
    if cfg.paddingsAfter || cfg.paddingsBefore {
      var paddingsLen := |cfg.commonPaddings|;
      var padsWlenSum := ScaledLengths(basicTotal, cfg.commonPaddings, 0);
      var padsWlenSum' := ScaledLengths(basicTotal, cfg.commonPaddings, 1);
      ScaledLengthsPads(basicTotal, cfg.commonPaddings);
      if cfg.paddingsAfter && cfg.paddingsBefore {
        size := size + ((basicSize * patterns * paddingsLen) + padsWlenSum + padsWlenSum') * 2;
        total := total + (total * |cfg.commonPaddings| * 2) * 2;
      } else {
        size := size + (basicSize * patterns * paddingsLen) + padsWlenSum + padsWlenSum';
        total := total + total * |cfg.commonPaddings| * 2;
      }
    }
    PadsArith(cfg.paddingsAfter, cfg.paddingsBefore, ext, extSize, |cfg.commonPaddings|, PadsExtra(cfg.commonPaddings), total, size);
    EstimateSum(e, m, n, ext, extSize, total, size, numberingCount, numberingSize);
    count := total + numberingCount;
    size := size + numberingSize;
  }

  /** The estimator's sections add up to the closed form of the generated output. */
  lemma EstimateSum(e: Config, m: nat, n: nat, ext: int, extSize: int, total: int, size: int, numCount: int, numSize: int)
    requires ext == m + m * YearsPerWord(e)
    requires (forall j :: 0 <= j < |e.years| ==> |e.years[j]| == 4) ==> extSize == m * (n + 1) + YearsSize(e, m, n)
    requires total == ext + Sides(e) * (ext * (2 * |e.commonPaddings|))
    requires size == extSize + Sides(e) * ((2 * |e.commonPaddings|) * extSize + ext * PadsExtra(e.commonPaddings))
    requires var lim := Counters(e.numberingLimit);
      && numCount == (if e.appendNumbering > 0 then m * (2 * PerWordCount(e.appendNumbering, lim)) else 0)
      && numSize == (if e.appendNumbering > 0 then m * PerWordSize(n, e.appendNumbering, lim) else 0)
    ensures total + numCount == KeywordCount(e, m)
    ensures (forall j :: 0 <= j < |e.years| ==> |e.years[j]| == 4) ==> size + numSize == KeywordSize(e, m, n)
  {
  }

  /** When "after" padding is on or `custom_paddings_only` is off, the
      options as estimated give the same closed form as the options the
      generator runs with. */
  lemma EstimatedAgrees(cfg: Config, m: nat, n: nat)
    requires cfg.customPaddingsOnly ==> cfg.paddingsAfter
    ensures KeywordCount(AsEstimated(cfg), m) == KeywordCount(cfg, m)
    ensures KeywordSize(AsEstimated(cfg), m, n) == KeywordSize(cfg, m, n)
  {
    assert Sides(AsEstimated(cfg)) == Sides(cfg);
  }

  /** With `custom_paddings_only` and "before" padding but no "after"
      padding, the generator also runs the "after" stage and the estimate
      falls short of what is written. */
  lemma CustomOnlyUndercounts(cfg: Config, m: nat)
    requires cfg.customPaddingsOnly && !cfg.paddingsAfter && cfg.paddingsBefore
    requires |cfg.commonPaddings| > 0 && m > 0
    ensures KeywordCount(AsEstimated(cfg), m) < KeywordCount(cfg, m)
  {
    var e := AsEstimated(cfg);
    var ext := m + m * YearsPerWord(cfg);
    var x := ext * (2 * |cfg.commonPaddings|);
    assert Sides(e) == 1 && Sides(cfg) == 2;
    assert x > 0 by {
      assert ext >= 1;
      MulPositive(ext, 2 * |cfg.commonPaddings|);
    }
  }

  lemma MulPositive(a: int, b: int)
    requires a > 0 && b > 0
    ensures a * b > 0
  {
  }

  /** The year estimate's sums, regrouped as the closed form groups them. */
  lemma YearsArith(m: int, n: int, years: int, seps: int, four: int, extra: int, total: int, size: int)
    requires total == m + m * years * (seps * 2)
    requires size == m * (n + 1) + m * (n + 1) * (seps * 2) * years + (m * years) * four
    ensures total == m + m * (years * (2 * seps))
    ensures extra == years * four ==> size == m * (n + 1) + ((years * (2 * seps)) * (m * (n + 1)) + m * extra)
  {
  }

  /** The padding estimate's sums, regrouped as the closed form groups them:
      one share per padding direction that is on. */
  lemma PadsArith(after: bool, before: bool, ext: int, extSize: int, p: int, x: int, total: int, size: int)
    requires total == if after && before then ext + (ext * p * 2) * 2
                      else if after || before then ext + ext * p * 2 else ext
    requires size == if after && before then extSize + ((extSize * 2 * p) + ext * x) * 2
                     else if after || before then extSize + ((extSize * 2 * p) + ext * x) else extSize
    ensures var sides := (if after then 1 else 0) + (if before then 1 else 0);
      total == ext + sides * (ext * (2 * p)) && size == extSize + sides * ((2 * p) * extSize + ext * x)
  {
  }
}
