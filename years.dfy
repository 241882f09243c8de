/** The year stage as values: the lines `mutate_years` writes (and appends to
    the mutation list), and how many lines and bytes they are. */
module Years {
  import opened Lines

  /** `y[2:]`. */
  function Short(y: string): string
  {
    if |y| >= 2 then y[2..] else []
  }

  /** For one word and one year: full and short year behind every separator. */
  function SepLines(w: string, y: string, seps: seq<string>): (r: seq<string>)
    ensures |r| == 2 * |seps|
  {
    if seps == [] then []
    else
      var s := seps[|seps| - 1];
      SepLines(w, y, seps[..|seps| - 1]) + [w + s + y, w + s + Short(y)]
  }

  function WordYearLines(w: string, ys: seq<string>, seps: seq<string>): seq<string>
  {
    if ys == [] then [] else WordYearLines(w, ys[..|ys| - 1], seps) + SepLines(w, ys[|ys| - 1], seps)
  }

  /** Everything `mutate_years` writes for the words `ws`, word by word. */
  function YearLines(ws: seq<string>, ys: seq<string>, seps: seq<string>): seq<string>
  {
    PerWordLines(ws, w => WordYearLines(w, ys, seps))
  }

  /** Bytes one year adds behind the word copies, over all separators. */
  function SepExtra(y: string, seps: seq<string>): nat
  {
    if seps == [] then 0
    else SepExtra(y, seps[..|seps| - 1]) + 2 * |seps[|seps| - 1]| + |y| + |Short(y)|
  }

  function YearsExtra(ys: seq<string>, seps: seq<string>): nat
  {
    if ys == [] then 0 else YearsExtra(ys[..|ys| - 1], seps) + SepExtra(ys[|ys| - 1], seps)
  }

  /** Lines the year stage writes per word. */
  function PerWord(ys: seq<string>, seps: seq<string>): nat
  {
    |ys| * (2 * |seps|)
  }

  lemma {:induction false} SepLinesSize(w: string, y: string, seps: seq<string>)
    ensures SizeOf(SepLines(w, y, seps)) == (2 * |seps|) * (|w| + 1) + SepExtra(y, seps)
  {
    if seps != [] {
      var n := |seps| - 1;
      var s := seps[n];
      var a, b := SepLines(w, y, seps[..n]), [w + s + y, w + s + Short(y)];
      SepLinesSize(w, y, seps[..n]);
      assert SepLines(w, y, seps) == a + b;
      SizeOfAppend(a, b);
      SizeOfPair(w + s + y, w + s + Short(y));
      SepStep(n, |w| + 1, SizeOf(a), SizeOf(b), SepExtra(y, seps[..n]), 2 * |s| + |y| + |Short(y)|);
    } else {
      TimesZero(|w| + 1, 2 * |seps|);
    }
  }

  lemma SepStep(n: nat, len: nat, za: int, zb: int, ea: int, eb: int)
    requires za == (2 * n) * len + ea && zb == 2 * len + eb
    ensures za + zb == (2 * (n + 1)) * len + (ea + eb)
  {
    MulSucc(n, 2 * len);
    assert (2 * (n + 1)) * len == 2 * ((n + 1) * len);
    assert (2 * n) * len == 2 * (n * len);
  }

  lemma {:induction false} WordYearLinesMeasure(w: string, ys: seq<string>, seps: seq<string>)
    ensures |WordYearLines(w, ys, seps)| == PerWord(ys, seps)
    ensures SizeOf(WordYearLines(w, ys, seps)) == PerWord(ys, seps) * (|w| + 1) + YearsExtra(ys, seps)
  {
    if ys != [] {
      var n := |ys| - 1;
      WordYearLinesMeasure(w, ys[..n], seps);
      SepLinesSize(w, ys[n], seps);
      SizeOfAppend(WordYearLines(w, ys[..n], seps), SepLines(w, ys[n], seps));
      MulSucc(n, 2 * |seps|);
      ScaleStep(n, 2 * |seps|, |w| + 1);
    }
  }

  /** The year stage writes 2·|years|·|separators| lines per word; its bytes are
      that many copies of every word with its '\n', plus the year and
      separator characters once per word. */
  lemma YearLinesMeasure(ws: seq<string>, ys: seq<string>, seps: seq<string>)
    ensures |YearLines(ws, ys, seps)| == |ws| * PerWord(ys, seps)
    ensures SizeOf(YearLines(ws, ys, seps)) == PerWord(ys, seps) * SizeOf(ws) + |ws| * YearsExtra(ys, seps)
  {
    forall w: string
      ensures |WordYearLines(w, ys, seps)| == PerWord(ys, seps)
      ensures SizeOf(WordYearLines(w, ys, seps)) == PerWord(ys, seps) * (|w| + 1) + YearsExtra(ys, seps)
    {
      WordYearLinesMeasure(w, ys, seps);
    }
    PerWordMeasure(ws, w => WordYearLines(w, ys, seps), PerWord(ys, seps), YearsExtra(ys, seps));
  }

  /** Bytes per year over all separators when every year has four characters. */
  function SepExtraFour(seps: seq<string>): nat
  {
    if seps == [] then 0 else SepExtraFour(seps[..|seps| - 1]) + (4 + |seps[|seps| - 1]|) + (2 + |seps[|seps| - 1]|)
  }

  /** With four-character years, every year adds the same bytes: its four
      digits, its two-digit short form, and the separator twice. */
  lemma {:induction false} YearsExtraFour(ys: seq<string>, seps: seq<string>)
    requires forall j :: 0 <= j < |ys| ==> |ys[j]| == 4
    ensures YearsExtra(ys, seps) == |ys| * SepExtraFour(seps)
  {
    if ys != [] {
      var n := |ys| - 1;
      YearsExtraFour(ys[..n], seps);
      SepExtraFourIs(ys[n], seps);
      MulSucc(n, SepExtraFour(seps));
    }
  }

  lemma {:induction false} SepExtraFourIs(y: string, seps: seq<string>)
    requires |y| == 4
    ensures SepExtra(y, seps) == SepExtraFour(seps)
  {
    if seps != [] {
      SepExtraFourIs(y, seps[..|seps| - 1]);
    }
  }

  lemma YearLinesNext(ws: seq<string>, j: nat, ys: seq<string>, seps: seq<string>)
    requires j < |ws|
    ensures YearLines(ws[..j + 1], ys, seps) == YearLines(ws[..j], ys, seps) + WordYearLines(ws[j], ys, seps)
  {
    assert ws[..j + 1][..j] == ws[..j];
  }
}
