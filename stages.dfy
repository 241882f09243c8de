/** Everything written for one keyword after its basic mutations, stage by
    stage in the order the main loop runs them, and the closed form of its
    line count and byte size. */
module Stages {
  import opened Settings
  import opened Lines
  import opened Numbering
  import opened Years
  import opened Paddings

  /** The padding stages run only with usable tokens: `check_underscore`
      indexes the token's first or last character. */
  predicate PaddingsReady(cfg: Config)
  {
    cfg.paddingsAfter || cfg.customPaddingsOnly || cfg.paddingsBefore ==> NonEmpty(cfg.commonPaddings)
  }

  predicate PadsAfterOn(cfg: Config) { cfg.paddingsAfter || cfg.customPaddingsOnly }

  /** The basic mutations once `mutate_years` has appended its lines to them. */
  function Extended(cfg: Config, b: seq<string>): seq<string>
  {
    if |cfg.years| > 0 then b + YearLines(b, cfg.years, cfg.yearSeparators) else b
  }

  /** The lines written for one keyword whose deduplicated basic mutations
      are `b`: `b` itself, then numbering, years, "after" and "before" paddings. */
  function KeywordLines(cfg: Config, b: seq<string>): seq<string>
    requires PaddingsReady(cfg)
  {
    var (num, yrs, aft, bef) := Parts(cfg, b);
    b + num + yrs + aft + bef
  }

  /** What each stage writes after the basic mutations themselves; the
      padding stages work on the basic mutations with the year lines in them. */
  function Parts(cfg: Config, b: seq<string>): (seq<string>, seq<string>, seq<string>, seq<string>)
    requires PaddingsReady(cfg)
  {
    var ext := Extended(cfg, b);
    (if cfg.appendNumbering > 0 then NumberingLines(b, cfg.appendNumbering, Counters(cfg.numberingLimit)) else [],
     if |cfg.years| > 0 then YearLines(b, cfg.years, cfg.yearSeparators) else [],
     if PadsAfterOn(cfg) then PadAfter(ext, cfg.commonPaddings) else [],
     if cfg.paddingsBefore then PadBefore(ext, cfg.commonPaddings) else [])
  }

  /** The keyword's lines after earlier output `o`, stage by stage. */
  lemma KeywordLinesAfter(cfg: Config, o: seq<string>, b: seq<string>)
    requires PaddingsReady(cfg)
    ensures o + KeywordLines(cfg, b) == o + b + Parts(cfg, b).0 + Parts(cfg, b).1 + Parts(cfg, b).2 + Parts(cfg, b).3
  {
  }

  /** Lines each basic mutation gets from the year stage. */
  function YearsPerWord(cfg: Config): nat
  {
    if |cfg.years| > 0 then PerWord(cfg.years, cfg.yearSeparators) else 0
  }

  /** How many padding stages run. */
  function Sides(cfg: Config): nat
  {
    (if PadsAfterOn(cfg) then 1 else 0) + (if cfg.paddingsBefore then 1 else 0)
  }

  /** Number of lines for `m` basic mutations. */
  function KeywordCount(cfg: Config, m: nat): int
  {
    var ext := m + m * YearsPerWord(cfg);
    m
    + (if cfg.appendNumbering > 0 then m * (2 * PerWordCount(cfg.appendNumbering, Counters(cfg.numberingLimit))) else 0)
    + m * YearsPerWord(cfg)
    + Sides(cfg) * (ext * (2 * |cfg.commonPaddings|))
  }

  /** Bytes of the year lines for `m` basic mutations of length `n`. */
  function YearsSize(cfg: Config, m: nat, n: nat): int
  {
    if |cfg.years| > 0 then YearsPerWord(cfg) * (m * (n + 1)) + m * YearsExtra(cfg.years, cfg.yearSeparators) else 0
  }

  /** Number of bytes for `m` basic mutations of length `n`. */
  function KeywordSize(cfg: Config, m: nat, n: nat): int
  {
    var ext := m + m * YearsPerWord(cfg);
    var extSize := m * (n + 1) + YearsSize(cfg, m, n);
    m * (n + 1)
    + (if cfg.appendNumbering > 0 then m * PerWordSize(n, cfg.appendNumbering, Counters(cfg.numberingLimit)) else 0)
    + YearsSize(cfg, m, n)
    + Sides(cfg) * ((2 * |cfg.commonPaddings|) * extSize + ext * PadsExtra(cfg.commonPaddings))
  }

  /** The basic mutations with the year lines appended, measured. */
  lemma ExtendedMeasure(cfg: Config, b: seq<string>, n: nat)
    requires forall j :: 0 <= j < |b| ==> |b[j]| == n
    ensures |Extended(cfg, b)| == |b| + |b| * YearsPerWord(cfg)
    ensures SizeOf(Extended(cfg, b)) == |b| * (n + 1) + YearsSize(cfg, |b|, n)
    ensures SizeOf(b) == |b| * (n + 1)
  {
    SizeOfUniform(b, n);
    if |cfg.years| > 0 {
      YearLinesMeasure(b, cfg.years, cfg.yearSeparators);
      SizeOfAppend(b, YearLines(b, cfg.years, cfg.yearSeparators));
    }
  }

  /** With no underscore at a joining end of any token, a padding stage
      writes two lines per token and word. */
  lemma PadMeasure(cfg: Config, ext: seq<string>, after: bool)
    requires EstimateExact(cfg)
    requires after ==> PadsAfterOn(cfg)
    requires !after ==> cfg.paddingsBefore
    ensures NonEmpty(cfg.commonPaddings)
    ensures var ls := if after then PadAfter(ext, cfg.commonPaddings) else PadBefore(ext, cfg.commonPaddings);
      |ls| == |ext| * (2 * |cfg.commonPaddings|) &&
      SizeOf(ls) == (2 * |cfg.commonPaddings|) * SizeOf(ext) + |ext| * PadsExtra(cfg.commonPaddings)
  {
    if after {
      PadAfterMeasure(ext, cfg.commonPaddings);
    } else {
      PadBeforeMeasure(ext, cfg.commonPaddings);
    }
  }

  /** The stages' pieces of the keyword's lines, measured one by one. */
  lemma PiecesMeasure(cfg: Config, b: seq<string>, n: nat)
    requires EstimateExact(cfg)
    requires forall j :: 0 <= j < |b| ==> |b[j]| == n
    ensures PaddingsReady(cfg)
    ensures var lvl, limit := cfg.appendNumbering, Counters(cfg.numberingLimit);
      && |Parts(cfg, b).0| == (if lvl > 0 then |b| * (2 * PerWordCount(lvl, limit)) else 0)
      && SizeOf(Parts(cfg, b).0) == (if lvl > 0 then |b| * PerWordSize(n, lvl, limit) else 0)
    ensures |Parts(cfg, b).1| == |b| * YearsPerWord(cfg) && SizeOf(Parts(cfg, b).1) == YearsSize(cfg, |b|, n)
    ensures var ext := Extended(cfg, b);
      && |Parts(cfg, b).2| + |Parts(cfg, b).3| == Sides(cfg) * (|ext| * (2 * |cfg.commonPaddings|))
      && SizeOf(Parts(cfg, b).2) + SizeOf(Parts(cfg, b).3) ==
         Sides(cfg) * ((2 * |cfg.commonPaddings|) * SizeOf(ext) + |ext| * PadsExtra(cfg.commonPaddings))
  {
    NumberingPart(cfg, b, n);
    YearsPart(cfg, b, n);
    PaddingPart(cfg, b);
  }

  lemma NumberingPart(cfg: Config, b: seq<string>, n: nat)
    requires EstimateExact(cfg)
    requires forall j :: 0 <= j < |b| ==> |b[j]| == n
    ensures PaddingsReady(cfg)
    ensures var lvl, limit := cfg.appendNumbering, Counters(cfg.numberingLimit);
      && |Parts(cfg, b).0| == (if lvl > 0 then |b| * (2 * PerWordCount(lvl, limit)) else 0)
      && SizeOf(Parts(cfg, b).0) == (if lvl > 0 then |b| * PerWordSize(n, lvl, limit) else 0)
  {
    PaddingPiece(cfg, []);
    NumberingPiece(cfg, b, n);
  }

  lemma YearsPart(cfg: Config, b: seq<string>, n: nat)
    requires EstimateExact(cfg)
    requires forall j :: 0 <= j < |b| ==> |b[j]| == n
    ensures PaddingsReady(cfg)
    ensures |Parts(cfg, b).1| == |b| * YearsPerWord(cfg) && SizeOf(Parts(cfg, b).1) == YearsSize(cfg, |b|, n)
  {
    PaddingPiece(cfg, []);
    YearsPiece(cfg, b, n);
  }

  lemma PaddingPart(cfg: Config, b: seq<string>)
    requires EstimateExact(cfg)
    ensures PaddingsReady(cfg)
    ensures var ext := Extended(cfg, b);
      && |Parts(cfg, b).2| + |Parts(cfg, b).3| == Sides(cfg) * (|ext| * (2 * |cfg.commonPaddings|))
      && SizeOf(Parts(cfg, b).2) + SizeOf(Parts(cfg, b).3) ==
         Sides(cfg) * ((2 * |cfg.commonPaddings|) * SizeOf(ext) + |ext| * PadsExtra(cfg.commonPaddings))
  {
    PaddingPiece(cfg, Extended(cfg, b));
  }

  lemma NumberingPiece(cfg: Config, b: seq<string>, n: nat)
    requires forall j :: 0 <= j < |b| ==> |b[j]| == n
    ensures var lvl, limit := cfg.appendNumbering, Counters(cfg.numberingLimit);
      var num := if lvl > 0 then NumberingLines(b, lvl, limit) else [];
      && |num| == (if lvl > 0 then |b| * (2 * PerWordCount(lvl, limit)) else 0)
      && SizeOf(num) == (if lvl > 0 then |b| * PerWordSize(n, lvl, limit) else 0)
  {
    if cfg.appendNumbering > 0 {
      NumberingMeasure(b, n, cfg.appendNumbering, Counters(cfg.numberingLimit));
    }
  }

  lemma YearsPiece(cfg: Config, b: seq<string>, n: nat)
    requires forall j :: 0 <= j < |b| ==> |b[j]| == n
    ensures var yrs := if |cfg.years| > 0 then YearLines(b, cfg.years, cfg.yearSeparators) else [];
      |yrs| == |b| * YearsPerWord(cfg) && SizeOf(yrs) == YearsSize(cfg, |b|, n)
  {
    SizeOfUniform(b, n);
    if |cfg.years| > 0 {
      YearLinesMeasure(b, cfg.years, cfg.yearSeparators);
    }
  }

  lemma PaddingPiece(cfg: Config, ext: seq<string>)
    requires EstimateExact(cfg)
    ensures PaddingsReady(cfg)
    ensures var aft := if PadsAfterOn(cfg) then PadAfter(ext, cfg.commonPaddings) else [];
      var bef := if cfg.paddingsBefore then PadBefore(ext, cfg.commonPaddings) else [];
      && |aft| + |bef| == Sides(cfg) * (|ext| * (2 * |cfg.commonPaddings|))
      && SizeOf(aft) + SizeOf(bef) ==
         Sides(cfg) * ((2 * |cfg.commonPaddings|) * SizeOf(ext) + |ext| * PadsExtra(cfg.commonPaddings))
  {
    var pads := cfg.commonPaddings;
    var aft := if PadsAfterOn(cfg) then PadAfter(ext, pads) else [];
    var bef := if cfg.paddingsBefore then PadBefore(ext, pads) else [];
    if PadsAfterOn(cfg) {
      PadMeasure(cfg, ext, true);
    }
    if cfg.paddingsBefore {
      PadMeasure(cfg, ext, false);
    }
    SidesSum(cfg, |ext| * (2 * |pads|), |aft|, |bef|);
    SidesSum(cfg, (2 * |pads|) * SizeOf(ext) + |ext| * PadsExtra(pads), SizeOf(aft), SizeOf(bef));
  }

  /** For basic mutations of one length, the lines and bytes written for a
      keyword depend only on how many there are and how long they are. */
  lemma KeywordMeasure(cfg: Config, b: seq<string>, n: nat)
    requires EstimateExact(cfg)
    requires forall j :: 0 <= j < |b| ==> |b[j]| == n
    ensures PaddingsReady(cfg)
    ensures |KeywordLines(cfg, b)| == KeywordCount(cfg, |b|)
    ensures SizeOf(KeywordLines(cfg, b)) == KeywordSize(cfg, |b|, n)
  {
    KeywordCountOf(cfg, b, n);
    KeywordSizeOf(cfg, b, n);
  }

  lemma KeywordCountOf(cfg: Config, b: seq<string>, n: nat)
    requires EstimateExact(cfg)
    requires forall j :: 0 <= j < |b| ==> |b[j]| == n
    ensures PaddingsReady(cfg)
    ensures var (num, yrs, aft, bef) := Parts(cfg, b); |b + num + yrs + aft + bef| == KeywordCount(cfg, |b|)
  {
    ExtendedMeasure(cfg, b, n);
    PiecesMeasure(cfg, b, n);
    var (num, yrs, aft, bef) := Parts(cfg, b);
    CountSum(cfg, |b|, |num|, |yrs|, |Extended(cfg, b)|, |aft| + |bef|);
  }

  lemma KeywordSizeOf(cfg: Config, b: seq<string>, n: nat)
    requires EstimateExact(cfg)
    requires forall j :: 0 <= j < |b| ==> |b[j]| == n
    ensures PaddingsReady(cfg)
    ensures var (num, yrs, aft, bef) := Parts(cfg, b); SizeOf(b + num + yrs + aft + bef) == KeywordSize(cfg, |b|, n)
  {
    var ext := Extended(cfg, b);
    ExtendedMeasure(cfg, b, n);
    PiecesMeasure(cfg, b, n);
    var (num, yrs, aft, bef) := Parts(cfg, b);
    SizeOfAppend(b, num);
    SizeOfAppend(b + num, yrs);
    SizeOfAppend(b + num + yrs, aft);
    SizeOfAppend(b + num + yrs + aft, bef);
    SizeSum(cfg, |b|, n, SizeOf(b), SizeOf(num), SizeOf(yrs), |ext|, SizeOf(ext), SizeOf(aft) + SizeOf(bef));
  }

  lemma CountSum(cfg: Config, m: nat, num: int, yrs: int, ext: int, pads: int)
    requires num == (if cfg.appendNumbering > 0 then m * (2 * PerWordCount(cfg.appendNumbering, Counters(cfg.numberingLimit))) else 0)
    requires yrs == m * YearsPerWord(cfg)
    requires ext == m + m * YearsPerWord(cfg)
    requires pads == Sides(cfg) * (ext * (2 * |cfg.commonPaddings|))
    ensures m + num + yrs + pads == KeywordCount(cfg, m)
  {
  }

  lemma SizeSum(cfg: Config, m: nat, n: nat, base: int, num: int, yrs: int, ext: int, extSize: int, pads: int)
    requires base == m * (n + 1)
    requires num == (if cfg.appendNumbering > 0 then m * PerWordSize(n, cfg.appendNumbering, Counters(cfg.numberingLimit)) else 0)
    requires yrs == YearsSize(cfg, m, n)
    requires ext == m + m * YearsPerWord(cfg)
    requires extSize == m * (n + 1) + YearsSize(cfg, m, n)
    requires pads == Sides(cfg) * ((2 * |cfg.commonPaddings|) * extSize + ext * PadsExtra(cfg.commonPaddings))
    ensures base + num + yrs + pads == KeywordSize(cfg, m, n)
  {
  }

  lemma SidesSum(cfg: Config, x: int, a: int, b: int)
    requires a == (if PadsAfterOn(cfg) then x else 0)
    requires b == (if cfg.paddingsBefore then x else 0)
    ensures a + b == Sides(cfg) * x
  {
  }
}
