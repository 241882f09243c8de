/** The checks `parse_arguments` applies to the keyword, numbering, year and
    padding options before the engine runs; `exit_with_msg` becomes an
    error result naming the message. */
module Validation {
  import opened Text
  import opened Lines

  datatype Option<T> = None | Some(value: T)

  /** The messages `parse_arguments` can exit with. */
  datatype Error =
    | DigitOnlyKeyword
    | LimitWithoutLevel
    | LevelNotPositive
    | IllegalYears
    | PaddingWithoutSide
    | PaddingFileMissing
    | IllegalPadding

  datatype Result<T> = Ok(value: T) | Err(error: Error)

  /** Python truthiness of an optional integer option: given and non-zero. */
  predicate Truthy(o: Option<int>)
  {
    o.Some? && o.value != 0
  }

  /** The keywords kept from the pieces: each stripped, empty ones skipped. */
  function Kept(parts: seq<string>): seq<string>
  {
    if parts == [] then []
    else
      var w := Strip(parts[|parts| - 1]);
      Kept(parts[..|parts| - 1]) + (if w != [] then [w] else [])
  }

  /** Every kept keyword is a non-empty stripped piece, and its own strip. */
  lemma {:induction false} KeptSound(parts: seq<string>, k: string)
    requires k in Kept(parts)
    ensures Strip(k) == k && k != []
    ensures exists i :: 0 <= i < |parts| && Strip(parts[i]) == k
  {
    var n := |parts| - 1;
    if k in Kept(parts[..n]) {
      KeptSound(parts[..n], k);
      var i :| 0 <= i < n && Strip(parts[..n][i]) == k;
      assert parts[i] == parts[..n][i];
    } else {
      assert Strip(parts[n]) == k;
    }
  }

  /** Every non-empty stripped piece is kept. */
  lemma {:induction false} KeptComplete(parts: seq<string>, i: nat)
    requires i < |parts| && Strip(parts[i]) != []
    ensures Strip(parts[i]) in Kept(parts)
  {
    var n := |parts| - 1;
    if i < n {
      KeptComplete(parts[..n], i);
      assert parts[..n][i] == parts[i];
    }
  }

  /** A keyword made of digits only, once stripped. */
  predicate DigitOnly(p: string)
  {
    IsDecimal(Strip(p))
  }

  /** Some piece is digit-only. */
  predicate AnyDigitOnly(parts: seq<string>)
  {
    parts != [] && (AnyDigitOnly(parts[..|parts| - 1]) || DigitOnly(parts[|parts| - 1]))
  }

  lemma {:induction false} AnyDigitOnlyIs(parts: seq<string>)
    ensures AnyDigitOnly(parts) <==> exists i :: 0 <= i < |parts| && DigitOnly(parts[i])
  {
    if parts != [] {
      var n := |parts| - 1;
      AnyDigitOnlyIs(parts[..n]);
      SomeSplit(parts);
    }
  }

  /** A digit-only piece is one of the initial pieces or the last one. */
  lemma SomeSplit(parts: seq<string>)
    requires parts != []
    ensures var n := |parts| - 1;
      (exists i :: 0 <= i < |parts| && DigitOnly(parts[i])) <==>
      (exists i :: 0 <= i < n && DigitOnly(parts[..n][i])) || DigitOnly(parts[n])
  {
    var n := |parts| - 1;
    if exists i :: 0 <= i < |parts| && DigitOnly(parts[i]) {
      var i :| 0 <= i < |parts| && DigitOnly(parts[i]);
      if i < n {
        assert parts[..n][i] == parts[i];
      }
    }
    if exists i :: 0 <= i < n && DigitOnly(parts[..n][i]) {
      var i :| 0 <= i < n && DigitOnly(parts[..n][i]);
      assert parts[..n][i] == parts[i];
    }
  }

  /** A digit-only piece among the first `j` is one among them all. */
  lemma {:induction false} DigitOnlyStays(parts: seq<string>, j: nat)
    requires j <= |parts| && AnyDigitOnly(parts[..j])
    ensures AnyDigitOnly(parts)
    decreases |parts| - j
  {
    if j < |parts| {
      assert parts[..j + 1][..j] == parts[..j];
      DigitOnlyStays(parts, j + 1);
    } else {
      assert parts[..j] == parts;
    }
  }

  /** The keyword loop over the pieces: strip each, reject a digit-only
      one, skip empty ones. */
  method KeepKeywords(parts: seq<string>) returns (r: Result<seq<string>>)
    ensures r.Err? <==> AnyDigitOnly(parts)
    ensures r.Err? ==> r.error == DigitOnlyKeyword
    ensures r.Ok? ==> r.value == Kept(parts)
  {
    var keywords: seq<string> := [];
    var j := 0;
    while j < |parts|
      invariant j <= |parts|
      invariant !AnyDigitOnly(parts[..j])
      invariant keywords == Kept(parts[..j])
    {
      var w := Strip(parts[j]);
      assert parts[..j + 1][..j] == parts[..j];
      if IsDecimal(w) {
        assert DigitOnly(parts[..j + 1][j]);
        DigitOnlyStays(parts, j + 1);
        return Err(DigitOnlyKeyword);
      }
      if w != [] {
        keywords := keywords + [w];
      }
      j := j + 1;
    }
    assert parts[..j] == parts;
    return Ok(keywords);
  }

  /** `-w`: split on commas, strip, reject a digit-only keyword, skip empty
      pieces. Every keyword is a non-empty, stripped, not digit-only piece,
      and every non-empty piece is a keyword. */
  method ParseKeywords(words: string) returns (r: Result<seq<string>>)
    ensures var parts := Split(words, ',');
      r.Err? <==> exists i :: 0 <= i < |parts| && DigitOnly(parts[i])
    ensures r.Err? ==> r.error == DigitOnlyKeyword
    ensures r.Ok? ==> forall k :: k in r.value ==> Strip(k) == k && k != [] && !IsDecimal(k)
    ensures var parts := Split(words, ',');
      r.Ok? ==> forall k :: k in r.value ==> exists i :: 0 <= i < |parts| && Strip(parts[i]) == k
    ensures var parts := Split(words, ',');
      r.Ok? ==> forall i :: 0 <= i < |parts| && Strip(parts[i]) != [] ==> Strip(parts[i]) in r.value
  {
    var parts := Split(words, ',');
    r := KeepKeywords(parts);
    AnyDigitOnlyIs(parts);
    if r.Ok? {
      forall k | k in r.value
        ensures Strip(k) == k && k != [] && !IsDecimal(k)
        ensures exists i :: 0 <= i < |parts| && Strip(parts[i]) == k
      {
        KeptSound(parts, k);
      }
      forall i | 0 <= i < |parts| && Strip(parts[i]) != [] ensures Strip(parts[i]) in r.value {
        KeptComplete(parts, i);
      }
    }
  }

  /** The numbering options in effect: the padding level (0 switches
      numbering off) and the counter limit. */
  datatype NumberingOptions = NumberingOptions(level: nat, limit: int)

  /** `-an` / `-nl`: a limit needs a (truthy) level, and a truthy level
      must be positive. A level of 0 is not truthy, so it passes and
      overrides the default. */
  function ResolveNumbering(level: Option<int>, limit: Option<int>): (r: Result<NumberingOptions>)
    ensures r.Err? <==> (Truthy(limit) && !Truthy(level)) || (level.Some? && level.value < 0)
    ensures r.Err? && Truthy(limit) && !Truthy(level) ==> r.error == LimitWithoutLevel
    ensures r.Ok? ==> r.value.level == (if level.Some? then level.value else 1)
    ensures r.Ok? ==> r.value.limit == (if limit.Some? then limit.value else 50)
  {
    if Truthy(limit) && !Truthy(level) then Err(LimitWithoutLevel)
    else if Truthy(level) && level.value <= 0 then Err(LevelNotPositive)
    else
      Ok(NumberingOptions(if level.Some? then level.value else 1, if limit.Some? then limit.value else 50))
  }

  /** `-an 0` passes validation and switches numbering off, although the
      help text asks for a level of at least 1. */
  lemma LevelZeroAccepted(limit: Option<int>)
    requires !Truthy(limit)
    ensures ResolveNumbering(Some(0), limit).Ok? && ResolveNumbering(Some(0), limit).value.level == 0
  {
  }

  /** One year of the comma-separated form. */
  predicate YearOk(y: string)
  {
    Strip(y) != [] && IsDecimal(y) && 1000 <= Value(y) <= 3200
  }

  /** Every piece of the comma-separated form is a year. */
  predicate AllYears(parts: seq<string>)
  {
    forall i :: 0 <= i < |parts| ==> YearOk(parts[i])
  }

  /** The `a-b` form: both ends decimal, `a < b`, inside 1000..3200. */
  predicate RangeOk(a: string, b: string)
  {
    IsDecimal(a) && IsDecimal(b) && Value(a) < Value(b) && Value(a) >= 1000 && Value(b) <= 3200
  }

  /** A number in 1000..3200 has four decimal digits. */
  lemma YearDigits(y: nat)
    requires 1000 <= y <= 3200
    ensures |Dec(y)| == 4 && IsDecimal(Dec(y)) && Value(Dec(y)) == y
  {
    DecValue(y);
    assert Pow10(3) == 1000 && Pow10(4) == 10000;
    if |Dec(y)| < 4 {
      PowMono(|Dec(y)|, 3);
    }
    if |Dec(y)| > 4 {
      PowMono(4, |Dec(y)| - 1);
    }
  }

  lemma {:induction false} PowMono(a: nat, b: nat)
    requires a <= b
    ensures Pow10(a) <= Pow10(b)
    decreases b
  {
    if a < b {
      PowMono(a, b - 1);
    }
  }

  /** The years from `a` to `b`, in ascending order. */
  method YearRange(a: nat, b: nat) returns (years: seq<string>)
    requires 1000 <= a <= b <= 3200
    ensures |years| == b - a + 1
    ensures forall i :: 0 <= i < |years| ==> years[i] == Dec(a + i) && |years[i]| == 4
  {
    years := [];
    var y := a;
    while y <= b
      invariant a <= y <= b + 1
      invariant |years| == y - a
      invariant forall i :: 0 <= i < |years| ==> years[i] == Dec(a + i) && |years[i]| == 4
    {
      YearDigits(y);
      years := years + [Dec(y)];
      y := y + 1;
    }
  }

  /** The comma-separated form: every piece must be a year, and the pieces
      are kept as written. */
  method YearList(parts: seq<string>) returns (r: Result<seq<string>>)
    ensures r.Err? ==> r.error == IllegalYears
    ensures r.Ok? <==> AllYears(parts)
    ensures r.Ok? ==> r.value == parts
  {
    var years: seq<string> := [];
    var j := 0;
    while j < |parts|
      invariant j <= |parts|
      invariant years == parts[..j]
      invariant forall i :: 0 <= i < j ==> YearOk(parts[i])
    {
      var year := parts[j];
      if Strip(year) != [] && IsDecimal(year) && 1000 <= Value(year) <= 3200 {
        years := years + [year];
      } else {
        assert !YearOk(parts[j]);
        return Err(IllegalYears);
      }
      j := j + 1;
    }
    assert parts[..j] == parts;
    return Ok(years);
  }

  /** The `a-b` form: the years from `a` to `b` when both ends are decimal,
      `a < b` and both lie in 1000..3200. */
  method YearSpan(startYear: string, endYear: string) returns (r: Result<seq<string>>)
    ensures r.Err? ==> r.error == IllegalYears
    ensures r.Ok? <==> RangeOk(startYear, endYear)
    ensures r.Ok? ==> |r.value| == Value(endYear) - Value(startYear) + 1
    ensures r.Ok? ==> forall i :: 0 <= i < |r.value| ==>
              r.value[i] == Dec(Value(startYear) + i) && |r.value[i]| == 4 &&
              IsDecimal(r.value[i]) && Value(r.value[i]) == Value(startYear) + i
  {
    if IsDecimal(startYear) && IsDecimal(endYear) && Value(startYear) < Value(endYear)
       && Value(startYear) >= 1000 && Value(endYear) <= 3200 {
      var years := YearRange(Value(startYear), Value(endYear));
      forall i | 0 <= i < |years| ensures IsDecimal(years[i]) && Value(years[i]) == Value(startYear) + i {
        YearDigits(Value(startYear) + i);
      }
      return Ok(years);
    } else {
      return Err(IllegalYears);
    }
  }

  /** `-y`: a single year, a comma-separated list, or an `a-b` range. Every
      accepted year is decimal with value in 1000..3200; a range yields the
      consecutive four-digit years from `a` to `b`. */
  method ParseYears(s: string) returns (r: Result<seq<string>>)
    ensures r.Err? ==> r.error == IllegalYears
    ensures r.Ok? ==> forall y :: y in r.value ==> IsDecimal(y) && 1000 <= Value(y) <= 3200
    ensures s == [] ==> r == Ok([])
    ensures s != [] && Count(s, ',') == 0 && Count(s, '-') == 0 ==> r == (if YearOk(s) then Ok([s]) else Err(IllegalYears))
    ensures Count(s, ',') > 0 ==>
              var parts := Split(s, ',');
              (r.Ok? <==> AllYears(parts)) && (r.Ok? ==> r.value == parts)
    ensures Count(s, ',') == 0 && Count(s, '-') == 1 ==>
              var p := Split(s, '-');
              (r.Ok? <==> RangeOk(p[0], p[1])) &&
              (r.Ok? ==> |r.value| == Value(p[1]) - Value(p[0]) + 1 &&
                         forall i :: 0 <= i < |r.value| ==> r.value[i] == Dec(Value(p[0]) + i) && |r.value[i]| == 4)
    ensures Count(s, ',') == 0 && Count(s, '-') > 1 ==> r.Err?
  {
    if s == [] {
      return Ok([]);
    }
    if Count(s, ',') == 0 && Count(s, '-') == 0 && IsDecimal(s) && 1000 <= Value(s) <= 3200 {
      return Ok([s]);
    } else if Count(s, ',') > 0 {
      var parts := Split(s, ',');
      r := YearList(parts);
    } else if Count(s, '-') == 1 {
      var parts := Split(s, '-');
      r := YearSpan(parts[0], parts[1]);
    } else {
      return Err(IllegalYears);
    }
  }

  /** `[val.strip() for val in content]`. */
  function StripAll(lines: seq<string>): (r: seq<string>)
    ensures |r| == |lines| && forall i :: 0 <= i < |r| ==> r[i] == Strip(lines[i])
  {
    seq(|lines|, i requires 0 <= i < |lines| => Strip(lines[i]))
  }

  /** The non-blank pieces. */
  function NonBlank(parts: seq<string>): set<string>
  {
    set v | v in parts && Strip(v) != []
  }

  /** The `-ap` values `parse_arguments` adds. */
  function Appended(ap: Option<string>): set<string>
  {
    if ap.Some? && ap.value != [] then NonBlank(Split(ap.value, ',')) else {}
  }

  lemma NonBlankNext(parts: seq<string>, j: nat)
    requires j < |parts|
    ensures NonBlank(parts[..j + 1]) == NonBlank(parts[..j]) + (if Strip(parts[j]) != [] then {parts[j]} else {})
  {
    assert parts[..j + 1] == parts[..j] + [parts[j]];
  }

  lemma AppendOne(ls: seq<string>, x: string)
    requires x !in ls
    ensures Elems(ls + [x]) == Elems(ls) + {x}
    ensures NoDups(ls) ==> NoDups(ls + [x])
  {
  }

  /** The `-ap` loop: each non-blank piece not yet in the list is appended. */
  method AppendPaddings(pads: seq<string>, parts: seq<string>) returns (pads': seq<string>)
    ensures Elems(pads') == Elems(pads) + NonBlank(parts)
    ensures NoDups(pads) ==> NoDups(pads')
  {
    pads' := pads;
    var j := 0;
    while j < |parts|
      invariant j <= |parts|
      invariant Elems(pads') == Elems(pads) + NonBlank(parts[..j])
      invariant NoDups(pads) ==> NoDups(pads')
    {
      var val := parts[j];
      NonBlankNext(parts, j);
      if Strip(val) != [] && val !in pads' {
        AppendOne(pads', val);
        pads' := pads' + [val];
      }
      j := j + 1;
    }
    assert parts[..j] == parts;
  }

  /** The common padding list: the stripped lines of the padding file
      unless only custom paddings are wanted (`fileLines` is `None` when
      the file cannot be opened), plus the non-blank `-ap` values, without
      repetitions once a padding side is on. */
  method AssemblePaddings(customOnly: bool, ap: Option<string>, before: bool, after: bool,
                          fileLines: Option<seq<string>>) returns (r: Result<seq<string>>)
    ensures var side, given := before || after, ap.Some? && ap.value != [];
      r.Err? <==> ((customOnly || given) && !side) || (side && !customOnly && fileLines.None?) || (side && customOnly && !given)
    ensures r.Err? && (customOnly || (ap.Some? && ap.value != [])) && !(before || after) ==> r.error == PaddingWithoutSide
    ensures r.Ok? && !(before || after) ==> r.value == []
    ensures r.Ok? && (before || after) ==> NoDups(r.value)
    ensures r.Ok? && (before || after) ==>
              Elems(r.value) == (if customOnly then {} else Elems(StripAll(fileLines.value))) + Appended(ap)
  {
    var side := before || after;
    var given := ap.Some? && ap.value != [];
    var pads: seq<string>;
    if (customOnly || given) && !side {
      return Err(PaddingWithoutSide);
    } else if side && !customOnly {
      if fileLines.None? {
        return Err(PaddingFileMissing);
      }
      pads := StripAll(fileLines.value);
    } else if side && customOnly && given {
      pads := [];
    } else if !side {
      pads := [];
    } else {
      return Err(IllegalPadding);
    }
    if given {
      pads := AppendPaddings(pads, Split(ap.value, ','));
    }
    if side {
      pads := Dedup(pads);
    }
    return Ok(pads);
  }
}
