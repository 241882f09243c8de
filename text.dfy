/** Character classes, case mapping, stripping, splitting and decimal
    rendering as Python's `str` methods do them, restricted to ASCII. */
module Text {

  predicate IsDigit(c: char) { '0' <= c <= '9' }
  predicate IsUpperLetter(c: char) { 'A' <= c <= 'Z' }
  predicate IsLowerLetter(c: char) { 'a' <= c <= 'z' }

  /** `str.isalpha` on one ASCII character. */
  predicate IsAlpha(c: char) { IsUpperLetter(c) || IsLowerLetter(c) }

  /** Python's whitespace among the ASCII characters (`str.strip` with no argument). */
  predicate IsSpace(c: char) { c == ' ' || 9 <= c as int <= 13 || 28 <= c as int <= 31 }

  function Upper(c: char): (r: char)
    ensures IsLowerLetter(c) ==> IsUpperLetter(r) && r != c
    ensures !IsLowerLetter(c) ==> r == c
  {
    if IsLowerLetter(c) then (c as int - 32) as char else c
  }

  function Lower(c: char): (r: char)
    ensures IsUpperLetter(c) ==> IsLowerLetter(r) && r != c
    ensures !IsUpperLetter(c) ==> r == c
  {
    if IsUpperLetter(c) then (c as int + 32) as char else c
  }

  /** The two cases of a character differ exactly when it is a letter. */
  lemma CasesDiffer(c: char)
    ensures Upper(c) != Lower(c) <==> IsAlpha(c)
    ensures Lower(Upper(c)) == Lower(c) && Upper(Lower(c)) == Upper(c)
  {
  }

  function UpperStr(s: string): string { seq(|s|, i requires 0 <= i < |s| => Upper(s[i])) }
  function LowerStr(s: string): string { seq(|s|, i requires 0 <= i < |s| => Lower(s[i])) }

  /** `str.isdecimal`: non-empty and digits only. */
  predicate IsDecimal(s: string) { |s| > 0 && forall i :: 0 <= i < |s| ==> IsDigit(s[i]) }

  /** `s.count(c)` for a one-character pattern. */
  function Count(s: string, c: char): (n: nat)
    ensures n <= |s|
    ensures n == 0 <==> c !in s
  {
    if s == [] then 0 else (if s[0] == c then 1 else 0) + Count(s[1..], c)
  }

  /** `str.lstrip()`: drops leading whitespace only. */
  function StripLeft(s: string): (r: string)
    ensures |r| <= |s|
    ensures r == [] || !IsSpace(r[0])
    ensures r != [] ==> r[|r| - 1] == s[|s| - 1]
    ensures s == [] || !IsSpace(s[0]) ==> r == s
  {
    if s != [] && IsSpace(s[0]) then StripLeft(s[1..]) else s
  }

  /** `str.rstrip()`: drops trailing whitespace only. */
  function StripRight(s: string): (r: string)
    ensures |r| <= |s|
    ensures r == [] || !IsSpace(r[|r| - 1])
    ensures r != [] ==> r[0] == s[0]
    ensures s == [] || !IsSpace(s[|s| - 1]) ==> r == s
  {
    if s != [] && IsSpace(s[|s| - 1]) then StripRight(s[..|s| - 1]) else s
  }

  /** `str.strip()`: the result neither starts nor ends with whitespace, is
      no longer than `s`, and is `s` itself when `s` has no whitespace to cut. */
  function Strip(s: string): (r: string)
    ensures |r| <= |s|
    ensures r == [] || (!IsSpace(r[0]) && !IsSpace(r[|r| - 1]))
    ensures s == [] || (!IsSpace(s[0]) && !IsSpace(s[|s| - 1])) ==> r == s
  {
    StripRight(StripLeft(s))
  }

  /** `lstrip` cuts a prefix of whitespace, `s[..p]`, and nothing else. */
  lemma {:induction false} StripLeftCut(s: string) returns (p: nat)
    ensures p <= |s| && StripLeft(s) == s[p..]
    ensures forall i :: 0 <= i < p ==> IsSpace(s[i])
    decreases |s|
  {
    if s != [] && IsSpace(s[0]) {
      var t := s[1..];
      var p' := StripLeftCut(t);
      assert t[p'..] == s[p' + 1..];
      forall i | 0 <= i < p' + 1 ensures IsSpace(s[i]) {
        if i > 0 {
          assert s[i] == t[i - 1];
        }
      }
      p := p' + 1;
    } else {
      assert s == s[0..];
      p := 0;
    }
  }

  /** `rstrip` cuts a suffix of whitespace, `s[q..]`, and nothing else. */
  lemma {:induction false} StripRightCut(s: string) returns (q: nat)
    ensures q <= |s| && StripRight(s) == s[..q]
    ensures forall i :: q <= i < |s| ==> IsSpace(s[i])
    decreases |s|
  {
    if s != [] && IsSpace(s[|s| - 1]) {
      var t := s[..|s| - 1];
      q := StripRightCut(t);
      assert t[..q] == s[..q];
      forall i | q <= i < |s| ensures IsSpace(s[i]) {
        if i < |t| {
          assert s[i] == t[i];
        }
      }
    } else {
      assert s == s[..|s|];
      q := |s|;
    }
  }

  lemma SliceOfSuffix(s: string, p: nat, q: nat)
    requires p + q <= |s|
    ensures s[p..][..q] == s[p..p + q]
  {
  }

  /** `strip` keeps one contiguous slice of `s` and cuts only whitespace
      around it; with the guarantees on `Strip` itself (the slice neither
      starts nor ends with whitespace) this pins the slice down exactly. */
  lemma StripIsTrim(s: string)
    ensures exists p, q :: 0 <= p <= q <= |s| && Strip(s) == s[p..q] &&
              (forall i :: 0 <= i < p ==> IsSpace(s[i])) &&
              (forall i :: q <= i < |s| ==> IsSpace(s[i]))
  {
    var p := StripLeftCut(s);
    var l := s[p..];
    var n := StripRightCut(l);
    SliceOfSuffix(s, p, n);
    var q := p + n;
    forall i | q <= i < |s| ensures IsSpace(s[i]) {
      assert s[i] == l[i - p];
    }
    assert Strip(s) == s[p..q];
  }

  /** The pieces of `s.split(sep)` joined back with `sep`. */
  function Join(parts: seq<string>, sep: char): string
    requires |parts| > 0
  {
    if |parts| == 1 then parts[0] else parts[0] + [sep] + Join(parts[1..], sep)
  }

  /** `s.split(sep)` for a one-character separator: one piece more than there
      are separators, no piece contains the separator, and joining the pieces
      gives `s` back. */
  function Split(s: string, sep: char): (parts: seq<string>)
    ensures |parts| == Count(s, sep) + 1
  {
    if s == [] then [[]]
    else
      var rest := Split(s[1..], sep);
      if s[0] == sep then
        [[]] + rest
      else
        assert s == [s[0]] + s[1..];
        [[s[0]] + rest[0]] + rest[1..]
  }

  /** No piece of `s.split(sep)` contains the separator. */
  lemma {:induction false} SplitNoSep(s: string, sep: char)
    ensures forall p :: p in Split(s, sep) ==> sep !in p
  {
    if s != [] {
      SplitNoSep(s[1..], sep);
      var rest := Split(s[1..], sep);
      assert s == [s[0]] + s[1..];
      if s[0] != sep {
        var parts := Split(s, sep);
        assert parts[1..] == rest[1..];
        forall p | p in parts ensures sep !in p {
          if p != parts[0] {
            assert p in rest[1..];
          }
        }
      }
    }
  }

  /** Joining the pieces of `s.split(sep)` with `sep` gives `s` back. */
  lemma {:induction false} SplitJoin(s: string, sep: char)
    ensures Join(Split(s, sep), sep) == s
  {
    if s != [] {
      SplitJoin(s[1..], sep);
      var rest := Split(s[1..], sep);
      var parts := Split(s, sep);
      assert s == [s[0]] + Join(rest, sep);
      if s[0] == sep {
        assert parts == [[]] + rest && parts[1..] == rest;
        assert Join(parts, sep) == [] + [sep] + Join(rest, sep);
      } else if |rest| == 1 {
        assert parts == [[s[0]] + rest[0]];
      } else {
        assert parts[1..] == rest[1..];
        assert Join(parts, sep) == ([s[0]] + rest[0]) + [sep] + Join(rest[1..], sep);
        assert Join(rest, sep) == rest[0] + [sep] + Join(rest[1..], sep);
      }
    }
  }

  function DigitChar(d: nat): char
    requires d < 10
  {
    ('0' as int + d) as char
  }

  function DigitValue(c: char): nat
    requires IsDigit(c)
  {
    c as int - '0' as int
  }

  /** `str(n)` for a non-negative integer. */
  function Dec(n: nat): string
  {
    if n < 10 then [DigitChar(n)] else Dec(n / 10) + [DigitChar(n % 10)]
  }

  /** `int(s)` for a string of decimal digits. */
  function Value(s: string): nat
    requires forall i :: 0 <= i < |s| ==> IsDigit(s[i])
  {
    if s == [] then 0 else 10 * Value(s[..|s| - 1]) + DigitValue(s[|s| - 1])
  }

  function Pow10(e: nat): (r: nat)
    ensures r >= 1
  {
    if e == 0 then 1 else 10 * Pow10(e - 1)
  }

  /** `str(n)` is a decimal string whose value is `n`, with no leading zero,
      and it has exactly the number of digits `n` needs. */
  lemma {:induction false} DecValue(n: nat)
    ensures IsDecimal(Dec(n)) && Value(Dec(n)) == n
    ensures Dec(n)[0] == '0' ==> n == 0
    ensures n < Pow10(|Dec(n)|)
    ensures |Dec(n)| > 1 ==> Pow10(|Dec(n)| - 1) <= n
  {
    if n >= 10 {
      DecValue(n / 10);
      var s := Dec(n);
      assert s[..|s| - 1] == Dec(n / 10);
    }
  }

  /** Distinct numbers have distinct renderings. */
  lemma DecInjective(m: nat, n: nat)
    requires Dec(m) == Dec(n)
    ensures m == n
  {
    DecValue(m);
    DecValue(n);
  }

  /** The decimal value of `s` followed by `p` zeros. */
  lemma {:induction false} ValueZerosAfter(s: string, p: nat)
    requires forall i :: 0 <= i < |s| ==> IsDigit(s[i])
    ensures forall i :: 0 <= i < |s + Zeros(p)| ==> IsDigit((s + Zeros(p))[i])
    ensures Value(s + Zeros(p)) == Value(s) * Pow10(p)
  {
    if p > 0 {
      ValueZerosAfter(s, p - 1);
      var t := s + Zeros(p);
      assert t[..|t| - 1] == s + Zeros(p - 1);
      assert t[|t| - 1] == '0' && DigitValue('0') == 0;
      assert Value(t) == 10 * Value(s + Zeros(p - 1));
      TenTimes(Value(s), Pow10(p - 1));
    } else {
      assert s + Zeros(p) == s;
    }
  }

  lemma TenTimes(a: int, b: int)
    ensures 10 * (a * b) == a * (10 * b)
  {
  }

  function Zeros(p: nat): (z: string)
    ensures |z| == p && forall i :: 0 <= i < p ==> z[i] == '0'
  {
    if p == 0 then [] else Zeros(p - 1) + ['0']
  }

  lemma {:induction false} ZerosValue(p: nat)
    ensures Value(Zeros(p)) == 0
  {
    if p > 0 {
      assert Zeros(p)[..p - 1] == Zeros(p - 1);
      ZerosValue(p - 1);
    }
  }

  /** Leading zeros do not change a decimal value. */
  lemma {:induction false} ValueZerosBefore(p: nat, s: string)
    requires forall i :: 0 <= i < |s| ==> IsDigit(s[i])
    ensures forall i :: 0 <= i < |Zeros(p) + s| ==> IsDigit((Zeros(p) + s)[i])
    ensures Value(Zeros(p) + s) == Value(s)
    decreases |s|
  {
    var z := Zeros(p) + s;
    if s == [] {
      assert z == Zeros(p);
      ZerosValue(p);
    } else {
      var n := |s| - 1;
      assert z[..|z| - 1] == Zeros(p) + s[..n];
      ValueZerosBefore(p, s[..n]);
    }
  }

  /** `s.zfill(width)` for a string without a sign: zeros on the left up to `width`. */
  function ZFill(s: string, width: int): string
  {
    if width > |s| then Zeros(width - |s|) + s else s
  }

  /** `zfill` pads on the left with zeros up to `width`, keeping `s` whole. */
  lemma ZFillShape(s: string, width: int)
    ensures |ZFill(s, width)| == if width > |s| then width else |s|
    ensures ZFill(s, width)[|ZFill(s, width)| - |s|..] == s
    ensures forall i :: 0 <= i < |ZFill(s, width)| - |s| ==> ZFill(s, width)[i] == '0'
  {
  }

  /** Zero-padding to two widths gives the same string exactly when neither
      width exceeds the natural length. */
  lemma ZFillSame(s: string, i: int, j: int)
    requires i < j
    ensures ZFill(s, i) == ZFill(s, j) <==> j <= |s|
  {
    ZFillShape(s, i);
    ZFillShape(s, j);
    if j > |s| {
      assert |ZFill(s, i)| < |ZFill(s, j)|;
    }
  }

  /** `zfill` keeps a decimal string decimal and keeps its value. */
  lemma ZFillValue(s: string, width: int)
    requires IsDecimal(s)
    ensures IsDecimal(ZFill(s, width)) && Value(ZFill(s, width)) == Value(s)
  {
    if width > |s| {
      ValueZerosBefore(width - |s|, s);
    }
  }
}
