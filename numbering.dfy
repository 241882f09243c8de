/** The numbering stage as values: which suffixed lines `do_append_numbering`
    writes for each word, and how many lines and bytes that is. */
module Numbering {
  import opened Text
  import opened Lines

  /** `str(k).zfill(i)`. */
  function Padded(k: nat, i: int): string
  {
    ZFill(Dec(k), i)
  }

  /** Level `i` writes counter `k` when it is the first level or when padding
      to width `i` still changes `str(k)`. */
  predicate Written(i: nat, k: nat)
  {
    i == 1 || |Dec(k)| < i
  }

  /** The pair written for one counter at one level. */
  function Pair(w: string, k: nat, i: nat): seq<string>
  {
    [w + Padded(k, i), w + "_" + Padded(k, i)]
  }

  /** Lines for counters 1..k at level i. */
  function LevelLines(w: string, i: nat, k: nat): seq<string>
  {
    if k == 0 then [] else LevelLines(w, i, k - 1) + (if Written(i, k) then Pair(w, k, i) else [])
  }

  /** Lines for levels 1..i, counters 1..limit. */
  function WordLines(w: string, i: nat, limit: nat): seq<string>
  {
    if i == 0 then [] else WordLines(w, i - 1, limit) + LevelLines(w, i, limit)
  }

  /** Everything the numbering stage writes for the words `ws`, word by word. */
  function NumberingLines(ws: seq<string>, level: nat, limit: nat): seq<string>
  {
    if ws == [] then [] else NumberingLines(ws[..|ws| - 1], level, limit) + WordLines(ws[|ws| - 1], level, limit)
  }

  /** `range(1, limit + 1)` is empty for a limit below 1. */
  function Counters(limit: int): nat
  {
    if limit < 0 then 0 else limit
  }

  /** How many counters in 1..k level `i` writes. */
  function LevelCount(i: nat, k: nat): nat
  {
    if k == 0 then 0 else LevelCount(i, k - 1) + (if Written(i, k) then 1 else 0)
  }

  /** How many counters all levels 1..i write together. */
  function PerWordCount(i: nat, limit: nat): nat
  {
    if i == 0 then 0 else PerWordCount(i - 1, limit) + LevelCount(i, limit)
  }

  /** Bytes level `i` writes for counters 1..k after a word of length `n`. */
  function LevelSize(n: nat, i: nat, k: nat): nat
  {
    if k == 0 then 0
    else LevelSize(n, i, k - 1) + (if Written(i, k) then 2 * (n + 1) + 2 * |Padded(k, i)| + 1 else 0)
  }

  function PerWordSize(n: nat, i: nat, limit: nat): nat
  {
    if i == 0 then 0 else PerWordSize(n, i - 1, limit) + LevelSize(n, i, limit)
  }

  lemma {:induction false} LevelLinesMeasure(w: string, i: nat, k: nat)
    ensures |LevelLines(w, i, k)| == 2 * LevelCount(i, k)
    ensures SizeOf(LevelLines(w, i, k)) == LevelSize(|w|, i, k)
  {
    if k > 0 {
      LevelLinesMeasure(w, i, k - 1);
      var extra := if Written(i, k) then Pair(w, k, i) else [];
      SizeOfAppend(LevelLines(w, i, k - 1), extra);
      if Written(i, k) {
        SizeOfPair(w + Padded(k, i), w + "_" + Padded(k, i));
      }
    }
  }

  lemma WordLinesMeasure(w: string, i: nat, limit: nat)
    ensures |WordLines(w, i, limit)| == 2 * PerWordCount(i, limit)
    ensures SizeOf(WordLines(w, i, limit)) == PerWordSize(|w|, i, limit)
  {
    WordLinesCount(w, i, limit);
    WordLinesSize(w, i, limit);
  }

  lemma {:induction false} WordLinesCount(w: string, i: nat, limit: nat)
    ensures |WordLines(w, i, limit)| == 2 * PerWordCount(i, limit)
  {
    if i > 0 {
      var a, b := WordLines(w, i - 1, limit), LevelLines(w, i, limit);
      WordLinesCount(w, i - 1, limit);
      LevelLinesMeasure(w, i, limit);
      assert WordLines(w, i, limit) == a + b;
    }
  }

  lemma {:induction false} WordLinesSize(w: string, i: nat, limit: nat)
    ensures SizeOf(WordLines(w, i, limit)) == PerWordSize(|w|, i, limit)
  {
    if i > 0 {
      var a, b := WordLines(w, i - 1, limit), LevelLines(w, i, limit);
      WordLinesSize(w, i - 1, limit);
      LevelLinesMeasure(w, i, limit);
      assert WordLines(w, i, limit) == a + b;
      SizeOfAppend(a, b);
    }
  }

  /** Numbering writes 2 * PerWordCount lines for every word and, for words of
      one length `n`, PerWordSize(n) bytes for every word. */
  lemma {:induction false} NumberingMeasure(ws: seq<string>, n: nat, level: nat, limit: nat)
    requires forall j :: 0 <= j < |ws| ==> |ws[j]| == n
    ensures |NumberingLines(ws, level, limit)| == |ws| * (2 * PerWordCount(level, limit))
    ensures SizeOf(NumberingLines(ws, level, limit)) == |ws| * PerWordSize(n, level, limit)
  {
    if ws != [] {
      var m := |ws| - 1;
      var init := ws[..m];
      assert forall j :: 0 <= j < |init| ==> |init[j]| == n;
      NumberingMeasure(init, n, level, limit);
      WordLinesMeasure(ws[m], level, limit);
      var a, b := NumberingLines(init, level, limit), WordLines(ws[m], level, limit);
      assert NumberingLines(ws, level, limit) == a + b;
      SizeOfAppend(a, b);
      MulSucc(m, 2 * PerWordCount(level, limit));
      MulSucc(m, PerWordSize(n, level, limit));
    }
  }

  /** `previous_list` after counters 1..n of level `i` of the word `w`:
      entry `q` holds `w` with counter `q + 1` padded to width `i`. */
  function Memory(w: string, i: nat, n: nat): (r: seq<string>)
    ensures |r| == n
  {
    if n == 0 then [] else Memory(w, i, n - 1) + [w + Padded(n, i)]
  }

  lemma {:induction false} MemoryAt(w: string, i: nat, n: nat, q: nat)
    requires q < n
    ensures Memory(w, i, n)[q] == w + Padded(q + 1, i)
  {
    if q < n - 1 {
      MemoryAt(w, i, n - 1, q);
    }
  }

  /** Remembering counter `k` of level `i` in a list that already holds
      counters 1..k-1 of that level. */
  lemma RememberStep(w: string, i: nat, k: nat, previous: seq<string>, prev: seq<string>, n: string)
    requires 1 <= k <= |previous| && n == Padded(k, i)
    requires prev == Memory(w, i, k - 1) + previous[k - 1..]
    ensures prev[k - 1] == previous[k - 1]
    ensures prev[k - 1 := w + n] == Memory(w, i, k) + previous[k..]
    ensures prev[k - 1] == w + n ==> prev == Memory(w, i, k) + previous[k..]
  {
    assert previous[k - 1..] == [previous[k - 1]] + previous[k..];
  }

  /** What counter `k` of level `i` adds after earlier output `o`. */
  lemma LevelLinesNext(o: seq<string>, w: string, i: nat, k: nat)
    requires k >= 1
    ensures o + LevelLines(w, i, k) == o + LevelLines(w, i, k - 1) + (if Written(i, k) then Pair(w, k, i) else [])
  {
  }

  /** The remembered lines differ from the lines of `w` at level `i` exactly
      at the counters level `i` writes. */
  ghost predicate Consistent(previous: seq<string>, w: string, i: nat)
  {
    forall q :: 0 <= q < |previous| ==> (previous[q] != w + Padded(q + 1, i) <==> Written(i, q + 1))
  }

  /** Within one word, level `i` differs from level `i - 1` at counter `k`
      exactly when `k` is written at level `i`. */
  lemma PadStep(w: string, i: nat, k: nat)
    requires i > 1
    ensures w + Padded(k, i - 1) != w + Padded(k, i) <==> Written(i, k)
  {
    ZFillSame(Dec(k), i - 1, i);
    if w + Padded(k, i - 1) == w + Padded(k, i) {
      assert (w + Padded(k, i - 1))[|w|..] == Padded(k, i - 1);
      assert (w + Padded(k, i))[|w|..] == Padded(k, i);
    }
  }

  /** After level `i - 1` of a word, the remembered lines are consistent
      with level `i` of the same word. */
  lemma NextLevelConsistent(w: string, i: nat, limit: nat)
    requires i > 1
    ensures Consistent(Memory(w, i - 1, limit), w, i)
  {
    var previous := Memory(w, i - 1, limit);
    forall q | 0 <= q < |previous|
      ensures previous[q] != w + Padded(q + 1, i) <==> Written(i, q + 1)
    {
      MemoryAt(w, i - 1, limit, q);
      PadStep(w, i, q + 1);
    }
  }

  /** After the last level of word `a`, the remembered lines are consistent
      with level 1 of a different word `b` of the same length. */
  lemma NextWordConsistent(a: string, b: string, level: nat, limit: nat)
    requires |a| == |b| && a != b
    ensures Consistent(Memory(a, level, limit), b, 1)
  {
    var previous := Memory(a, level, limit);
    forall q | 0 <= q < |previous|
      ensures previous[q] != b + Padded(q + 1, 1) <==> Written(1, q + 1)
    {
      MemoryAt(a, level, limit, q);
      OtherWord(a, b, Padded(q + 1, level), Padded(q + 1, 1));
    }
  }

  /** What level `i` adds to the lines of a word after earlier output `o`. */
  lemma WordLinesNext(o: seq<string>, w: string, i: nat, limit: nat)
    requires i >= 1
    ensures o + WordLines(w, i, limit) == o + WordLines(w, i - 1, limit) + LevelLines(w, i, limit)
  {
  }

  lemma NumberingLinesNext(o: seq<string>, ws: seq<string>, j: nat, level: nat, limit: nat)
    requires j < |ws|
    ensures o + NumberingLines(ws[..j + 1], level, limit) == o + NumberingLines(ws[..j], level, limit) + WordLines(ws[j], level, limit)
  {
    assert ws[..j + 1][..j] == ws[..j];
  }

  /** Two different words of one length never produce the same line,
      whatever follows them. */
  lemma OtherWord(a: string, b: string, x: string, y: string)
    requires |a| == |b| && a != b
    ensures a + x != b + y
  {
    assert (a + x)[..|a|] == a;
    assert (b + y)[..|b|] == b;
  }

  /** A padded counter is a decimal string with the counter's value. */
  lemma PaddedValue(k: nat, i: int)
    ensures IsDecimal(Padded(k, i)) && Value(Padded(k, i)) == k
  {
    DecValue(k);
    ZFillValue(Dec(k), i);
  }

  /** Two different (counter, level) pairs that are both written give
      different padded counters: the value fixes the counter, and of two
      levels only the lower one can leave it unpadded. */
  lemma PaddedDiffer(k: nat, i: nat, k': nat, i': nat)
    requires i >= 1 && i' >= 1 && Written(i, k) && Written(i', k') && (k != k' || i != i')
    ensures Padded(k, i) != Padded(k', i')
  {
    PaddedValue(k, i);
    PaddedValue(k', i');
    if k == k' {
      if i < i' {
        ZFillSame(Dec(k), i, i');
      } else {
        ZFillSame(Dec(k), i', i);
      }
    }
  }

  lemma SuffixDiffer(w: string, x: string, y: string)
    requires x != y
    ensures w + x != w + y
  {
    assert (w + x)[|w|..] == x;
    assert (w + y)[|w|..] == y;
  }

  /** A line with a bare counter never equals one with an underscore. */
  lemma UnderscoreDiffers(w: string, p: string, q: string)
    requires IsDecimal(p)
    ensures w + p != w + "_" + q
  {
    assert p[0] != ("_" + q)[0];
    SuffixDiffer(w, p, "_" + q);
    assert w + "_" + q == w + ("_" + q);
  }

  /** The two lines of one pair differ. */
  lemma PairDistinct(w: string, k: nat, i: nat)
    ensures NoDups(Pair(w, k, i))
  {
    PaddedValue(k, i);
    UnderscoreDiffers(w, Padded(k, i), Padded(k, i));
  }

  /** Pairs of two different written (counter, level) pairs share no line. */
  lemma PairsDisjoint(w: string, c: nat, i: nat, d: nat, j: nat)
    requires i >= 1 && j >= 1 && Written(i, c) && Written(j, d) && (c != d || i != j)
    ensures forall x :: x in Pair(w, c, i) ==> x !in Pair(w, d, j)
  {
    var p, q := Padded(c, i), Padded(d, j);
    PaddedDiffer(c, i, d, j);
    PaddedValue(c, i);
    PaddedValue(d, j);
    SuffixDiffer(w, p, q);
    SuffixDiffer(w + "_", p, q);
    UnderscoreDiffers(w, p, q);
    UnderscoreDiffers(w, q, p);
  }

  /** No line of a written pair (counter `c`, level `j`) is among level
      `i`'s lines for counters 1..k unless it is that very pair. */
  lemma {:induction false} LevelLinesAvoid(w: string, i: nat, k: nat, c: nat, j: nat)
    requires i >= 1 && j >= 1 && Written(j, c) && (i != j || c > k)
    ensures forall x :: x in Pair(w, c, j) ==> x !in LevelLines(w, i, k)
  {
    if k > 0 {
      LevelLinesAvoid(w, i, k - 1, c, j);
      if Written(i, k) {
        PairsDisjoint(w, c, j, k, i);
      }
    }
  }

  /** No line of a written pair at a level above `lvl` is among the lines
      of levels 1..lvl. */
  lemma {:induction false} WordLinesAvoid(w: string, lvl: nat, limit: nat, c: nat, j: nat)
    requires j > lvl && Written(j, c)
    ensures forall x :: x in Pair(w, c, j) ==> x !in WordLines(w, lvl, limit)
  {
    if lvl > 0 {
      WordLinesAvoid(w, lvl - 1, limit, c, j);
      LevelLinesAvoid(w, lvl, limit, c, j);
    }
  }

  /** The lines of levels below `lvl` followed by level `lvl`'s lines for
      counters 1..k never repeat one another. */
  lemma {:induction false} LevelAfterNoDups(w: string, lvl: nat, limit: nat, k: nat)
    requires lvl >= 1 && NoDups(WordLines(w, lvl - 1, limit))
    ensures NoDups(WordLines(w, lvl - 1, limit) + LevelLines(w, lvl, k))
  {
    var before := WordLines(w, lvl - 1, limit);
    if k > 0 {
      LevelAfterNoDups(w, lvl, limit, k - 1);
      var a := before + LevelLines(w, lvl, k - 1);
      if Written(lvl, k) {
        var b := Pair(w, k, lvl);
        WordLinesAvoid(w, lvl - 1, limit, k, lvl);
        LevelLinesAvoid(w, lvl, k - 1, k, lvl);
        PairDistinct(w, k, lvl);
        NoDupsAppend(a, b);
        assert before + LevelLines(w, lvl, k) == a + b;
      } else {
        assert before + LevelLines(w, lvl, k) == a;
      }
    } else {
      assert before + LevelLines(w, lvl, k) == before;
    }
  }

  /** One word's numbering lines never repeat: no padded counter is written
      twice, with or without the underscore. */
  lemma {:induction false} WordLinesNoDups(w: string, lvl: nat, limit: nat)
    ensures NoDups(WordLines(w, lvl, limit))
  {
    if lvl > 0 {
      WordLinesNoDups(w, lvl - 1, limit);
      LevelAfterNoDups(w, lvl, limit, limit);
    }
  }

  /** Every numbering line of `w` starts with `w`. */
  lemma {:induction false} LevelLinesStart(w: string, i: nat, k: nat)
    ensures forall x :: x in LevelLines(w, i, k) ==> |w| <= |x| && x[..|w|] == w
  {
    if k > 0 {
      LevelLinesStart(w, i, k - 1);
      var a := LevelLines(w, i, k - 1);
      var b := if Written(i, k) then Pair(w, k, i) else [];
      assert LevelLines(w, i, k) == a + b;
      forall x | x in b ensures |w| <= |x| && x[..|w|] == w {
        assert x == w + Padded(k, i) || x == w + "_" + Padded(k, i);
      }
    }
  }

  lemma {:induction false} WordLinesStart(w: string, lvl: nat, limit: nat)
    ensures forall x :: x in WordLines(w, lvl, limit) ==> |w| <= |x| && x[..|w|] == w
  {
    if lvl > 0 {
      WordLinesStart(w, lvl - 1, limit);
      LevelLinesStart(w, lvl, limit);
      var a, b := WordLines(w, lvl - 1, limit), LevelLines(w, lvl, limit);
      assert WordLines(w, lvl, limit) == a + b;
      assert forall x :: x in a + b ==> x in a || x in b;
    }
  }

  /** For words of one length `n`, every numbering line starts with one of the words. */
  lemma {:induction false} NumberingLinesStart(ws: seq<string>, n: nat, level: nat, limit: nat)
    requires forall j :: 0 <= j < |ws| ==> |ws[j]| == n
    ensures forall x :: x in NumberingLines(ws, level, limit) ==> n <= |x| && x[..n] in ws
  {
    if ws != [] {
      var m := |ws| - 1;
      var init := ws[..m];
      var a, b := NumberingLines(init, level, limit), WordLines(ws[m], level, limit);
      NumberingLinesStart(init, n, level, limit);
      WordLinesStart(ws[m], level, limit);
      assert NumberingLines(ws, level, limit) == a + b;
      forall x | x in a + b ensures n <= |x| && x[..n] in ws {
        if x in a {
          var y := x[..n];
          assert y in init;
        }
      }
    }
  }

  /** For distinct words of one length the numbering stage never writes a
      line twice. */
  lemma {:induction false} NumberingLinesNoDups(ws: seq<string>, level: nat, limit: nat)
    requires NoDups(ws) && SameLength(ws)
    ensures NoDups(NumberingLines(ws, level, limit))
  {
    if ws != [] {
      var m := |ws| - 1;
      var init := ws[..m];
      assert NoDups(init) && SameLength(init);
      NumberingLinesNoDups(init, level, limit);
      WordLinesNoDups(ws[m], level, limit);
      NumberingLinesStart(init, |ws[m]|, level, limit);
      WordLinesStart(ws[m], level, limit);
      forall x | x in WordLines(ws[m], level, limit) ensures x !in NumberingLines(init, level, limit) {
        assert ws[m] !in init;
      }
      NoDupsAppend(NumberingLines(init, level, limit), WordLines(ws[m], level, limit));
    }
  }

  /** Words of one length, none repeated: what the basic mutations are
      when the table's glyphs are single characters. */
  predicate SameLength(ws: seq<string>)
  {
    forall a, b :: 0 <= a < |ws| && 0 <= b < |ws| ==> |ws[a]| == |ws[b]|
  }
}
