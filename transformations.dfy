/** The scan of a keyword against the transformation table
    (`calculate_transformations`, `check_mutability`) and the per-position
    choices that the case and substitution stages draw from. */
module Transformations {
  import opened Text
  import opened Settings
  import opened Products

  /** Ascending indices from `j` on whose character is a table key. */
  function KeyIndicesFrom(t: Table, kw: string, j: nat): (r: seq<nat>)
    requires j <= |kw|
    decreases |kw| - j
  {
    if j == |kw| then [] else (if kw[j] in t then [j] else []) + KeyIndicesFrom(t, kw, j + 1)
  }

  /** The indices of `kw` whose character is a table key. */
  function KeyIndices(t: Table, kw: string): seq<nat>
  {
    KeyIndicesFrom(t, kw, 0)
  }

  ghost predicate Ascending(s: seq<nat>)
  {
    forall a, b :: 0 <= a < b < |s| ==> s[a] < s[b]
  }

  /** `KeyIndices` holds exactly the positions whose character is a key, in
      ascending order. */
  lemma {:induction false} KeyIndicesFromSpec(t: Table, kw: string, j: nat)
    requires j <= |kw|
    ensures forall i :: i in KeyIndicesFrom(t, kw, j) <==> j <= i < |kw| && kw[i] in t
    ensures Ascending(KeyIndicesFrom(t, kw, j))
    decreases |kw| - j
  {
    if j < |kw| {
      KeyIndicesFromSpec(t, kw, j + 1);
      var rest := KeyIndicesFrom(t, kw, j + 1);
      var r := KeyIndicesFrom(t, kw, j);
      if kw[j] in t {
        assert r == [j] + rest;
        ConsAscending(j, rest);
      } else {
        assert r == rest;
      }
    }
  }

  /** Putting an index below all others in front keeps the order. */
  lemma ConsAscending(j: nat, rest: seq<nat>)
    requires Ascending(rest) && forall i :: i in rest ==> j < i
    ensures Ascending([j] + rest)
  {
    var r := [j] + rest;
    forall a, b | 0 <= a < b < |r| ensures r[a] < r[b] {
      assert r[b] == rest[b - 1] && rest[b - 1] in rest;
      if a > 0 { assert r[a] == rest[a - 1]; }
    }
  }

  /** What one character multiplies the estimate by: its glyphs plus its two
      cases for a key, its two cases for another letter, 1 otherwise. */
  function Factor(t: Table, c: char): nat
  {
    if c in t then |t[c]| + 2 else if IsAlpha(c) then 2 else 1
  }

  /** The product of the factors of the characters of `kw`. */
  function BasicTotal(t: Table, kw: string): nat
  {
    if kw == [] then 1 else BasicTotal(t, kw[..|kw| - 1]) * Factor(t, kw[|kw| - 1])
  }

  /** `calculate_transformations`: one pass over the (lower-cased) keyword
      collecting the key positions and multiplying the factors. */
  method CalculateTransformations(t: Table, kw: string) returns (basicTotal: nat, transChars: seq<nat>)
    requires Lowered(kw)
    ensures forall i :: i in transChars <==> 0 <= i < |kw| && kw[i] in t
    ensures Ascending(transChars)
    ensures transChars == KeyIndices(t, kw)
    ensures basicTotal == BasicTotal(t, kw)
  {
    transChars := [];
    basicTotal := 1;
    var i := 0;
    while i < |kw|
      invariant 0 <= i <= |kw|
      invariant transChars + KeyIndicesFrom(t, kw, i) == KeyIndices(t, kw)
      invariant basicTotal == BasicTotal(t, kw[..i])
    {
      var c := kw[i];
      ghost var acc, total := transChars, basicTotal;
      if c in t {
        transChars := transChars + [i];
        basicTotal := basicTotal * (|t[Lower(c)]| + 2);
      } else {
        basicTotal := if IsAlpha(c) then basicTotal * 2 else basicTotal;
      }
      KeyStep(t, kw, i, acc, transChars);
      TotalStep(t, kw, i, total, basicTotal);
      i := i + 1;
    }
    assert kw[..i] == kw;
    ScanDone(t, kw, transChars);
  }

  /** After the last position the collected indices are all of them. */
  lemma ScanDone(t: Table, kw: string, acc: seq<nat>)
    requires acc + KeyIndicesFrom(t, kw, |kw|) == KeyIndices(t, kw)
    ensures forall i :: i in acc <==> 0 <= i < |kw| && kw[i] in t
    ensures Ascending(acc) && acc == KeyIndices(t, kw)
  {
    assert acc == KeyIndices(t, kw);
    KeyIndicesFromSpec(t, kw, 0);
  }

  /** The key index position `i` contributes to the scan. */
  lemma KeyStep(t: Table, kw: string, i: nat, acc: seq<nat>, next: seq<nat>)
    requires i < |kw|
    requires kw[i] in t ==> next == acc + [i]
    requires kw[i] !in t ==> next == acc
    ensures next + KeyIndicesFrom(t, kw, i + 1) == acc + KeyIndicesFrom(t, kw, i)
  {
  }

  /** The factor position `i` contributes to the scan. */
  lemma TotalStep(t: Table, kw: string, i: nat, total: nat, next: nat)
    requires i < |kw| && !IsUpperLetter(kw[i]) && total == BasicTotal(t, kw[..i])
    requires kw[i] in t ==> next == total * (|t[Lower(kw[i])]| + 2)
    requires kw[i] !in t ==> next == if IsAlpha(kw[i]) then total * 2 else total
    ensures next == BasicTotal(t, kw[..i + 1])
  {
    assert kw[..i + 1][..i] == kw[..i];
  }

  /** `check_mutability`: how many characters of `w` are table keys. */
  function CheckMutability(t: Table, w: string): (n: nat)
    ensures n <= |w|
  {
    if w == [] then 0 else (if w[0] in t then 1 else 0) + CheckMutability(t, w[1..])
  }

  /** The keyword is mutable exactly when the scan finds a key position, so
      the substitution stage always has at least one index to work on. */
  lemma {:induction false} MutabilityIffKeyIndex(t: Table, w: string, j: nat)
    requires j <= |w|
    ensures CheckMutability(t, w[j..]) == |KeyIndicesFrom(t, w, j)|
    ensures CheckMutability(t, w[j..]) > 0 <==> exists i :: j <= i < |w| && w[i] in t
    decreases |w| - j
  {
    if j < |w| {
      MutabilityIffKeyIndex(t, w, j + 1);
      assert w[j..][1..] == w[j + 1..];
    }
  }

  /** The characters the case stage may put at a position. */
  function CaseChoice(c: char): set<char> { {Upper(c), Lower(c)} }

  /** The characters the case and substitution stages together may put at a position. */
  function FullChoice(t: Table, c: char): set<char>
  {
    CaseChoice(c) + if c in t then GlyphChars(t[c]) else {}
  }

  /** The characters of the one-character glyphs in `gs`. */
  function GlyphChars(gs: seq<string>): (r: set<char>)
    ensures forall j :: 0 <= j < |gs| && |gs[j]| == 1 ==> gs[j][0] in r
    ensures forall x :: x in r ==> exists j :: 0 <= j < |gs| && gs[j] == [x]
  {
    if gs == [] then {}
    else
      var last := gs[|gs| - 1];
      GlyphChars(gs[..|gs| - 1]) + if |last| == 1 then {last[0]} else {}
  }

  function CaseChoices(kw: string): (cs: seq<set<char>>)
    ensures |cs| == |kw|
  {
    seq(|kw|, i requires 0 <= i < |kw| => CaseChoice(kw[i]))
  }

  function FullChoices(t: Table, kw: string): (cs: seq<set<char>>)
    ensures |cs| == |kw|
  {
    seq(|kw|, i requires 0 <= i < |kw| => FullChoice(t, kw[i]))
  }

  /** Distinct single-character glyphs give as many characters as there are glyphs. */
  lemma {:induction false} GlyphCharsCard(c: char, gs: seq<string>)
    requires SimpleGlyphs(c, gs)
    ensures |GlyphChars(gs)| == |gs|
    ensures Upper(c) !in GlyphChars(gs) && Lower(c) !in GlyphChars(gs)
  {
    if gs != [] {
      var last := |gs| - 1;
      var init := gs[..last];
      assert SimpleGlyphs(c, init);
      GlyphCharsCard(c, init);
      LastGlyphNew(c, gs);
      assert GlyphChars(gs) == GlyphChars(init) + {gs[last][0]};
    }
  }

  /** The last glyph's character is not among the earlier glyphs'. */
  lemma LastGlyphNew(c: char, gs: seq<string>)
    requires SimpleGlyphs(c, gs) && gs != []
    ensures gs[|gs| - 1][0] !in GlyphChars(gs[..|gs| - 1])
  {
    var last := |gs| - 1;
    var init := gs[..last];
    forall j | 0 <= j < |init|
      ensures init[j] != [gs[last][0]]
    {
      assert init[j] == gs[j];
      assert gs[last] == [gs[last][0]];
    }
  }

  /** Under a simple table, each position offers exactly its factor's worth
      of characters. */
  lemma FullChoiceCard(t: Table, c: char)
    requires SimpleTable(t) && !IsUpperLetter(c)
    ensures |FullChoice(t, c)| == Factor(t, c)
  {
    CasesDiffer(c);
    if c in t {
      GlyphCharsCard(c, t[c]);
      assert CaseChoice(c) !! GlyphChars(t[c]);
    } else if !IsAlpha(c) {
      assert CaseChoice(c) == {c};
    }
  }

  lemma {:induction false} SizeProductSnoc(cs: seq<set<char>>, c: set<char>)
    ensures SizeProduct(cs + [c]) == SizeProduct(cs) * |c|
  {
    if cs != [] {
      assert (cs + [c])[1..] == cs[1..] + [c];
      SizeProductSnoc(cs[1..], c);
    }
  }

  lemma ChoicesSnoc(t: Table, kw: string)
    requires kw != []
    ensures FullChoices(t, kw) == FullChoices(t, kw[..|kw| - 1]) + [FullChoice(t, kw[|kw| - 1])]
    ensures CaseChoices(kw) == CaseChoices(kw[..|kw| - 1]) + [CaseChoice(kw[|kw| - 1])]
  {
  }

  /** The estimate's base count is the number of strings the case and
      substitution stages can produce for the keyword. */
  lemma {:induction false} BasicTotalIsChoices(t: Table, kw: string)
    requires SimpleTable(t) && Lowered(kw)
    ensures BasicTotal(t, kw) == SizeProduct(FullChoices(t, kw))
  {
    if kw != [] {
      var n := |kw| - 1;
      BasicTotalIsChoices(t, kw[..n]);
      ChoicesSnoc(t, kw);
      SizeProductSnoc(FullChoices(t, kw[..n]), FullChoice(t, kw[n]));
      FullChoiceCard(t, kw[n]);
    } else {
      assert FullChoices(t, kw) == [];
    }
  }

  /** Without table keys the base count is two per letter: the case variants. */
  lemma {:induction false} BasicTotalNoKeys(t: Table, kw: string)
    requires forall i :: 0 <= i < |kw| ==> kw[i] !in t
    requires Lowered(kw)
    ensures BasicTotal(t, kw) == SizeProduct(CaseChoices(kw))
  {
    if kw != [] {
      var n := |kw| - 1;
      BasicTotalNoKeys(t, kw[..n]);
      ChoicesSnoc(t, kw);
      SizeProductSnoc(CaseChoices(kw[..n]), CaseChoice(kw[n]));
      CasesDiffer(kw[n]);
      if !IsAlpha(kw[n]) { assert CaseChoice(kw[n]) == {kw[n]}; }
    } else {
      assert CaseChoices(kw) == [];
    }
  }
}
