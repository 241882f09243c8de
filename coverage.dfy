/** What the case and substitution stages produce together for one keyword:
    as a set, every string that takes at each position a case of the
    keyword's character or one of its glyphs, and so `basic_total` of them. */
module Coverage {
  import opened Text
  import opened Settings
  import opened Products
  import opened Transformations
  import opened Casing
  import opened Substitution
  import opened Lines

  /** A keyword as the option parser leaves it: no whitespace at either end. */
  predicate Stripped(w: string)
  {
    Strip(w) == w
  }

  /** Case mapping never turns a non-space into whitespace. */
  lemma CaseKeepsNonSpace(c: char)
    requires !IsSpace(c)
    ensures !IsSpace(Upper(Lower(c))) && !IsSpace(Lower(Lower(c)))
  {
  }

  /** Every case variant of a stripped keyword has the keyword's length and
      is itself stripped, so `word.strip()` in `mutations_handler` keeps it whole. */
  lemma VariantShape(word: string, ws: seq<string>, j: nat)
    requires Stripped(word) && ws == MutateCase(LowerStr(word)) && j < |ws|
    ensures |ws[j]| == |word| && Strip(ws[j]) == ws[j]
  {
    CaseVariantsShape(word);
    assert ws[j] in ws;
  }

  lemma CaseVariantsShape(word: string)
    requires Stripped(word)
    ensures forall v :: v in MutateCase(LowerStr(word)) ==> |v| == |word| && Strip(v) == v
  {
    var lw := LowerStr(word);
    var ws := MutateCase(lw);
    MutateCaseSet(lw);
    forall v | v in ws ensures |v| == |word| && Strip(v) == v {
      CaseVariantStripped(word, v);
    }
  }

  lemma CaseVariantStripped(word: string, v: string)
    requires Stripped(word)
    requires v in ProductSet(CaseChoices(LowerStr(word)))
    ensures |v| == |word| && Strip(v) == v
  {
    var lw := LowerStr(word);
    ProductSetMembers(CaseChoices(lw), v);
    if word != [] {
      var last := |word| - 1;
      CaseKeepsNonSpace(word[0]);
      CaseKeepsNonSpace(word[last]);
      assert v[0] in CaseChoice(lw[0]) && v[last] in CaseChoice(lw[last]);
    }
  }

  /** `word.lower()` has no upper-case letter left. */
  lemma LowerStrLowered(word: string)
    ensures Lowered(LowerStr(word))
  {
  }

  /** The indices `calculate_transformations` finds on the lowered keyword
      are valid, distinct indices of table characters of the keyword itself. */
  lemma KeyIndicesOfWord(t: Table, word: string)
    ensures IndicesOf(t, word, KeyIndices(t, LowerStr(word)))
    ensures Distinct(KeyIndices(t, LowerStr(word)))
  {
    KeyIndicesFromSpec(t, LowerStr(word), 0);
    var tcs := KeyIndices(t, LowerStr(word));
    forall i | 0 <= i < |tcs| ensures tcs[i] < |word| && Lower(word[tcs[i]]) in t {
      assert tcs[i] in tcs;
    }
  }

  /** The substitution stage of `word` raises no IndexError; a keyword
      without a table character never reaches it. */
  predicate KeywordRuns(t: Table, word: string)
  {
    var lw := LowerStr(word);
    var tcs := KeyIndices(t, lw);
    CheckMutability(t, lw) > 0 ==> IndicesOf(t, word, tcs) && RunsAll(t, word, MutateCase(lw), tcs)
  }

  /** With no empty glyph in the table, the substitution stage of a
      stripped keyword never raises IndexError: every case variant is as
      long as the keyword. */
  lemma NonEmptyKeywordRuns(t: Table, word: string)
    requires NonEmptyGlyphs(t) && Stripped(word)
    ensures KeywordRuns(t, word)
  {
    var lw := LowerStr(word);
    var ws := MutateCase(lw);
    var tcs := KeyIndices(t, lw);
    KeyIndicesOfWord(t, word);
    forall j | 0 <= j < |ws| ensures Runs(t, word, [Strip(ws[j])], tcs) {
      VariantShape(word, ws, j);
      NonEmptyRuns(t, word, [Strip(ws[j])], tcs);
    }
  }

  /** The distinct basic mutations of a keyword once the case stage and, for
      a mutable keyword, the substitution stage have run. */
  ghost function Basic(t: Table, word: string): set<string>
    requires KeywordRuns(t, word)
  {
    var lw := LowerStr(word);
    var ws := MutateCase(lw);
    if CheckMutability(t, lw) > 0 then Elems(ws + Substitutions(t, word, ws, KeyIndices(t, lw))) else Elems(ws)
  }

  /** Glyphs of a simple table are never empty. */
  lemma SimpleNonEmpty(t: Table)
    requires SimpleTable(t)
    ensures NonEmptyGlyphs(t)
  {
    forall c, j | c in t && 0 <= j < |t[c]| ensures |t[c][j]| > 0 {
      assert SimpleGlyphs(c, t[c]);
    }
  }

  /** The case variant of `v`: `v`'s character where it is a case of the
      keyword's, the keyword's own character elsewhere. */
  function CaseOf(lw: string, v: string): (u: string)
    requires |v| == |lw|
    ensures |u| == |lw|
  {
    seq(|lw|, i requires 0 <= i < |lw| => if v[i] in CaseChoice(lw[i]) then v[i] else lw[i])
  }

  /** A case variant with glyphs put in at some key indices is drawn from
      the full choices. */
  lemma AgreesDrawn(t: Table, word: string, u: string, v: string)
    requires IndicesOf(t, word, KeyIndices(t, LowerStr(word)))
    requires Drawn(u, CaseChoices(LowerStr(word)))
    requires Agrees(t, word, u, KeyIndices(t, LowerStr(word)), v)
    ensures Drawn(v, FullChoices(t, LowerStr(word)))
  {
    var lw := LowerStr(word);
    var tcs := KeyIndices(t, lw);
    var full := FullChoices(t, lw);
    forall i | 0 <= i < |v| ensures v[i] in full[i] {
      assert u[i] in CaseChoice(lw[i]);
      if v[i] != u[i] {
        var p :| 0 <= p < |tcs| && tcs[p] == i && v[i] in GlyphChars(Glyphs(t, word, i));
        assert lw[i] == Lower(word[i]);
      }
    }
  }

  /** A string drawn from the full choices is its case variant with glyphs
      put in at key indices. */
  lemma DrawnAgrees(t: Table, word: string, v: string)
    requires Drawn(v, FullChoices(t, LowerStr(word)))
    ensures IndicesOf(t, word, KeyIndices(t, LowerStr(word)))
    ensures Drawn(CaseOf(LowerStr(word), v), CaseChoices(LowerStr(word)))
    ensures Agrees(t, word, CaseOf(LowerStr(word), v), KeyIndices(t, LowerStr(word)), v)
  {
    var lw := LowerStr(word);
    var tcs := KeyIndices(t, lw);
    var u := CaseOf(lw, v);
    KeyIndicesOfWord(t, word);
    KeyIndicesFromSpec(t, lw, 0);
    forall i | 0 <= i < |v|
      ensures v[i] == u[i] || exists p :: 0 <= p < |tcs| && tcs[p] == i && v[i] in GlyphChars(Glyphs(t, word, i))
    {
      if v[i] != u[i] {
        assert v[i] in FullChoice(t, lw[i]) && v[i] !in CaseChoice(lw[i]);
        assert lw[i] in t && i in tcs;
        var p :| 0 <= p < |tcs| && tcs[p] == i;
        assert lw[i] == Lower(word[i]);
      }
    }
  }

  /** Every basic mutation is drawn from the full choices. */
  lemma CoverSound(t: Table, word: string, v: string)
    requires SimpleTable(t) && Stripped(word) && KeywordRuns(t, word)
    requires v in Basic(t, word)
    ensures v in ProductSet(FullChoices(t, LowerStr(word)))
  {
    var lw := LowerStr(word);
    var ws := MutateCase(lw);
    KeyIndicesOfWord(t, word);
    ProductSetMembers(FullChoices(t, lw), v);
    if v in ws {
      MutateCaseSet(lw);
      ProductSetMembers(CaseChoices(lw), v);
      assert Agrees(t, word, v, KeyIndices(t, lw), v);
      AgreesDrawn(t, word, v, v);
    } else {
      CoverSubstituted(t, word, v);
    }
  }

  /** A substituted case variant is drawn from the full choices. */
  lemma CoverSubstituted(t: Table, word: string, v: string)
    requires SimpleTable(t) && Stripped(word)
    requires IndicesOf(t, word, KeyIndices(t, LowerStr(word)))
    requires RunsAll(t, word, MutateCase(LowerStr(word)), KeyIndices(t, LowerStr(word)))
    requires v in Substitutions(t, word, MutateCase(LowerStr(word)), KeyIndices(t, LowerStr(word)))
    ensures Drawn(v, FullChoices(t, LowerStr(word)))
  {
    var lw := LowerStr(word);
    var ws := MutateCase(lw);
    var tcs := KeyIndices(t, lw);
    KeyIndicesOfWord(t, word);
    SubstitutionsMembers(t, word, ws, tcs, v);
    var j :| 0 <= j < |ws| && v in Cage(t, word, ws[j], tcs);
    var u := ws[j];
    VariantShape(word, ws, j);
    SimpleNonEmpty(t);
    SubstituteMembers(t, word, u, tcs, v);
    MutateCaseSet(lw);
    ProductSetMembers(CaseChoices(lw), u);
    AgreesDrawn(t, word, u, v);
  }

  /** Every string drawn from the full choices is a basic mutation. */
  lemma CoverComplete(t: Table, word: string, v: string)
    requires SimpleTable(t) && Stripped(word) && KeywordRuns(t, word)
    requires v in ProductSet(FullChoices(t, LowerStr(word)))
    ensures v in Basic(t, word)
  {
    var lw := LowerStr(word);
    var ws := MutateCase(lw);
    ProductSetMembers(FullChoices(t, lw), v);
    DrawnAgrees(t, word, v);
    var u := CaseOf(lw, v);
    ProductSetMembers(CaseChoices(lw), u);
    MutateCaseSet(lw);
    assert u in ws;
    KeyIndicesOfWord(t, word);
    CaseVariantsShape(word);
    SimpleNonEmpty(t);
    if v == u {
      if CheckMutability(t, lw) > 0 {
        BasicMutable(t, word);
      }
    } else {
      ChangedIsMutable(t, word, u, v);
      SubstitutedIn(t, word, u, v);
      BasicMutable(t, word);
    }
  }

  /** A string that differs from `u` only at key positions differs from it
      at all only when the keyword has a key character. */
  lemma ChangedIsMutable(t: Table, word: string, u: string, v: string)
    requires IndicesOf(t, word, KeyIndices(t, LowerStr(word))) && u != v
    requires Agrees(t, word, u, KeyIndices(t, LowerStr(word)), v)
    ensures CheckMutability(t, LowerStr(word)) > 0
  {
    var lw := LowerStr(word);
    var tcs := KeyIndices(t, lw);
    assert !(forall i :: 0 <= i < |v| ==> v[i] == u[i]);
    var i0 :| 0 <= i0 < |v| && v[i0] != u[i0];
    var p :| 0 <= p < |tcs| && tcs[p] == i0;
    KeyIndicesFromSpec(t, lw, 0);
    assert tcs[p] in tcs;
    MutabilityIffKeyIndex(t, lw, 0);
    assert lw[0..] == lw;
  }

  /** A string agreeing with a case variant off the key positions is among the substitutions. */
  lemma SubstitutedIn(t: Table, word: string, u: string, v: string)
    requires SimpleTable(t) && NonEmptyGlyphs(t) && Stripped(word)
    requires u in MutateCase(LowerStr(word))
    requires IndicesOf(t, word, KeyIndices(t, LowerStr(word)))
    requires Distinct(KeyIndices(t, LowerStr(word)))
    requires RunsAll(t, word, MutateCase(LowerStr(word)), KeyIndices(t, LowerStr(word)))
    requires |u| == |word| && Strip(u) == u
    requires Agrees(t, word, u, KeyIndices(t, LowerStr(word)), v)
    ensures v in Substitutions(t, word, MutateCase(LowerStr(word)), KeyIndices(t, LowerStr(word)))
  {
    var lw := LowerStr(word);
    var ws := MutateCase(lw);
    var tcs := KeyIndices(t, lw);
    var j :| 0 <= j < |ws| && ws[j] == u;
    CageMembers(t, word, u, tcs, v);
    assert v in Cage(t, word, ws[j], tcs);
    SubstitutionsMembers(t, word, ws, tcs, v);
  }

  /** For a mutable keyword the basic set is the case variants together with their substitutions. */
  lemma BasicMutable(t: Table, word: string)
    requires KeywordRuns(t, word) && CheckMutability(t, LowerStr(word)) > 0
    ensures IndicesOf(t, word, KeyIndices(t, LowerStr(word)))
    ensures RunsAll(t, word, MutateCase(LowerStr(word)), KeyIndices(t, LowerStr(word)))
    ensures Basic(t, word)
         == Elems(MutateCase(LowerStr(word)) + Substitutions(t, word, MutateCase(LowerStr(word)), KeyIndices(t, LowerStr(word))))
  {
    var lw := LowerStr(word);
    var ws := MutateCase(lw);
    var tcs := KeyIndices(t, lw);
    assert Basic(t, word) == Elems(ws + Substitutions(t, word, ws, tcs));
  }

  lemma CageMembers(t: Table, kw: string, w: string, tcs: seq<nat>, v: string)
    requires SimpleTable(t) && NonEmptyGlyphs(t) && IndicesOf(t, kw, tcs) && Distinct(tcs)
    requires |w| == |kw| && Strip(w) == w
    ensures Runs(t, kw, [Strip(w)], tcs)
    ensures v in Cage(t, kw, w, tcs) <==> Agrees(t, kw, w, tcs, v)
  {
    SubstituteMembers(t, kw, w, tcs, v);
  }

  /** With a simple table the basic mutations are, as a set, exactly the
      strings drawn position by position from the cases and glyphs of the
      lowered keyword's characters. */
  lemma MutationsCover(t: Table, word: string)
    requires SimpleTable(t) && Stripped(word)
    ensures KeywordRuns(t, word)
    ensures Basic(t, word) == ProductSet(FullChoices(t, LowerStr(word)))
  {
    SimpleNonEmpty(t);
    NonEmptyKeywordRuns(t, word);
    forall v | v in Basic(t, word) ensures v in ProductSet(FullChoices(t, LowerStr(word))) {
      CoverSound(t, word, v);
    }
    forall v | v in ProductSet(FullChoices(t, LowerStr(word))) ensures v in Basic(t, word) {
      CoverComplete(t, word, v);
    }
  }

  /** `calculate_transformations`' `basic_total` counts the distinct basic
      mutations, and all of them have the keyword's length. */
  lemma BasicCount(t: Table, word: string)
    requires SimpleTable(t) && Stripped(word)
    ensures KeywordRuns(t, word)
    ensures |Basic(t, word)| == BasicTotal(t, LowerStr(word))
    ensures forall v :: v in Basic(t, word) ==> |v| == |word|
  {
    var lw := LowerStr(word);
    MutationsCover(t, word);
    ProductSetCard(FullChoices(t, lw));
    LowerStrLowered(word);
    BasicTotalIsChoices(t, lw);
    forall v | v in Basic(t, word) ensures |v| == |word| {
      ProductSetMembers(FullChoices(t, lw), v);
    }
  }
}
