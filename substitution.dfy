/** The substitution stage as values: what one `mutate(tc, ·)` call appends
    to the cage, what a run over all transformable indices leaves in it, and
    which strings that is. */
module Substitution {
  import opened Text
  import opened Settings
  import opened Transformations
  import opened Lines

  /** `list(m)`: one piece per character. */
  function Pieces(m: string): (ps: seq<string>)
    ensures |ps| == |m|
  {
    seq(|m|, i requires 0 <= i < |m| => [m[i]])
  }

  /** `''.join(ps)`. */
  function Concat(ps: seq<string>): string
  {
    if ps == [] then [] else Concat(ps[..|ps| - 1]) + ps[|ps| - 1]
  }

  /** `m` with the character at `tc` replaced by the glyph `g`. */
  function Replace(m: string, tc: nat, g: string): string
    requires tc < |m|
  {
    m[..tc] + g + m[tc + 1..]
  }

  lemma {:induction false} ConcatPieces(m: string)
    ensures Concat(Pieces(m)) == m
  {
    if m != [] {
      var n := |m| - 1;
      assert Pieces(m)[..n] == Pieces(m[..n]);
      ConcatPieces(m[..n]);
    }
  }

  lemma {:induction false} ConcatAppend(a: seq<string>, b: seq<string>)
    ensures Concat(a + b) == Concat(a) + Concat(b)
    decreases |b|
  {
    if b != [] {
      var n := |b| - 1;
      assert (a + b)[..|a + b| - 1] == a + b[..n];
      ConcatAppend(a, b[..n]);
    } else {
      assert a + b == a;
    }
  }

  /** Joining the pieces after `w[tc] = g` splices `g` in at `tc`: the
      source's list assignment is a string replacement. */
  lemma ConcatReplace(m: string, tc: nat, g: string)
    requires tc < |m|
    ensures Concat(Pieces(m)[tc := g]) == Replace(m, tc, g)
  {
    var ps := Pieces(m)[tc := g];
    assert ps == Pieces(m[..tc]) + [g] + Pieces(m[tc + 1..]);
    ConcatAppend(Pieces(m[..tc]) + [g], Pieces(m[tc + 1..]));
    ConcatAppend(Pieces(m[..tc]), [g]);
    assert Concat([g]) == Concat([]) + g;
    ConcatPieces(m[..tc]);
    ConcatPieces(m[tc + 1..]);
  }

  /** The entries `mutate` derives from one cage entry, one per glyph, in glyph order. */
  function Variants(m: string, tc: nat, gs: seq<string>): (vs: seq<string>)
    requires tc < |m|
    ensures |vs| == |gs|
  {
    seq(|gs|, k requires 0 <= k < |gs| => Replace(m, tc, gs[k]))
  }

  predicate Fits(ms: seq<string>, tc: nat)
  {
    forall j :: 0 <= j < |ms| ==> tc < |ms[j]|
  }

  /** Everything one `mutate(tc, ·)` call appends to a cage holding `ms`:
      the variants of each original entry, entry by entry. */
  function Expand(ms: seq<string>, tc: nat, gs: seq<string>): seq<string>
    requires Fits(ms, tc)
  {
    if ms == [] then [] else Expand(ms[..|ms| - 1], tc, gs) + Variants(ms[|ms| - 1], tc, gs)
  }

  lemma {:induction false} ExpandLength(ms: seq<string>, tc: nat, gs: seq<string>)
    requires Fits(ms, tc)
    ensures |Expand(ms, tc, gs)| == |ms| * |gs|
  {
    if ms != [] {
      var n := |ms| - 1;
      ExpandLength(ms[..n], tc, gs);
      MulSucc(n, |gs|);
    }
  }

  /** With no glyphs, `mutate` appends nothing. */
  lemma {:induction false} ExpandNone(ms: seq<string>, tc: nat, gs: seq<string>)
    requires Fits(ms, tc) && gs == []
    ensures Expand(ms, tc, gs) == []
  {
    if ms != [] {
      ExpandNone(ms[..|ms| - 1], tc, gs);
    }
  }

  lemma MulMono(a: nat, b: nat, g: nat)
    requires a <= b
    ensures a * g <= b * g
  {
  }

  /** `mutate(tc, ·)` appends |glyphs| entries per original entry, in
      source-then-glyph order, each its source with only index `tc` replaced. */
  lemma {:induction false} ExpandAt(ms: seq<string>, tc: nat, gs: seq<string>, j: nat, k: nat)
    requires Fits(ms, tc) && j < |ms| && k < |gs|
    ensures |Expand(ms, tc, gs)| == |ms| * |gs|
    ensures j * |gs| + k < |ms| * |gs|
    ensures Expand(ms, tc, gs)[j * |gs| + k] == Replace(ms[j], tc, gs[k])
  {
    var n := |ms| - 1;
    var g := |gs|;
    ExpandLength(ms, tc, gs);
    ExpandLength(ms[..n], tc, gs);
    MulSucc(n, g);
    MulSucc(j, g);
    MulMono(j, n, g);
    if j < n {
      MulMono(j + 1, n, g);
      ExpandAt(ms[..n], tc, gs, j, k);
      assert ms[..n][j] == ms[j];
    }
  }

  /** Membership in what `mutate` appends. */
  lemma {:induction false} ExpandMembers(ms: seq<string>, tc: nat, gs: seq<string>, v: string)
    requires Fits(ms, tc)
    ensures v in Expand(ms, tc, gs) <==>
              exists j, k :: 0 <= j < |ms| && 0 <= k < |gs| && v == Replace(ms[j], tc, gs[k])
  {
    if ms != [] {
      var n := |ms| - 1;
      ExpandMembers(ms[..n], tc, gs, v);
      VariantsMembers(ms[n], tc, gs, v);
      PairsSplit(ms, tc, gs, v);
    }
  }

  lemma VariantsMembers(m: string, tc: nat, gs: seq<string>, v: string)
    requires tc < |m|
    ensures v in Variants(m, tc, gs) <==> exists k :: 0 <= k < |gs| && v == Replace(m, tc, gs[k])
  {
    if v in Variants(m, tc, gs) {
      var k :| 0 <= k < |gs| && Variants(m, tc, gs)[k] == v;
    }
    if exists k :: 0 <= k < |gs| && v == Replace(m, tc, gs[k]) {
      var k :| 0 <= k < |gs| && v == Replace(m, tc, gs[k]);
      assert Variants(m, tc, gs)[k] == v;
    }
  }

  /** An entry-glyph pair of `ms` is one of its initial part or one of its
      last entry. */
  lemma PairsSplit(ms: seq<string>, tc: nat, gs: seq<string>, v: string)
    requires Fits(ms, tc) && ms != []
    ensures var n := |ms| - 1;
      (exists j, k :: 0 <= j < |ms| && 0 <= k < |gs| && v == Replace(ms[j], tc, gs[k])) <==>
      (exists j, k :: 0 <= j < n && 0 <= k < |gs| && v == Replace(ms[..n][j], tc, gs[k])) ||
      (exists k :: 0 <= k < |gs| && v == Replace(ms[n], tc, gs[k]))
  {
    var n := |ms| - 1;
    if exists j, k :: 0 <= j < |ms| && 0 <= k < |gs| && v == Replace(ms[j], tc, gs[k]) {
      var j, k :| 0 <= j < |ms| && 0 <= k < |gs| && v == Replace(ms[j], tc, gs[k]);
      if j < n {
        assert ms[..n][j] == ms[j];
      }
    }
    if exists j, k :: 0 <= j < n && 0 <= k < |gs| && v == Replace(ms[..n][j], tc, gs[k]) {
      var j, k :| 0 <= j < n && 0 <= k < |gs| && v == Replace(ms[..n][j], tc, gs[k]);
      assert ms[..n][j] == ms[j];
    }
  }

  /** The table's glyph list for the character of `kw` at `tc`. */
  function Glyphs(t: Table, kw: string, tc: nat): seq<string>
    requires tc < |kw| && Lower(kw[tc]) in t
  {
    t[Lower(kw[tc])]
  }

  predicate NonEmptyGlyphs(t: Table)
  {
    forall c, j :: c in t && 0 <= j < |t[c]| ==> |t[c][j]| > 0
  }

  predicate AtLeast(ms: seq<string>, n: nat)
  {
    forall j :: 0 <= j < |ms| ==> n <= |ms[j]|
  }

  predicate IndicesOf(t: Table, kw: string, tcs: seq<nat>)
  {
    forall i :: 0 <= i < |tcs| ==> tcs[i] < |kw| && Lower(kw[tcs[i]]) in t
  }

  /** `mutate(tc, ·)` over a cage holding `ms` raises no IndexError: it
      indexes an entry only to put a glyph in, so with no glyphs it never
      does, and otherwise every entry must reach `tc`. */
  predicate MutateRuns(ms: seq<string>, tc: nat, gs: seq<string>)
  {
    gs == [] || Fits(ms, tc)
  }

  /** The cage after one `mutate(tc, ·)` call that raised no IndexError. */
  function Mutated(ms: seq<string>, tc: nat, gs: seq<string>): seq<string>
    requires MutateRuns(ms, tc, gs)
  {
    if gs == [] then ms else ms + Expand(ms, tc, gs)
  }

  /** No `mutate` call of a run over the indices of `tcs`, starting from a
      cage holding `ms`, raises IndexError. */
  predicate Runs(t: Table, kw: string, ms: seq<string>, tcs: seq<nat>)
    requires IndicesOf(t, kw, tcs)
    decreases |tcs|, 0
  {
    tcs == [] ||
    (var init := tcs[..|tcs| - 1];
     var tc := tcs[|tcs| - 1];
     Runs(t, kw, ms, init) && MutateRuns(Substitute(t, kw, ms, init), tc, Glyphs(t, kw, tc)))
  }

  /** The cage after `mutate` has run for each index of `tcs` in turn. */
  function Substitute(t: Table, kw: string, ms: seq<string>, tcs: seq<nat>): seq<string>
    requires IndicesOf(t, kw, tcs) && Runs(t, kw, ms, tcs)
    decreases |tcs|, 1
  {
    if tcs == [] then ms
    else
      var tc := tcs[|tcs| - 1];
      Mutated(Substitute(t, kw, ms, tcs[..|tcs| - 1]), tc, Glyphs(t, kw, tc))
  }

  /** Every entry `mutate` appends is at least as long as the shortest
      entry it started from, when no glyph is empty. */
  lemma MutatedAtLeast(ms: seq<string>, tc: nat, gs: seq<string>, n: nat)
    requires AtLeast(ms, n) && tc < n
    requires forall k :: 0 <= k < |gs| ==> |gs[k]| > 0
    ensures MutateRuns(ms, tc, gs) && AtLeast(Mutated(ms, tc, gs), n)
  {
    if gs != [] {
      forall v | v in Expand(ms, tc, gs) ensures n <= |v| {
        ExpandMembers(ms, tc, gs, v);
      }
    }
  }

  /** With no empty glyph in the table, a run from entries as long as the
      keyword never raises IndexError, and every entry stays that long. */
  lemma {:induction false} NonEmptyRuns(t: Table, kw: string, ms: seq<string>, tcs: seq<nat>)
    requires NonEmptyGlyphs(t) && IndicesOf(t, kw, tcs) && AtLeast(ms, |kw|)
    ensures Runs(t, kw, ms, tcs) && AtLeast(Substitute(t, kw, ms, tcs), |kw|)
  {
    if tcs != [] {
      var n := |tcs| - 1;
      var tc := tcs[n];
      NonEmptyRuns(t, kw, ms, tcs[..n]);
      var gs := Glyphs(t, kw, tc);
      assert forall k :: 0 <= k < |gs| ==> |gs[k]| > 0;
      MutatedAtLeast(Substitute(t, kw, ms, tcs[..n]), tc, gs, |kw|);
    }
  }

  /** A run that raises no IndexError raises none on any of its first calls. */
  lemma {:induction false} RunsPrefix(t: Table, kw: string, ms: seq<string>, tcs: seq<nat>, p: nat)
    requires IndicesOf(t, kw, tcs) && p <= |tcs|
    ensures IndicesOf(t, kw, tcs[..p])
    ensures Runs(t, kw, ms, tcs) ==> Runs(t, kw, ms, tcs[..p])
    decreases |tcs|
  {
    if p < |tcs| {
      var n := |tcs| - 1;
      assert tcs[..n][..p] == tcs[..p];
      RunsPrefix(t, kw, ms, tcs[..n], p);
    } else {
      assert tcs[..p] == tcs;
    }
  }

  /** `v` differs from `w` only at indices of `tcs`, and there only by a
      glyph of the keyword's character. */
  ghost predicate Agrees(t: Table, kw: string, w: string, tcs: seq<nat>, v: string)
    requires IndicesOf(t, kw, tcs)
  {
    && |v| == |w|
    && forall i :: 0 <= i < |v| ==>
         v[i] == w[i] || exists p :: 0 <= p < |tcs| && tcs[p] == i && v[i] in GlyphChars(Glyphs(t, kw, i))
  }

  predicate Distinct(tcs: seq<nat>)
  {
    forall a, b :: 0 <= a < b < |tcs| ==> tcs[a] != tcs[b]
  }

  lemma ReplaceSingle(m: string, tc: nat, g: string)
    requires tc < |m| && |g| == 1
    ensures Replace(m, tc, g) == m[tc := g[0]]
  {
  }

  lemma AgreesWiden(t: Table, kw: string, w: string, tcs: seq<nat>, u: string)
    requires IndicesOf(t, kw, tcs) && tcs != []
    requires Agrees(t, kw, w, tcs[..|tcs| - 1], u)
    ensures Agrees(t, kw, w, tcs, u)
  {
    var init := tcs[..|tcs| - 1];
    forall i | 0 <= i < |u| && u[i] != w[i]
      ensures exists p :: 0 <= p < |tcs| && tcs[p] == i && u[i] in GlyphChars(Glyphs(t, kw, i))
    {
      var p :| 0 <= p < |init| && init[p] == i && u[i] in GlyphChars(Glyphs(t, kw, i));
      assert tcs[p] == i;
    }
  }

  lemma AgreesReplaced(t: Table, kw: string, w: string, tcs: seq<nat>, m: string, x: char)
    requires IndicesOf(t, kw, tcs) && tcs != []
    requires |w| == |kw|
    requires Agrees(t, kw, w, tcs[..|tcs| - 1], m)
    requires x in GlyphChars(Glyphs(t, kw, tcs[|tcs| - 1]))
    ensures Agrees(t, kw, w, tcs, m[tcs[|tcs| - 1] := x])
  {
    var n := |tcs| - 1;
    var tc := tcs[n];
    AgreesWiden(t, kw, w, tcs, m);
    var v := m[tc := x];
    forall i | 0 <= i < |v| && v[i] != w[i]
      ensures exists p :: 0 <= p < |tcs| && tcs[p] == i && v[i] in GlyphChars(Glyphs(t, kw, i))
    {
      if i == tc {
        assert tcs[n] == i;
      } else {
        assert m[i] == v[i];
      }
    }
  }

  lemma AgreesNarrow(t: Table, kw: string, w: string, tcs: seq<nat>, v: string)
    requires IndicesOf(t, kw, tcs) && Distinct(tcs) && tcs != []
    requires Agrees(t, kw, w, tcs, v)
    requires |v| == |w| == |kw|
    ensures Agrees(t, kw, w, tcs[..|tcs| - 1], v[tcs[|tcs| - 1] := w[tcs[|tcs| - 1]]])
  {
    var n := |tcs| - 1;
    var tc := tcs[n];
    var init := tcs[..n];
    var m := v[tc := w[tc]];
    forall i | 0 <= i < |m| && m[i] != w[i]
      ensures exists p :: 0 <= p < |init| && init[p] == i && m[i] in GlyphChars(Glyphs(t, kw, i))
    {
      var p :| 0 <= p < |tcs| && tcs[p] == i && v[i] in GlyphChars(Glyphs(t, kw, i));
      assert p != n;
      assert init[p] == i;
    }
  }

  /** One more `mutate` call frees one more index: strings agreeing with `w`
      off `tcs[..n]` gain the glyph choices at `tcs[n]`. */
  lemma SubstituteStep(t: Table, kw: string, w: string, tcs: seq<nat>, prev: seq<string>, v: string)
    requires SimpleTable(t) && NonEmptyGlyphs(t) && IndicesOf(t, kw, tcs) && Distinct(tcs) && tcs != []
    requires |w| == |kw|
    requires Fits(prev, tcs[|tcs| - 1])
    requires forall u :: u in prev <==> Agrees(t, kw, w, tcs[..|tcs| - 1], u)
    ensures v in prev + Expand(prev, tcs[|tcs| - 1], Glyphs(t, kw, tcs[|tcs| - 1])) <==> Agrees(t, kw, w, tcs, v)
  {
    var tc := tcs[|tcs| - 1];
    var gs := Glyphs(t, kw, tc);
    ExpandMembers(prev, tc, gs, v);
    if v in prev {
      AgreesWiden(t, kw, w, tcs, v);
    } else if v in Expand(prev, tc, gs) {
      StepSound(t, kw, w, tcs, prev, tc, gs, v);
    }
    if Agrees(t, kw, w, tcs, v) {
      StepComplete(t, kw, w, tcs, prev, tc, gs, v);
    }
  }

  /** A variant `mutate` appends agrees with `w` on the wider index list. */
  lemma StepSound(t: Table, kw: string, w: string, tcs: seq<nat>, prev: seq<string>, tc: nat, gs: seq<string>, v: string)
    requires SimpleTable(t) && NonEmptyGlyphs(t) && IndicesOf(t, kw, tcs) && Distinct(tcs) && tcs != []
    requires |w| == |kw|
    requires tc == tcs[|tcs| - 1] && tc < |kw| && Lower(kw[tc]) in t && gs == Glyphs(t, kw, tc)
    requires Fits(prev, tc)
    requires forall u :: u in prev <==> Agrees(t, kw, w, tcs[..|tcs| - 1], u)
    requires exists j, k :: 0 <= j < |prev| && 0 <= k < |gs| && v == Replace(prev[j], tc, gs[k])
    ensures Agrees(t, kw, w, tcs, v)
  {
    assert SimpleGlyphs(Lower(kw[tc]), gs);
    var j, k :| 0 <= j < |prev| && 0 <= k < |gs| && v == Replace(prev[j], tc, gs[k]);
    assert prev[j] in prev;
    ReplaceSingle(prev[j], tc, gs[k]);
    AgreesReplaced(t, kw, w, tcs, prev[j], gs[k][0]);
  }

  /** A string agreeing with `w` on the wider index list is in the cage or
      among the variants `mutate` appends. */
  lemma StepComplete(t: Table, kw: string, w: string, tcs: seq<nat>, prev: seq<string>, tc: nat, gs: seq<string>, v: string)
    requires SimpleTable(t) && NonEmptyGlyphs(t) && IndicesOf(t, kw, tcs) && Distinct(tcs) && tcs != []
    requires |w| == |kw|
    requires tc == tcs[|tcs| - 1] && tc < |kw| && Lower(kw[tc]) in t && gs == Glyphs(t, kw, tc)
    requires Fits(prev, tc)
    requires forall u :: u in prev <==> Agrees(t, kw, w, tcs[..|tcs| - 1], u)
    requires Agrees(t, kw, w, tcs, v)
    ensures v in prev || exists j, k :: 0 <= j < |prev| && 0 <= k < |gs| && v == Replace(prev[j], tc, gs[k])
  {
    var m := v[tc := w[tc]];
    AgreesNarrow(t, kw, w, tcs, v);
    if v[tc] == w[tc] {
      assert m == v;
    } else {
      assert SimpleGlyphs(Lower(kw[tc]), gs);
      assert m in prev;
      var j :| 0 <= j < |prev| && prev[j] == m;
      var p :| 0 <= p < |tcs| && tcs[p] == tc && v[tc] in GlyphChars(gs);
      var k :| 0 <= k < |gs| && gs[k] == [v[tc]];
      ReplaceSingle(m, tc, gs[k]);
      assert v == Replace(prev[j], tc, gs[k]);
    }
  }

  /** Running `mutate` over distinct indices `tcs` from the single entry `w`
      leaves in the cage exactly the strings that agree with `w` outside
      `tcs` and take the original or a glyph at each index of `tcs`. */
  lemma {:induction false} SubstituteMembers(t: Table, kw: string, w: string, tcs: seq<nat>, v: string)
    requires SimpleTable(t) && NonEmptyGlyphs(t) && IndicesOf(t, kw, tcs) && Distinct(tcs)
    requires |w| == |kw|
    ensures Runs(t, kw, [w], tcs)
    ensures v in Substitute(t, kw, [w], tcs) <==> Agrees(t, kw, w, tcs, v)
  {
    NonEmptyRuns(t, kw, [w], tcs);
    if tcs == [] {
      if Agrees(t, kw, w, tcs, v) {
        assert v == w;
      }
    } else {
      var n := |tcs| - 1;
      var tc := tcs[n];
      NonEmptyRuns(t, kw, [w], tcs[..n]);
      var prev := Substitute(t, kw, [w], tcs[..n]);
      forall u ensures u in prev <==> Agrees(t, kw, w, tcs[..n], u) {
        SubstituteMembers(t, kw, w, tcs[..n], u);
      }
      if Glyphs(t, kw, tc) == [] {
        ExpandNone(prev, tc, Glyphs(t, kw, tc));
      }
      SubstituteStep(t, kw, w, tcs, prev, v);
    }
  }

  /** The cage `mutations_handler` builds for one basic mutation: it starts
      from the stripped word and runs `mutate` for each index of `tcs`. */
  function Cage(t: Table, kw: string, w: string, tcs: seq<nat>): seq<string>
    requires IndicesOf(t, kw, tcs) && Runs(t, kw, [Strip(w)], tcs)
  {
    Substitute(t, kw, [Strip(w)], tcs)
  }

  /** No cage of the words of `ws` raises IndexError. */
  predicate RunsAll(t: Table, kw: string, ws: seq<string>, tcs: seq<nat>)
    requires IndicesOf(t, kw, tcs)
  {
    forall j :: 0 <= j < |ws| ==> Runs(t, kw, [Strip(ws[j])], tcs)
  }

  /** An empty glyph shortens the entries it goes into, so a later index can
      lie beyond them: with `a` mapped to [""] and `b` to ["8"], the variant
      "b" of "ab" has no index 1 and the second `mutate` raises IndexError. */
  lemma ShortenedCageFails()
    ensures IndicesOf(map['a' := [""], 'b' := ["8"]], "ab", [0, 1])
    ensures !Runs(map['a' := [""], 'b' := ["8"]], "ab", ["ab"], [0, 1])
  {
    var t: Table := map['a' := [""], 'b' := ["8"]];
    var tcs: seq<nat> := [0, 1];
    assert tcs[..1] == [0] && [0][..0] == [];
    assert Replace("ab", 0, "") == "b";
    assert Substitute(t, "ab", ["ab"], [0]) == ["ab", "b"];
    var cage := ["ab", "b"];
    assert |cage[1]| == 1;
  }

  /** An empty glyph alone raises nothing: with only `b` mapped to [""],
      "ab" gains the variant "a". */
  lemma EmptyGlyphRuns()
    ensures IndicesOf(map['b' := [""]], "ab", [1])
    ensures Runs(map['b' := [""]], "ab", ["ab"], [1])
    ensures Substitute(map['b' := [""]], "ab", ["ab"], [1]) == ["ab", "a"]
  {
    var t: Table := map['b' := [""]];
    assert [1][..0] == [];
    assert Replace("ab", 1, "") == "a";
    assert Expand(["ab"], 1, [""]) == ["a"] by {
      assert ["ab"][..0] == [];
    }
  }

  /** The cages of the words of `ws`, one after another. */
  function Substitutions(t: Table, kw: string, ws: seq<string>, tcs: seq<nat>): seq<string>
    requires IndicesOf(t, kw, tcs) && RunsAll(t, kw, ws, tcs)
  {
    if ws == [] then []
    else Substitutions(t, kw, ws[..|ws| - 1], tcs) + Cage(t, kw, ws[|ws| - 1], tcs)
  }

  lemma SubstitutionsSnoc(t: Table, kw: string, ws: seq<string>, j: nat, tcs: seq<nat>)
    requires IndicesOf(t, kw, tcs) && RunsAll(t, kw, ws, tcs)
    requires j < |ws|
    ensures RunsAll(t, kw, ws[..j], tcs) && RunsAll(t, kw, ws[..j + 1], tcs)
    ensures Substitutions(t, kw, ws[..j + 1], tcs) == Substitutions(t, kw, ws[..j], tcs) + Cage(t, kw, ws[j], tcs)
  {
    assert ws[..j + 1][..j] == ws[..j];
  }

  /** The cages of the words of `ws`, as the list `container` collects them. */
  function Cages(t: Table, kw: string, ws: seq<string>, tcs: seq<nat>): (cs: seq<seq<string>>)
    requires IndicesOf(t, kw, tcs) && RunsAll(t, kw, ws, tcs)
    ensures |cs| == |ws|
  {
    seq(|ws|, j requires 0 <= j < |ws| => Cage(t, kw, ws[j], tcs))
  }

  lemma {:induction false} SubstitutionsFlatten(t: Table, kw: string, ws: seq<string>, tcs: seq<nat>)
    requires IndicesOf(t, kw, tcs) && RunsAll(t, kw, ws, tcs)
    ensures Substitutions(t, kw, ws, tcs) == Flatten(Cages(t, kw, ws, tcs))
  {
    if ws != [] {
      var n := |ws| - 1;
      var cs := Cages(t, kw, ws, tcs);
      CagesInit(t, kw, ws, tcs);
      SubstitutionsFlatten(t, kw, ws[..n], tcs);
      assert Flatten(cs) == Flatten(cs[..n]) + cs[n];
    } else {
      assert Cages(t, kw, ws, tcs) == [];
    }
  }

  lemma CagesInit(t: Table, kw: string, ws: seq<string>, tcs: seq<nat>)
    requires IndicesOf(t, kw, tcs) && RunsAll(t, kw, ws, tcs) && ws != []
    ensures RunsAll(t, kw, ws[..|ws| - 1], tcs)
    ensures Cages(t, kw, ws, tcs)[..|ws| - 1] == Cages(t, kw, ws[..|ws| - 1], tcs)
  {
    var n := |ws| - 1;
    assert RunsAll(t, kw, ws[..n], tcs);
    var cs := Cages(t, kw, ws, tcs);
    forall i | 0 <= i < n ensures cs[..n][i] == Cages(t, kw, ws[..n], tcs)[i] {
      assert ws[..n][i] == ws[i];
    }
  }

  /** A string is in the collected cages exactly when one word's cage holds it. */
  lemma SubstitutionsMembers(t: Table, kw: string, ws: seq<string>, tcs: seq<nat>, v: string)
    requires IndicesOf(t, kw, tcs) && RunsAll(t, kw, ws, tcs)
    ensures v in Substitutions(t, kw, ws, tcs) <==> exists j :: 0 <= j < |ws| && v in Cage(t, kw, ws[j], tcs)
  {
    var cs := Cages(t, kw, ws, tcs);
    SubstitutionsFlatten(t, kw, ws, tcs);
    FlattenMembers(cs, v);
    if exists j :: 0 <= j < |ws| && v in Cage(t, kw, ws[j], tcs) {
      var j :| 0 <= j < |ws| && v in Cage(t, kw, ws[j], tcs);
      assert v in cs[j];
    }
  }
}
