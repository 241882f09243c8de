/** The mutation engine of psudohash.py: the module-level lists
    `basic_mutations` and `mutations_cage`, the open wordlist, and the
    functions that fill them keyword by keyword. */
module Engine {
  import opened Text
  import opened Settings
  import opened Transformations
  import opened Substitution
  import opened Casing
  import opened Lines
  import opened Numbering
  import opened Years
  import opened Paddings
  import opened Coverage
  import opened Stages

  /** One more `mutate` call: a run that has raised nothing so far goes on
      without IndexError exactly when this call raises none, and the cage
      grows as `Substitute` says. */
  lemma SubstituteSnoc(t: Table, kw: string, ms: seq<string>, tcs: seq<nat>, p: nat)
    requires IndicesOf(t, kw, tcs) && p < |tcs|
    requires IndicesOf(t, kw, tcs[..p]) && Runs(t, kw, ms, tcs[..p])
    ensures IndicesOf(t, kw, tcs[..p + 1])
    ensures tcs[p] < |kw| && Lower(kw[tcs[p]]) in t
    ensures Runs(t, kw, ms, tcs[..p + 1]) == MutateRuns(Substitute(t, kw, ms, tcs[..p]), tcs[p], Glyphs(t, kw, tcs[p]))
    ensures Runs(t, kw, ms, tcs[..p + 1]) ==>
              Substitute(t, kw, ms, tcs[..p + 1]) == Mutated(Substitute(t, kw, ms, tcs[..p]), tcs[p], Glyphs(t, kw, tcs[p]))
  {
    assert tcs[..p + 1][..p] == tcs[..p];
  }

  /** One more cage collected keeps `container` flattening to the cages of
      the words handled so far. */
  lemma CollectStep(t: Table, kw: string, ws: seq<string>, j: nat, tcs: seq<nat>,
                    container: seq<seq<string>>, results: seq<string>)
    requires IndicesOf(t, kw, tcs) && j < |ws|
    requires RunsAll(t, kw, ws[..j], tcs) && Flatten(container) == Substitutions(t, kw, ws[..j], tcs)
    requires Runs(t, kw, [Strip(ws[j])], tcs) && results == Substitute(t, kw, [Strip(ws[j])], tcs)
    ensures RunsAll(t, kw, ws[..j + 1], tcs)
    ensures Flatten(container + [results]) == Substitutions(t, kw, ws[..j + 1], tcs)
  {
    var next := ws[..j + 1];
    assert next[..j] == ws[..j];
    forall i | 0 <= i < |next| ensures Runs(t, kw, [Strip(next[i])], tcs) {
      if i < j {
        assert next[i] == ws[..j][i];
      }
    }
    assert Cage(t, kw, next[j], tcs) == results;
    assert Substitutions(t, kw, next, tcs) == Substitutions(t, kw, ws[..j], tcs) + results;
    assert (container + [results])[..|container|] == container;
  }

  lemma MulLess(a: nat, b: nat, g: nat)
    requires a < b && g > 0
    ensures a * g < b * g
  {
    assert b * g == a * g + (b - a) * g;
  }

  /** One pass of `mutate`'s loop: the variants of entry `j` extend what the
      earlier entries appended. */
  lemma CageStep(orig: seq<string>, j: nat, tc: nat, gs: seq<string>, after: seq<string>)
    requires j < |orig| && tc < |orig[j]| && Fits(orig[..j], tc)
    requires after == orig + Expand(orig[..j], tc, gs) + Variants(orig[j], tc, gs)
    ensures Fits(orig[..j + 1], tc)
    ensures after == orig + Expand(orig[..j + 1], tc, gs)
  {
    assert orig[..j + 1][..j] == orig[..j];
    assert Fits(orig[..j + 1], tc);
    ConcatAssoc(orig, Expand(orig[..j], tc, gs), Variants(orig[j], tc, gs));
  }

  class Generator {
    const cfg: Config
    /** `basic_mutations`: the current keyword's mutations so far. */
    var basicMutations: seq<string>
    /** `mutations_cage`: the substitution variants of one basic mutation. */
    var cage: seq<string>
    /** The lines written to the wordlist so far, without their '\n'. */
    var out: seq<string>

    constructor (cfg: Config)
      ensures this.cfg == cfg
      ensures basicMutations == [] && cage == [] && out == []
    {
      this.cfg := cfg;
      basicMutations := [];
      cage := [];
      out := [];
    }

    /** `for m in ls: wordlist_handle.write(m + '\n')`. */
    method WriteLines(ls: seq<string>)
      modifies this
      ensures out == old(out) + ls
      ensures basicMutations == old(basicMutations) && cage == old(cage)
    {
      var j := 0;
      while j < |ls|
        invariant j <= |ls|
        invariant out == old(out) + ls[..j]
        invariant basicMutations == old(basicMutations) && cage == old(cage)
      {
        out := out + [ls[j]];
        j := j + 1;
      }
      assert ls[..j] == ls;
    }

    /** `case_mutations_handler`: every upper/lower-case combination of `word`
        joins the basic mutations; when the keyword has nothing to substitute,
        the list is deduplicated and written at once. */
    method CaseMutationsHandler(word: string, mutability: nat)
      modifies this
      ensures cage == old(cage)
      ensures mutability > 0 ==> basicMutations == old(basicMutations) + MutateCase(word) && out == old(out)
      ensures mutability == 0 ==>
        && NoDups(basicMutations)
        && Elems(basicMutations) == Elems(old(basicMutations) + MutateCase(word))
        && out == old(out) + basicMutations
    {
      basicMutations := basicMutations + MutateCase(word);
      if mutability > 0 {
        return;
      }
      basicMutations := Dedup(basicMutations);
      WriteLines(basicMutations);
    }

    /** `mutate(tc, word)`: every entry already in the cage comes back once per
        glyph of the character at `tc`, with that glyph in its place. The loop
        walks the cage while it grows and stops once it has appended
        `len(trans) * len(cage)` entries. `w[tc] = tt` raises IndexError on
        an entry shorter than `tc + 1` when there is a glyph to put in; then
        `ok` is false and the cage keeps what the earlier entries added. */
    method Mutate(tc: nat, kword: string) returns (ok: bool, result: seq<string>)
      requires tc < |kword| && Lower(kword[tc]) in cfg.transformations
      modifies this
      ensures ok == MutateRuns(old(cage), tc, Glyphs(cfg.transformations, kword, tc))
      ensures ok ==> cage == Mutated(old(cage), tc, Glyphs(cfg.transformations, kword, tc))
      ensures !ok ==> exists j :: 0 <= j < |old(cage)| && |old(cage)[j]| <= tc && Fits(old(cage)[..j], tc) &&
                        cage == old(cage) + Expand(old(cage)[..j], tc, Glyphs(cfg.transformations, kword, tc))
      ensures result == cage
      ensures basicMutations == old(basicMutations) && out == old(out)
    {
      var trans := cfg.transformations[Lower(kword[tc])];
      var limit := |trans| * |cage|;
      var c := 0;
      ghost var orig := cage;
      assert limit == |orig| * |trans|;
      ok := true;
      var j := 0;
      while j < |cage|
        invariant j <= |orig|
        invariant j == |orig| ==> orig == []
        invariant trans != [] ==> Fits(orig[..j], tc) && cage == orig + Expand(orig[..j], tc, trans)
        invariant trans == [] ==> cage == orig
        invariant c == j * |trans|
        invariant basicMutations == old(basicMutations) && out == old(out)
        decreases |orig| - j
      {
        var m := cage[j];
        assert m == orig[j];
        if tc < |m| {
          c := AppendVariants(m, tc, trans, c);
          if trans != [] {
            CageStep(orig, j, tc, trans, cage);
          }
        } else if trans != [] {
          ok := false;
          result := cage;
          return;
        }
        Lines.MulSucc(j, |trans|);
        j := j + 1;
        if limit == c {
          break;
        }
        if j == |orig| {
          assert false;
        }
      }
      if trans != [] {
        if j < |orig| {
          MulLess(j, |orig|, |trans|);
        }
        assert orig[..j] == orig;
      }
      result := cage;
    }

    /** The body of `mutate`'s loop for the entry `m`: one copy of `m` per
        glyph, with the glyph at `tc`, each appended to the cage and counted. */
    method AppendVariants(m: string, tc: nat, trans: seq<string>, c0: int) returns (c: int)
      requires tc < |m|
      modifies this
      ensures cage == old(cage) + Variants(m, tc, trans)
      ensures c == c0 + |trans|
      ensures basicMutations == old(basicMutations) && out == old(out)
    {
      c := c0;
      var w := Pieces(m);
      var k := 0;
      while k < |trans|
        invariant k <= |trans|
        invariant |w| == |m|
        invariant forall i :: 0 <= i < |m| && i != tc ==> w[i] == [m[i]]
        invariant cage == old(cage) + Variants(m, tc, trans)[..k]
        invariant c == c0 + k
        invariant basicMutations == old(basicMutations) && out == old(out)
      {
        w := w[tc := trans[k]];
        assert w == Pieces(m)[tc := trans[k]];
        ConcatReplace(m, tc, trans[k]);
        var transformed := Concat(w);
        cage := cage + [transformed];
        c := c + 1;
        assert Variants(m, tc, trans)[..k + 1] == Variants(m, tc, trans)[..k] + [transformed];
        k := k + 1;
      }
      assert Variants(m, tc, trans)[..k] == Variants(m, tc, trans);
    }

    /** The first loop of `mutations_handler`: every basic mutation,
        stripped, goes through `mutate` once per index of `transChars`, and
        its cage is collected. It stops at the first IndexError. */
    method CollectCages(kword: string, transChars: seq<nat>) returns (ok: bool, container: seq<seq<string>>)
      requires |transChars| > 0
      requires IndicesOf(cfg.transformations, kword, transChars)
      modifies this
      ensures ok == RunsAll(cfg.transformations, kword, old(basicMutations), transChars)
      ensures ok ==> Flatten(container) == Substitutions(cfg.transformations, kword, old(basicMutations), transChars)
      ensures basicMutations == old(basicMutations) && out == old(out)
    {
      ghost var t := cfg.transformations;
      ghost var ws := basicMutations;
      container := [];
      ok := true;
      var j := 0;
      while j < |basicMutations|
        invariant basicMutations == ws && out == old(out)
        invariant j <= |ws|
        invariant RunsAll(t, kword, ws[..j], transChars)
        invariant Flatten(container) == Substitutions(t, kword, ws[..j], transChars)
      {
        var word := basicMutations[j];
        var results;
        ok, results := CageOf(kword, transChars, Strip(word));
        if !ok {
          assert !Runs(t, kword, [Strip(ws[j])], transChars);
          return;
        }
        CollectStep(t, kword, ws, j, transChars, container, results);
        container := container + [results];
        j := j + 1;
      }
      assert ws[..j] == ws;
    }

    /** The inner loop of `mutations_handler`'s first loop: the cage starts
        as the stripped basic mutation `m` and goes through `mutate` once per
        index of `transChars`; `results` is the last cage returned. It stops
        at the first IndexError. */
    method CageOf(kword: string, transChars: seq<nat>, m: string) returns (ok: bool, results: seq<string>)
      requires |transChars| > 0
      requires IndicesOf(cfg.transformations, kword, transChars)
      modifies this
      ensures ok == Runs(cfg.transformations, kword, [m], transChars)
      ensures ok ==> results == Substitute(cfg.transformations, kword, [m], transChars)
      ensures basicMutations == old(basicMutations) && out == old(out)
    {
      ghost var t := cfg.transformations;
      cage := [m];
      results := [];
      ok := true;
      var p := 0;
      while p < |transChars|
        invariant basicMutations == old(basicMutations) && out == old(out)
        invariant p <= |transChars|
        invariant IndicesOf(t, kword, transChars[..p]) && Runs(t, kword, [m], transChars[..p])
        invariant cage == Substitute(t, kword, [m], transChars[..p])
        invariant p > 0 ==> results == cage
      {
        SubstituteSnoc(t, kword, [m], transChars, p);
        ok, results := Mutate(transChars[p], kword);
        RunsPrefix(t, kword, [m], transChars, p + 1);
        if !ok {
          return;
        }
        p := p + 1;
      }
      assert transChars[..p] == transChars;
    }

    /** `mutations_handler`: the cages of all basic mutations join the basic
        mutations, which are deduplicated and written. `transChars` must not
        be empty (the source only calls it for a keyword with a key
        character; with none, `results` would be unbound). An IndexError in
        `mutate` leaves before anything is written. */
    method MutationsHandler(kword: string, transChars: seq<nat>, total: nat) returns (ok: bool)
      requires |transChars| > 0
      requires IndicesOf(cfg.transformations, kword, transChars)
      modifies this
      ensures ok == RunsAll(cfg.transformations, kword, old(basicMutations), transChars)
      ensures ok ==> NoDups(basicMutations)
      ensures ok ==>
                Elems(basicMutations) ==
                Elems(old(basicMutations) + Substitutions(cfg.transformations, kword, old(basicMutations), transChars))
      ensures ok ==> out == old(out) + basicMutations
      ensures !ok ==> out == old(out)
    {
      var container;
      ok, container := CollectCages(kword, transChars);
      if !ok {
        return;
      }
      AppendAll(container);
      basicMutations := Dedup(basicMutations);
      WriteLines(basicMutations);
    }

    /** The second loop of `mutations_handler`: every entry of every cage is
        appended to the basic mutations. */
    method AppendAll(container: seq<seq<string>>)
      modifies this
      ensures basicMutations == old(basicMutations) + Flatten(container)
      ensures cage == old(cage) && out == old(out)
    {
      var i := 0;
      while i < |container|
        invariant i <= |container|
        invariant basicMutations == old(basicMutations) + Flatten(container[..i]) && cage == old(cage) && out == old(out)
      {
        var mSet := container[i];
        ghost var before := basicMutations;
        var q := 0;
        while q < |mSet|
          invariant q <= |mSet|
          invariant basicMutations == before + mSet[..q] && cage == old(cage) && out == old(out)
        {
          assert before + mSet[..q + 1] == (before + mSet[..q]) + [mSet[q]] by {
            assert mSet[..q + 1] == mSet[..q] + [mSet[q]];
          }
          basicMutations := basicMutations + [mSet[q]];
          q := q + 1;
        }
        assert old(basicMutations) + Flatten(container[..i + 1]) == before + mSet by {
          assert mSet[..q] == mSet;
          assert container[..i + 1][..i] == container[..i];
          assert Flatten(container[..i + 1]) == Flatten(container[..i]) + mSet;
        }
        i := i + 1;
      }
      assert container[..i] == container;
    }

    /** The innermost loop of `do_append_numbering`: level `i` of one word,
        counters 1..`numbering_limit`. On the first cycle every pair is
        written and remembered; afterwards a pair is written only when its
        line differs from the remembered one. */
    method NumberLevel(word: string, i: nat, first: bool, previous: seq<string>) returns (prev: seq<string>)
      requires i >= 1
      requires first ==> i == 1 && previous == []
      requires !first ==> |previous| == Counters(cfg.numberingLimit)
      modifies this
      ensures prev == Memory(word, i, Counters(cfg.numberingLimit))
      ensures first || Consistent(previous, word, i) ==> out == old(out) + LevelLines(word, i, Counters(cfg.numberingLimit))
      ensures basicMutations == old(basicMutations) && cage == old(cage)
    {
      ghost var limit := Counters(cfg.numberingLimit);
      ghost var cond := first || Consistent(previous, word, i);
      prev := previous;
      var k := 1;
      while k <= cfg.numberingLimit
        invariant 1 <= k <= limit + 1
        invariant first ==> prev == Memory(word, i, k - 1)
        invariant !first ==> prev == Memory(word, i, k - 1) + previous[k - 1..]
        invariant cond ==> out == old(out) + LevelLines(word, i, k - 1)
        invariant basicMutations == old(basicMutations) && cage == old(cage)
      {
        LevelLinesNext(old(out), word, i, k);
        prev := NumberCounter(word, i, k, first, previous, prev);
        k := k + 1;
      }
      if !first {
        assert previous[limit..] == [];
      }
    }

    /** One pass of the innermost loop of `do_append_numbering`: counter `k`
        of level `i`. */
    method NumberCounter(word: string, i: nat, k: nat, first: bool, previous: seq<string>, prev: seq<string>)
      returns (prev': seq<string>)
      requires i >= 1 && 1 <= k
      requires first ==> i == 1 && prev == Memory(word, i, k - 1)
      requires !first ==> k <= |previous| && prev == Memory(word, i, k - 1) + previous[k - 1..]
      modifies this
      ensures first ==> prev' == Memory(word, i, k)
      ensures !first ==> prev' == Memory(word, i, k) + previous[k..]
      ensures first || Consistent(previous, word, i) ==>
                out == old(out) + (if Written(i, k) then Pair(word, k, i) else [])
      ensures basicMutations == old(basicMutations) && cage == old(cage)
    {
      var n := ZFill(Dec(k), i);
      prev' := prev;
      if first {
        out := out + [word + n];
        out := out + [word + "_" + n];
        prev' := prev' + [word + n];
      } else {
        RememberStep(word, i, k, previous, prev, n);
        if prev'[k - 1] != word + n {
          out := out + [word + n];
          out := out + [word + "_" + n];
          prev' := prev'[k - 1 := word + n];
        }
      }
    }

    /** The middle loop of `do_append_numbering`: levels 1..`append_numbering`
        of one word; `first_cycle` is cleared after every level. */
    method NumberWord(word: string, first: bool, previous: seq<string>) returns (first': bool, prev: seq<string>)
      requires first ==> previous == []
      requires !first ==> |previous| == Counters(cfg.numberingLimit)
      modifies this
      ensures cfg.appendNumbering == 0 ==> first' == first && prev == previous && out == old(out)
      ensures cfg.appendNumbering > 0 ==> !first' && prev == Memory(word, cfg.appendNumbering, Counters(cfg.numberingLimit))
      ensures first || Consistent(previous, word, 1) ==>
                out == old(out) + WordLines(word, cfg.appendNumbering, Counters(cfg.numberingLimit))
      ensures first || Consistent(previous, word, 1) ==> NoDups(out[|old(out)|..])
      ensures basicMutations == old(basicMutations) && cage == old(cage)
    {
      ghost var limit := Counters(cfg.numberingLimit);
      ghost var cond := first || Consistent(previous, word, 1);
      var lvl := cfg.appendNumbering;
      first' := first;
      prev := previous;
      var i := 1;
      while i <= lvl
        invariant 1 <= i <= lvl + 1
        invariant i == 1 ==> first' == first && prev == previous && out == old(out)
        invariant i > 1 ==> !first' && prev == Memory(word, i - 1, limit)
        invariant cond ==> out == old(out) + WordLines(word, i - 1, limit)
        invariant basicMutations == old(basicMutations) && cage == old(cage)
      {
        if i > 1 {
          NextLevelConsistent(word, i, limit);
        }
        WordLinesNext(old(out), word, i, limit);
        prev := NumberLevel(word, i, first', prev);
        first' := false;
        i := i + 1;
      }
      WordLinesNoDups(word, lvl, limit);
      assert cond ==> out[|old(out)|..] == WordLines(word, lvl, limit);
    }

    /** `do_append_numbering`: every basic mutation followed by its counters,
        at every padding level. When the basic mutations are distinct and of
        one length, the remembered-line check suppresses exactly the lines
        whose padding repeats the previous level's. */
    method DoAppendNumbering()
      modifies this
      ensures basicMutations == old(basicMutations) && cage == old(cage)
      ensures NoDups(basicMutations) && SameLength(basicMutations) ==>
                out == old(out) + NumberingLines(basicMutations, cfg.appendNumbering, Counters(cfg.numberingLimit))
      ensures NoDups(basicMutations) && SameLength(basicMutations) ==> NoDups(out[|old(out)|..])
    {
      ghost var limit := Counters(cfg.numberingLimit);
      ghost var ws := basicMutations;
      ghost var uniform := NoDups(ws) && SameLength(ws);
      var firstCycle := true;
      var previous: seq<string> := [];
      var j := 0;
      while j < |basicMutations|
        invariant basicMutations == ws && cage == old(cage)
        invariant j <= |ws|
        invariant firstCycle ==> previous == []
        invariant !firstCycle ==> |previous| == limit
        invariant j > 0 && cfg.appendNumbering > 0 ==> !firstCycle && previous == Memory(ws[j - 1], cfg.appendNumbering, limit)
        invariant j == 0 || cfg.appendNumbering == 0 ==> firstCycle
        invariant uniform ==> out == old(out) + NumberingLines(ws[..j], cfg.appendNumbering, limit)
      {
        var word := basicMutations[j];
        if uniform && !firstCycle {
          assert ws[j - 1] != word && |ws[j - 1]| == |word|;
          NextWordConsistent(ws[j - 1], word, cfg.appendNumbering, limit);
        }
        NumberingLinesNext(old(out), ws, j, cfg.appendNumbering, limit);
        firstCycle, previous := NumberWord(word, firstCycle, previous);
        j := j + 1;
      }
      assert ws[..j] == ws;
      if uniform {
        NumberingLinesNoDups(ws, cfg.appendNumbering, limit);
        assert out[|old(out)|..] == NumberingLines(ws, cfg.appendNumbering, limit);
      }
    }

    /** `mutate_years`: for a copy of the basic mutations, every year in full
        and in short form behind every separator is written and also joins
        the basic mutations. */
    method MutateYears()
      modifies this
      ensures out == old(out) + YearLines(old(basicMutations), cfg.years, cfg.yearSeparators)
      ensures basicMutations == old(basicMutations) + YearLines(old(basicMutations), cfg.years, cfg.yearSeparators)
      ensures cage == old(cage)
    {
      ghost var ys, seps := cfg.years, cfg.yearSeparators;
      var current := basicMutations;
      ghost var acc: seq<string> := [];
      var j := 0;
      while j < |current|
        invariant j <= |current|
        invariant acc == YearLines(current[..j], ys, seps)
        invariant out == old(out) + acc && basicMutations == old(basicMutations) + acc && cage == old(cage)
      {
        var word := current[j];
        YearsForWord(word);
        ConcatAssoc(old(out), acc, WordYearLines(word, ys, seps));
        ConcatAssoc(old(basicMutations), acc, WordYearLines(word, ys, seps));
        YearLinesNext(current, j, ys, seps);
        acc := acc + WordYearLines(word, ys, seps);
        j := j + 1;
      }
      assert current[..j] == current;
    }

    /** The loop of `mutate_years` over the years, for one word. */
    method YearsForWord(word: string)
      modifies this
      ensures out == old(out) + WordYearLines(word, cfg.years, cfg.yearSeparators)
      ensures basicMutations == old(basicMutations) + WordYearLines(word, cfg.years, cfg.yearSeparators)
      ensures cage == old(cage)
    {
      ghost var ys, seps := cfg.years, cfg.yearSeparators;
      ghost var acc: seq<string> := [];
      var a := 0;
      while a < |cfg.years|
        invariant a <= |ys|
        invariant acc == WordYearLines(word, ys[..a], seps)
        invariant out == old(out) + acc && basicMutations == old(basicMutations) + acc && cage == old(cage)
      {
        var y := cfg.years[a];
        SepsForYear(word, y);
        assert old(out) + (acc + SepLines(word, y, seps)) == (old(out) + acc) + SepLines(word, y, seps);
        assert old(basicMutations) + (acc + SepLines(word, y, seps)) ==
               (old(basicMutations) + acc) + SepLines(word, y, seps);
        acc := acc + SepLines(word, y, seps);
        assert WordYearLines(word, ys[..a + 1], seps) == WordYearLines(word, ys[..a], seps) + SepLines(word, y, seps) by {
          assert ys[..a + 1][..a] == ys[..a];
        }
        a := a + 1;
      }
      assert ys[..a] == ys;
    }

    /** The innermost loop of `mutate_years`: one word and one year behind
        every separator, in full and in short form. */
    method SepsForYear(word: string, y: string)
      modifies this
      ensures out == old(out) + SepLines(word, y, cfg.yearSeparators)
      ensures basicMutations == old(basicMutations) + SepLines(word, y, cfg.yearSeparators)
      ensures cage == old(cage)
    {
      ghost var seps := cfg.yearSeparators;
      var b := 0;
      while b < |cfg.yearSeparators|
        invariant b <= |seps|
        invariant out == old(out) + SepLines(word, y, seps[..b])
        invariant basicMutations == old(basicMutations) + SepLines(word, y, seps[..b])
        invariant cage == old(cage)
      {
        var sep := cfg.yearSeparators[b];
        var short := if |y| >= 2 then y[2..] else [];
        assert SepLines(word, y, seps[..b + 1]) == SepLines(word, y, seps[..b]) + [word + sep + y, word + sep + short] by {
          assert seps[..b + 1][..b] == seps[..b];
        }
        ghost var o, m := out, basicMutations;
        out := out + [word + sep + y];
        basicMutations := basicMutations + [word + sep + y];
        out := out + [word + sep + short];
        basicMutations := basicMutations + [word + sep + short];
        assert out == o + [word + sep + y, word + sep + short];
        assert basicMutations == m + [word + sep + y, word + sep + short];
        b := b + 1;
      }
      assert seps[..b] == seps;
    }

    /** `append_paddings_after`: every token behind every basic mutation, and
        behind an underscore unless the token starts with one. The basic
        mutations themselves do not change. */
    method AppendPaddingsAfter()
      requires NonEmpty(cfg.commonPaddings)
      modifies this
      ensures out == old(out) + PadAfter(basicMutations, cfg.commonPaddings)
      ensures basicMutations == old(basicMutations) && cage == old(cage)
    {
      ghost var pads := cfg.commonPaddings;
      var current := basicMutations;
      var j := 0;
      while j < |current|
        invariant j <= |current|
        invariant out == old(out) + PadAfter(current[..j], pads)
        invariant basicMutations == old(basicMutations) && cage == old(cage)
      {
        var word := current[j];
        ghost var o := out;
        PadWordAfter(word);
        assert PadAfter(current[..j + 1], pads) == PadAfter(current[..j], pads) + WordAfter(word, pads) by {
          assert current[..j + 1][..j] == current[..j];
        }
        assert out == old(out) + PadAfter(current[..j + 1], pads) by {
          assert out == o + WordAfter(word, pads);
        }
        j := j + 1;
      }
      assert current[..j] == current;
    }

    /** The inner loop of `append_paddings_after`, for one word. */
    method PadWordAfter(word: string)
      requires NonEmpty(cfg.commonPaddings)
      modifies this
      ensures out == old(out) + WordAfter(word, cfg.commonPaddings)
      ensures basicMutations == old(basicMutations) && cage == old(cage)
    {
      ghost var pads := cfg.commonPaddings;
      var k := 0;
      while k < |cfg.commonPaddings|
        invariant k <= |pads|
        invariant out == old(out) + WordAfter(word, pads[..k])
        invariant basicMutations == old(basicMutations) && cage == old(cage)
      {
        var val := cfg.commonPaddings[k];
        assert pads[..k + 1][..k] == pads[..k];
        ghost var o := out;
        out := out + [word + val];
        if !CheckUnderscore(val, 0) {
          out := out + [word + "_" + val];
        }
        assert out == o + ([word + val] + (if !CheckUnderscore(val, 0) then [word + "_" + val] else []));
        k := k + 1;
      }
      assert pads[..k] == pads;
    }

    /** `append_paddings_before`: every token in front of every basic
        mutation, and in front of an underscore unless the token ends with
        one. The basic mutations themselves do not change. */
    method AppendPaddingsBefore()
      requires NonEmpty(cfg.commonPaddings)
      modifies this
      ensures out == old(out) + PadBefore(basicMutations, cfg.commonPaddings)
      ensures basicMutations == old(basicMutations) && cage == old(cage)
    {
      ghost var pads := cfg.commonPaddings;
      var current := basicMutations;
      var j := 0;
      while j < |current|
        invariant j <= |current|
        invariant out == old(out) + PadBefore(current[..j], pads)
        invariant basicMutations == old(basicMutations) && cage == old(cage)
      {
        var word := current[j];
        ghost var o := out;
        PadWordBefore(word);
        assert PadBefore(current[..j + 1], pads) == PadBefore(current[..j], pads) + WordBefore(word, pads) by {
          assert current[..j + 1][..j] == current[..j];
        }
        assert out == old(out) + PadBefore(current[..j + 1], pads) by {
          assert out == o + WordBefore(word, pads);
        }
        j := j + 1;
      }
      assert current[..j] == current;
    }

    /** The inner loop of `append_paddings_before`, for one word. */
    method PadWordBefore(word: string)
      requires NonEmpty(cfg.commonPaddings)
      modifies this
      ensures out == old(out) + WordBefore(word, cfg.commonPaddings)
      ensures basicMutations == old(basicMutations) && cage == old(cage)
    {
      ghost var pads := cfg.commonPaddings;
      var k := 0;
      while k < |cfg.commonPaddings|
        invariant k <= |pads|
        invariant out == old(out) + WordBefore(word, pads[..k])
        invariant basicMutations == old(basicMutations) && cage == old(cage)
      {
        var val := cfg.commonPaddings[k];
        assert pads[..k + 1][..k] == pads[..k];
        ghost var o := out;
        out := out + [val + word];
        if !CheckUnderscore(val, -1) {
          out := out + [val + "_" + word];
        }
        assert out == o + ([val + word] + (if !CheckUnderscore(val, -1) then [val + "_" + word] else []));
        k := k + 1;
      }
      assert pads[..k] == pads;
    }

    /** One pass of the main loop for the keyword `word`: case variants of
        `word.lower()`, substitutions when it has a table character, then
        numbering, years and paddings as configured; the lists are emptied
        for the next keyword. `basic` is the deduplicated list of basic
        mutations, written first. An IndexError in the substitution stage
        ends the pass, and the program, before this keyword writes a line. */
    method ProcessKeyword(word: string) returns (ok: bool, ghost basic: seq<string>)
      requires PaddingsReady(cfg)
      requires basicMutations == [] && cage == []
      modifies this
      ensures ok == KeywordRuns(cfg.transformations, word)
      ensures ok ==> basicMutations == [] && cage == []
      ensures ok ==> NoDups(basic) && Elems(basic) == Basic(cfg.transformations, word)
      ensures ok && SameLength(basic) ==> out == old(out) + KeywordLines(cfg, basic)
      ensures !ok ==> out == old(out)
    {
      ok := BasicStages(word);
      basic := basicMutations;
      if !ok {
        return;
      }
      assert NoDups(basic) && Elems(basic) == Basic(cfg.transformations, word);
      StagesAfterBasic(old(out), basic);
      assert SameLength(basic) ==> out == old(out) + KeywordLines(cfg, basic);
      basicMutations := [];
      cage := [];
    }

    /** The case stage and, for a keyword with a table character, the
        substitution stage: the basic mutations end up deduplicated and
        written, unless `mutate` raises IndexError. */
    method BasicStages(word: string) returns (ok: bool)
      requires basicMutations == []
      modifies this
      ensures ok == KeywordRuns(cfg.transformations, word)
      ensures ok ==> NoDups(basicMutations) && Elems(basicMutations) == Basic(cfg.transformations, word)
      ensures ok ==> out == old(out) + basicMutations
      ensures !ok ==> out == old(out)
    {
      ghost var t := cfg.transformations;
      var lw := LowerStr(word);
      ghost var ws := MutateCase(lw);
      var mutability := CheckMutability(cfg.transformations, lw);
      CaseMutationsHandler(lw, mutability);
      assert [] + ws == ws;
      ok := true;
      if mutability > 0 {
        LowerStrLowered(word);
        var basicTotal, transChars := CalculateTransformations(cfg.transformations, lw);
        MutabilityIffKeyIndex(t, lw, 0);
        assert lw[0..] == lw;
        KeyIndicesOfWord(t, word);
        ok := MutationsHandler(word, transChars, basicTotal);
        if ok {
          assert Basic(t, word) == Elems(ws + Substitutions(t, word, ws, transChars));
        }
      } else {
        assert Basic(t, word) == Elems(ws);
      }
    }

    /** The stages that follow the basic mutations in the main loop, once
        the basic mutations `basic` have been written after `prefix`. */
    method StagesAfterBasic(ghost prefix: seq<string>, ghost basic: seq<string>)
      requires PaddingsReady(cfg) && basicMutations == basic && out == prefix + basic
      modifies this
      ensures NoDups(basic) && SameLength(basic) ==> out == prefix + KeywordLines(cfg, basic)
    {
      ghost var parts := Parts(cfg, basic);
      ghost var uniform := NoDups(basic) && SameLength(basic);
      if cfg.appendNumbering > 0 {
        DoAppendNumbering();
      }
      ghost var o1 := out;
      assert uniform ==> o1 == prefix + basic + parts.0;
      if |cfg.years| > 0 {
        MutateYears();
      }
      assert basicMutations == Extended(cfg, basic);
      assert out == o1 + parts.1;
      ghost var o2 := out;
      if cfg.paddingsAfter || cfg.customPaddingsOnly {
        AppendPaddingsAfter();
      }
      assert out == o2 + parts.2;
      ghost var o3 := out;
      if cfg.paddingsBefore {
        AppendPaddingsBefore();
      }
      assert out == o3 + parts.3;
      KeywordLinesAfter(cfg, prefix, basic);
    }
  }
}
