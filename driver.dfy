/** `main`: estimate the output of every keyword, ask for consent, truncate
    the wordlist and run the mutation engine keyword by keyword. */
module Driver {
  import opened Text
  import opened Settings
  import opened Transformations
  import opened Substitution
  import opened Lines
  import opened Numbering
  import opened Coverage
  import opened Stages
  import opened Estimator
  import opened Engine

  datatype Outcome =
    | NoKeywords
    | Aborted(count: int, size: int)
    /** `mutate` raised IndexError; the wordlist keeps what the keywords
        before the failing one wrote. */
    | Failed(count: int, size: int)
    | Completed(count: int, size: int)

  /** No keyword of `kws` makes `mutate` raise IndexError. */
  predicate AllRun(t: Table, kws: seq<string>)
  {
    forall j :: 0 <= j < |kws| ==> KeywordRuns(t, kws[j])
  }

  /** One more keyword of `kws` through the engine: the keywords so far ran
      without IndexError exactly when each of them did. */
  lemma AllRunNext(t: Table, kws: seq<string>, j: nat)
    requires j < |kws| && AllRun(t, kws[..j])
    ensures AllRun(t, kws[..j + 1]) == KeywordRuns(t, kws[j])
    ensures !KeywordRuns(t, kws[j]) ==> !AllRun(t, kws)
  {
    var next := kws[..j + 1];
    assert next[j] == kws[j];
    if KeywordRuns(t, kws[j]) {
      forall i | 0 <= i < j + 1 ensures KeywordRuns(t, next[i]) {
        if i < j {
          assert next[i] == kws[..j][i];
        }
      }
    }
  }

  /** `bs[j]` is a deduplicated listing of the basic mutations of `kws[j]`,
      for every keyword of `kws`. */
  ghost predicate BasicsOf(t: Table, kws: seq<string>, bs: seq<seq<string>>)
  {
    |bs| == |kws| &&
    forall j :: 0 <= j < |bs| ==> KeywordRuns(t, kws[j]) && NoDups(bs[j]) && Elems(bs[j]) == Basic(t, kws[j])
  }

  /** Every keyword's basic mutations are of one length. */
  predicate AllSameLength(bs: seq<seq<string>>)
  {
    forall j :: 0 <= j < |bs| ==> SameLength(bs[j])
  }

  /** The lines the keywords write, one keyword after another, when their
      deduplicated basic mutations are `bs`. */
  function KeywordsLines(cfg: Config, bs: seq<seq<string>>): seq<string>
    requires PaddingsReady(cfg)
  {
    if bs == [] then [] else KeywordsLines(cfg, bs[..|bs| - 1]) + KeywordLines(cfg, bs[|bs| - 1])
  }

  lemma BasicsRun(t: Table, kws: seq<string>, bs: seq<seq<string>>)
    requires BasicsOf(t, kws, bs)
    ensures AllRun(t, kws)
  {
  }

  /** One more keyword's basic mutations. */
  lemma BasicsNext(t: Table, kws: seq<string>, bs: seq<seq<string>>, b: seq<string>)
    requires |bs| < |kws| && BasicsOf(t, kws[..|bs|], bs)
    requires KeywordRuns(t, kws[|bs|]) && NoDups(b) && Elems(b) == Basic(t, kws[|bs|])
    ensures BasicsOf(t, kws[..|bs| + 1], bs + [b])
  {
    var j := |bs|;
    var next, nbs := kws[..j + 1], bs + [b];
    forall i | 0 <= i < j + 1
      ensures KeywordRuns(t, next[i]) && NoDups(nbs[i]) && Elems(nbs[i]) == Basic(t, next[i])
    {
      if i < j {
        assert next[i] == kws[..j][i] && nbs[i] == bs[i];
      }
    }
  }

  lemma AllSameLengthSnoc(bs: seq<seq<string>>, b: seq<string>)
    ensures AllSameLength(bs + [b]) <==> AllSameLength(bs) && SameLength(b)
  {
    var next := bs + [b];
    assert forall i :: 0 <= i < |bs| ==> next[i] == bs[i];
    assert next[|bs|] == b;
  }

  lemma KeywordsLinesSnoc(cfg: Config, bs: seq<seq<string>>, b: seq<string>)
    requires PaddingsReady(cfg)
    ensures KeywordsLines(cfg, bs + [b]) == KeywordsLines(cfg, bs) + KeywordLines(cfg, b)
  {
    assert (bs + [b])[..|bs|] == bs;
  }

  /** One more keyword's lines after the lines of the keywords before it. */
  lemma WrittenNext(cfg: Config, o: seq<string>, before: seq<string>, after: seq<string>,
                    bs: seq<seq<string>>, b: seq<string>)
    requires PaddingsReady(cfg)
    requires AllSameLength(bs) ==> before == o + KeywordsLines(cfg, bs)
    requires SameLength(b) ==> after == before + KeywordLines(cfg, b)
    ensures AllSameLength(bs + [b]) <==> AllSameLength(bs) && SameLength(b)
    ensures AllSameLength(bs + [b]) ==> after == o + KeywordsLines(cfg, bs + [b])
  {
    AllSameLengthSnoc(bs, b);
    KeywordsLinesSnoc(cfg, bs, b);
  }

  /** The announced line count: the estimates of the keywords, summed. */
  function EstimatedCount(cfg: Config, kws: seq<string>): int
  {
    if kws == [] then 0
    else
      var kw := kws[|kws| - 1];
      EstimatedCount(cfg, kws[..|kws| - 1]) + KeywordCount(AsEstimated(cfg), BasicTotal(cfg.transformations, LowerStr(kw)))
  }

  /** The announced byte size: the estimates of the keywords, summed. */
  function EstimatedSize(cfg: Config, kws: seq<string>): int
  {
    if kws == [] then 0
    else
      var kw := kws[|kws| - 1];
      EstimatedSize(cfg, kws[..|kws| - 1]) + KeywordSize(AsEstimated(cfg), BasicTotal(cfg.transformations, LowerStr(kw)), |kw|)
  }

  /** The announced totals grow by one keyword's estimate at a time. */
  lemma EstimatedNext(cfg: Config, kws: seq<string>, j: nat)
    requires j < |kws|
    ensures EstimatedCount(cfg, kws[..j + 1]) ==
            EstimatedCount(cfg, kws[..j]) + KeywordCount(AsEstimated(cfg), BasicTotal(cfg.transformations, LowerStr(kws[j])))
    ensures EstimatedSize(cfg, kws[..j + 1]) ==
            EstimatedSize(cfg, kws[..j]) + KeywordSize(AsEstimated(cfg), BasicTotal(cfg.transformations, LowerStr(kws[j])), |kws[j]|)
  {
    assert kws[..j + 1][..j] == kws[..j];
  }

  /** Under the exactness conditions, the lines written for one keyword are
      as many, and as large, as `calculate_output` announces for it:
      the deduplicated basic mutations are `basic_total` strings of the
      keyword's length, and every later stage is a function of those two
      numbers. */
  lemma KeywordOutputMatches(cfg: Config, word: string, basic: seq<string>)
    requires EstimateExact(cfg) && Stripped(word) && KeywordRuns(cfg.transformations, word)
    requires NoDups(basic) && Elems(basic) == Basic(cfg.transformations, word)
    ensures SameLength(basic) && PaddingsReady(cfg)
    ensures |KeywordLines(cfg, basic)| == KeywordCount(AsEstimated(cfg), BasicTotal(cfg.transformations, LowerStr(word)))
    ensures SizeOf(KeywordLines(cfg, basic)) ==
            KeywordSize(AsEstimated(cfg), BasicTotal(cfg.transformations, LowerStr(word)), |word|)
  {
    BasicCount(cfg.transformations, word);
    NoDupsCard(basic);
    forall j | 0 <= j < |basic| ensures |basic[j]| == |word| {
      assert basic[j] in Elems(basic);
    }
    KeywordMeasure(cfg, basic, |word|);
    EstimatedAgrees(cfg, |basic|, |word|);
  }

  /** The estimation loop of `main`: `calculate_output` of every lowered
      keyword, summed. */
  method EstimateAll(cfg: Config, keywords: seq<string>) returns (totalCount: int, totalSize: int)
    ensures totalCount == EstimatedCount(cfg, keywords)
    ensures (forall j :: 0 <= j < |cfg.years| ==> |cfg.years[j]| == 4) ==> totalSize == EstimatedSize(cfg, keywords)
  {
    ghost var four := forall j :: 0 <= j < |cfg.years| ==> |cfg.years[j]| == 4;
    totalCount, totalSize := 0, 0;
    var j := 0;
    while j < |keywords|
      invariant j <= |keywords|
      invariant totalCount == EstimatedCount(cfg, keywords[..j])
      invariant four ==> totalSize == EstimatedSize(cfg, keywords[..j])
    {
      LowerStrLowered(keywords[j]);
      var count, size := CalculateOutput(cfg, LowerStr(keywords[j]));
      assert keywords[..j + 1][..j] == keywords[..j];
      totalCount := totalCount + count;
      totalSize := totalSize + size;
      j := j + 1;
    }
    assert keywords[..j] == keywords;
  }

  /** The writing loop of `main`: every keyword through the engine, in
      order, until `mutate` raises IndexError. */
  method WriteAll(g: Generator, keywords: seq<string>) returns (ok: bool, ghost basics: seq<seq<string>>)
    requires forall j :: 0 <= j < |keywords| ==> Stripped(keywords[j])
    requires PaddingsReady(g.cfg)
    requires g.basicMutations == [] && g.cage == []
    modifies g
    ensures ok == AllRun(g.cfg.transformations, keywords)
    ensures ok ==> g.basicMutations == [] && g.cage == []
    ensures |basics| <= |keywords| && BasicsOf(g.cfg.transformations, keywords[..|basics|], basics)
    ensures ok ==> |basics| == |keywords|
    ensures !ok ==> |basics| < |keywords| && !KeywordRuns(g.cfg.transformations, keywords[|basics|])
    ensures AllSameLength(basics) ==> g.out == old(g.out) + KeywordsLines(g.cfg, basics)
    ensures EstimateExact(g.cfg) ==>
              ok && AllSameLength(basics) &&
              |g.out| == |old(g.out)| + EstimatedCount(g.cfg, keywords) &&
              SizeOf(g.out) == SizeOf(old(g.out)) + EstimatedSize(g.cfg, keywords)
  {
    ghost var exact := EstimateExact(g.cfg);
    ghost var t := g.cfg.transformations;
    ok := true;
    basics := [];
    var j := 0;
    while j < |keywords|
      invariant j <= |keywords|
      invariant g.basicMutations == [] && g.cage == []
      invariant |basics| == j && BasicsOf(t, keywords[..j], basics)
      invariant AllSameLength(basics) ==> g.out == old(g.out) + KeywordsLines(g.cfg, basics)
      invariant exact ==> AllSameLength(basics)
      invariant exact ==> |g.out| == |old(g.out)| + EstimatedCount(g.cfg, keywords[..j])
      invariant exact ==> SizeOf(g.out) == SizeOf(old(g.out)) + EstimatedSize(g.cfg, keywords[..j])
    {
      BasicsRun(t, keywords[..j], basics);
      AllRunNext(t, keywords, j);
      ok, basics := WriteKeyword(g, keywords, j, old(g.out), basics);
      if !ok {
        return;
      }
      EstimatedNext(g.cfg, keywords, j);
      j := j + 1;
    }
    assert keywords[..j] == keywords;
    BasicsRun(t, keywords, basics);
  }

  /** One pass of the writing loop: keyword `j` through the engine, after
      the keywords before it wrote the lines of `basics` on top of `o`. */
  method WriteKeyword(g: Generator, keywords: seq<string>, j: nat, ghost o: seq<string>, ghost basics: seq<seq<string>>)
    returns (ok: bool, ghost basics': seq<seq<string>>)
    requires j < |keywords| && Stripped(keywords[j])
    requires PaddingsReady(g.cfg)
    requires g.basicMutations == [] && g.cage == []
    requires |basics| == j && BasicsOf(g.cfg.transformations, keywords[..j], basics)
    requires AllSameLength(basics) ==> g.out == o + KeywordsLines(g.cfg, basics)
    modifies g
    ensures ok == KeywordRuns(g.cfg.transformations, keywords[j])
    ensures !ok ==> g.out == old(g.out) && basics' == basics
    ensures ok ==> g.basicMutations == [] && g.cage == []
    ensures ok ==> |basics'| == j + 1 && BasicsOf(g.cfg.transformations, keywords[..j + 1], basics')
    ensures ok ==> (AllSameLength(basics') <==> AllSameLength(basics) && SameLength(basics'[j]))
    ensures ok && AllSameLength(basics') ==> g.out == o + KeywordsLines(g.cfg, basics')
    ensures EstimateExact(g.cfg) ==>
              ok && |basics'| == j + 1 && SameLength(basics'[j]) &&
              |g.out| == |old(g.out)| + KeywordCount(AsEstimated(g.cfg), BasicTotal(g.cfg.transformations, LowerStr(keywords[j]))) &&
              SizeOf(g.out) == SizeOf(old(g.out)) +
                KeywordSize(AsEstimated(g.cfg), BasicTotal(g.cfg.transformations, LowerStr(keywords[j])), |keywords[j]|)
  {
    ghost var exact := EstimateExact(g.cfg);
    ghost var t := g.cfg.transformations;
    var word := keywords[j];
    if exact {
      SimpleNonEmpty(t);
      NonEmptyKeywordRuns(t, word);
    }
    ghost var before := g.out;
    ghost var basic;
    ok, basic := g.ProcessKeyword(word);
    basics' := basics;
    if !ok {
      return;
    }
    if exact {
      KeywordOutputMatches(g.cfg, word, basic);
      SizeOfAppend(before, KeywordLines(g.cfg, basic));
    }
    BasicsNext(t, keywords, basics, basic);
    WrittenNext(g.cfg, o, before, g.out, basics, basic);
    basics' := basics + [basic];
  }

  /** `main` after option parsing. `agree` is the answer to the consent
      prompt, given after the estimate is shown. Under the exactness
      conditions the truncated wordlist ends up with exactly the announced
      number of lines and bytes. */
  method Run(g: Generator, keywords: seq<string>, agree: bool) returns (r: Outcome, ghost basics: seq<seq<string>>)
    requires forall j :: 0 <= j < |keywords| ==> Stripped(keywords[j])
    requires PaddingsReady(g.cfg)
    requires g.basicMutations == [] && g.cage == []
    modifies g
    ensures r.NoKeywords? <==> keywords == []
    ensures r.Aborted? <==> keywords != [] && !agree
    ensures r.Failed? <==> keywords != [] && agree && !AllRun(g.cfg.transformations, keywords)
    ensures r.NoKeywords? || r.Aborted? ==> g.out == old(g.out)
    ensures !r.NoKeywords? ==> r.count == EstimatedCount(g.cfg, keywords)
    ensures !r.NoKeywords? && (forall j :: 0 <= j < |g.cfg.years| ==> |g.cfg.years[j]| == 4) ==>
              r.size == EstimatedSize(g.cfg, keywords)
    ensures EstimateExact(g.cfg) && keywords != [] && agree ==>
              r.Completed? && |g.out| == r.count && SizeOf(g.out) == r.size
    ensures !r.Failed? ==> g.basicMutations == [] && g.cage == []
    ensures r.Completed? || r.Failed? ==>
              |basics| <= |keywords| && BasicsOf(g.cfg.transformations, keywords[..|basics|], basics)
    ensures r.Completed? ==> |basics| == |keywords|
    ensures r.Failed? ==> |basics| < |keywords| && !KeywordRuns(g.cfg.transformations, keywords[|basics|])
    ensures (r.Completed? || r.Failed?) && AllSameLength(basics) ==> g.out == KeywordsLines(g.cfg, basics)
    ensures EstimateExact(g.cfg) && keywords != [] && agree ==> AllSameLength(basics)
  {
    basics := [];
    if |keywords| == 0 {
      r := NoKeywords;
      return;
    }
    var totalCount, totalSize := EstimateAll(g.cfg, keywords);
    if !agree {
      r := Aborted(totalCount, totalSize);
      return;
    }
    g.out := [];
    var ok;
    ok, basics := WriteAll(g, keywords);
    if !ok {
      r := Failed(totalCount, totalSize);
      return;
    }
    r := Completed(totalCount, totalSize);
  }
}
