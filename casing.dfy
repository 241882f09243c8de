/** The case stage: `mutate_case`, every upper/lower combination of a word
    in the order `itertools.product(*zip(word.upper(), word.lower()))`
    yields them. */
module Casing {
  import opened Text
  import opened Products
  import opened Transformations

  function Pow2(n: nat): (r: nat)
    ensures r >= 1
  {
    if n == 0 then 1 else 2 * Pow2(n - 1)
  }

  function Prepend(c: char, rs: seq<string>): (r: seq<string>)
    ensures |r| == |rs|
  {
    seq(|rs|, j requires 0 <= j < |rs| => [c] + rs[j])
  }

  /** `mutate_case`: the upper-case choice of the first position comes first,
      and the later positions vary fastest. */
  function MutateCase(w: string): seq<string>
  {
    if w == [] then [[]]
    else
      var rest := MutateCase(w[1..]);
      Prepend(Upper(w[0]), rest) + Prepend(Lower(w[0]), rest)
  }

  /** There are 2^|w| combinations, duplicates included, each as long as `w`. */
  lemma {:induction false} MutateCaseShape(w: string)
    ensures |MutateCase(w)| == Pow2(|w|)
    ensures forall v :: v in MutateCase(w) ==> |v| == |w|
  {
    if w != [] {
      MutateCaseShape(w[1..]);
    }
  }

  lemma PrependSet(c: char, rs: seq<string>)
    ensures (set v | v in Prepend(c, rs)) == Prefixed(c, set r | r in rs)
  {
    forall v | v in Prefixed(c, set r | r in rs) ensures v in Prepend(c, rs) {
      var r :| r in rs && v == [c] + r;
      var j :| 0 <= j < |rs| && rs[j] == r;
      assert Prepend(c, rs)[j] == v;
    }
  }

  lemma MutateCaseStep(w: string)
    requires w != []
    ensures (set v | v in MutateCase(w)) == Pairs(CaseChoice(w[0]), set v | v in MutateCase(w[1..]))
  {
    var rest := MutateCase(w[1..]);
    var rs := set v | v in rest;
    PrependSet(Upper(w[0]), rest);
    PrependSet(Lower(w[0]), rest);
    assert (set v | v in MutateCase(w)) == (set v | v in Prepend(Upper(w[0]), rest)) + (set v | v in Prepend(Lower(w[0]), rest));
    assert Pairs(CaseChoice(w[0]), rs) == Prefixed(Upper(w[0]), rs) + Prefixed(Lower(w[0]), rs);
  }

  /** The distinct combinations are exactly the strings that take, at every
      position, one of the two cases of the character there. */
  lemma {:induction false} MutateCaseSet(w: string)
    ensures (set v | v in MutateCase(w)) == ProductSet(CaseChoices(w))
  {
    if w != [] {
      MutateCaseSet(w[1..]);
      MutateCaseStep(w);
      assert CaseChoices(w)[1..] == CaseChoices(w[1..]);
    } else {
      assert CaseChoices(w) == [];
    }
  }

  /** How many positions of `w` hold a letter. */
  function Letters(w: string): (n: nat)
    ensures n <= |w|
  {
    if w == [] then 0 else (if IsAlpha(w[0]) then 1 else 0) + Letters(w[1..])
  }

  /** A letter offers two cases and any other character one, so the case
      choices multiply to 2^(number of letters). */
  lemma {:induction false} CaseChoicesPow2(w: string)
    ensures SizeProduct(CaseChoices(w)) == Pow2(Letters(w))
  {
    if w != [] {
      CaseChoicesPow2(w[1..]);
      assert CaseChoices(w)[1..] == CaseChoices(w[1..]);
      CasesDiffer(w[0]);
      if IsAlpha(w[0]) {
        assert |CaseChoice(w[0])| == 2;
      } else {
        assert CaseChoice(w[0]) == {w[0]};
      }
    } else {
      assert CaseChoices(w) == [];
    }
  }

  /** The case stage yields 2^a distinct strings for a word with `a` letters,
      the product of the per-position case choices. */
  lemma MutateCaseCount(w: string)
    ensures |set v | v in MutateCase(w)| == SizeProduct(CaseChoices(w))
    ensures |set v | v in MutateCase(w)| == Pow2(Letters(w))
  {
    MutateCaseSet(w);
    ProductSetCard(CaseChoices(w));
    CaseChoicesPow2(w);
  }
}
