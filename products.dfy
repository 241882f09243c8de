/** Sets of strings built position by position from per-position choices,
    and the number of strings in them. */
module Products {

  /** Every string whose i-th character is drawn from `choices[i]`. */
  function ProductSet(choices: seq<set<char>>): set<string>
  {
    if choices == [] then {[]}
    else Pairs(choices[0], ProductSet(choices[1..]))
  }

  /** The product of the sizes of the choice sets. */
  function SizeProduct(choices: seq<set<char>>): nat
  {
    if choices == [] then 1 else |choices[0]| * SizeProduct(choices[1..])
  }

  ghost predicate Drawn(v: string, choices: seq<set<char>>)
  {
    |v| == |choices| && forall i :: 0 <= i < |v| ==> v[i] in choices[i]
  }

  /** A string is in the product set exactly when it is drawn position by
      position from the choices. */
  lemma {:induction false} ProductSetMembers(choices: seq<set<char>>, v: string)
    ensures v in ProductSet(choices) <==> Drawn(v, choices)
  {
    if choices != [] {
      var tail := ProductSet(choices[1..]);
      if v in ProductSet(choices) {
        var x, r :| x in choices[0] && r in tail && v == [x] + r;
        assert v[1..] == r;
        ProductSetMembers(choices[1..], r);
        forall i | 0 <= i < |v| ensures v[i] in choices[i] {
          if i > 0 { assert v[i] == r[i - 1]; }
        }
      }
      if Drawn(v, choices) {
        ProductSetMembers(choices[1..], v[1..]);
        assert Drawn(v[1..], choices[1..]);
        assert v == [v[0]] + v[1..];
      }
    }
  }

  function Prefixed(x: char, rs: set<string>): set<string>
  {
    set r | r in rs :: [x] + r
  }

  function Pairs(xs: set<char>, rs: set<string>): set<string>
  {
    set x, r | x in xs && r in rs :: [x] + r
  }

  /** Putting one character in front of every string keeps the count. */
  lemma {:induction false} PrefixedCard(x: char, rs: set<string>)
    ensures |Prefixed(x, rs)| == |rs|
  {
    if rs != {} {
      var r0 :| r0 in rs;
      PrefixedCard(x, rs - {r0});
      assert Prefixed(x, rs) == Prefixed(x, rs - {r0}) + {[x] + r0};
      assert [x] + r0 !in Prefixed(x, rs - {r0}) by {
        forall r | r in rs - {r0} ensures [x] + r != [x] + r0 {
          assert ([x] + r)[1..] == r && ([x] + r0)[1..] == r0;
        }
      }
    } else {
      assert Prefixed(x, rs) == {};
    }
  }

  lemma PairsSplit(xs: set<char>, x0: char, rs: set<string>)
    requires x0 in xs
    ensures Pairs(xs, rs) == Pairs(xs - {x0}, rs) + Prefixed(x0, rs)
    ensures Pairs(xs - {x0}, rs) !! Prefixed(x0, rs)
  {
    forall v | v in Pairs(xs - {x0}, rs) ensures v !in Prefixed(x0, rs) {
      var x, r :| x in xs - {x0} && r in rs && v == [x] + r;
      assert v[0] == x;
    }
  }

  /** Choosing a first character from `xs` and a tail from `rs` gives
      |xs| * |rs| distinct strings. */
  lemma {:induction false} PairsCard(xs: set<char>, rs: set<string>)
    ensures |Pairs(xs, rs)| == |xs| * |rs|
  {
    if xs != {} {
      var x0 :| x0 in xs;
      PairsCard(xs - {x0}, rs);
      PrefixedCard(x0, rs);
      PairsSplit(xs, x0, rs);
      var n, m := |xs - {x0}|, |rs|;
      assert n + 1 == |xs|;
      assert |Pairs(xs, rs)| == n * m + m;
      Distrib(n, m);
    } else {
      PairsEmpty(xs, rs);
    }
  }

  lemma PairsEmpty(xs: set<char>, rs: set<string>)
    requires xs == {}
    ensures Pairs(xs, rs) == {}
  {
  }

  lemma Distrib(n: nat, m: nat)
    ensures n * m + m == (n + 1) * m
  {
  }

  /** The number of strings in a product set is the product of the sizes of
      its choices. */
  lemma {:induction false} ProductSetCard(choices: seq<set<char>>)
    ensures |ProductSet(choices)| == SizeProduct(choices)
  {
    if choices != [] {
      ProductSetCard(choices[1..]);
      PairsCard(choices[0], ProductSet(choices[1..]));
    }
  }
}
