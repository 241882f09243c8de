/** Lines written to the wordlist and what they cost on disk: every line is
    followed by one '\n'. */
module Lines {

  /** The bytes the lines take, each with its '\n'. */
  function SizeOf(ls: seq<string>): nat
  {
    if ls == [] then 0 else SizeOf(ls[..|ls| - 1]) + |ls[|ls| - 1]| + 1
  }

  lemma {:induction false} SizeOfAppend(a: seq<string>, b: seq<string>)
    ensures SizeOf(a + b) == SizeOf(a) + SizeOf(b)
    decreases |b|
  {
    if b != [] {
      var n := |b| - 1;
      assert (a + b)[..|a + b| - 1] == a + b[..n];
      SizeOfAppend(a, b[..n]);
    } else {
      assert a + b == a;
    }
  }

  lemma ConcatAssoc(a: seq<string>, b: seq<string>, c: seq<string>)
    ensures a + (b + c) == (a + b) + c
  {
  }

  lemma SizeOfPair(a: string, b: string)
    ensures SizeOf([a, b]) == |a| + |b| + 2
  {
    assert [a, b][..1] == [a];
    assert [a][..0] == [];
    assert SizeOf([a]) == SizeOf([]) + |a| + 1;
    assert SizeOf([a, b]) == SizeOf([a]) + |b| + 1;
  }

  /** Lines of one common length `n` take `n + 1` bytes each. */
  lemma {:induction false} SizeOfUniform(ls: seq<string>, n: nat)
    requires forall j :: 0 <= j < |ls| ==> |ls[j]| == n
    ensures SizeOf(ls) == |ls| * (n + 1)
  {
    if ls != [] {
      SizeOfUniform(ls[..|ls| - 1], n);
    }
  }

  lemma TimesZero(a: int, z: int)
    requires z == 0
    ensures a * z == 0 && z * a == 0
  {
  }

  lemma MulSucc(m: nat, c: nat)
    ensures (m + 1) * c == m * c + c
  {
  }

  /** Growing a group of `n` blocks of `q` lines by one block. */
  lemma ScaleStep(n: nat, q: nat, len: nat)
    ensures ((n + 1) * q) * len == (n * q) * len + q * len
  {
    MulSucc(n, q);
    assert (n * q + q) * len == (n * q) * len + q * len;
  }

  /** Appending one word of length `len` to words of total size `s0`, when
      every word costs `p` copies of itself plus `e` fixed bytes. */
  lemma WordStep(p: nat, s0: nat, len: nat, n: nat, e: nat)
    ensures p * s0 + n * e + (p * (len + 1) + e) == p * (s0 + len + 1) + (n + 1) * e
  {
    assert p * (s0 + len + 1) == p * s0 + p * (len + 1);
    MulSucc(n, e);
  }

  /** The lines a stage writes when it handles the words one after another
      and writes `f(w)` for the word `w`. */
  function PerWordLines(ws: seq<string>, f: string -> seq<string>): seq<string>
  {
    if ws == [] then [] else PerWordLines(ws[..|ws| - 1], f) + f(ws[|ws| - 1])
  }

  /** A stage that writes `p` lines for every word, costing `p` copies of the
      word and `e` further bytes, writes `|ws|·p` lines and
      `p·SizeOf(ws) + |ws|·e` bytes. */
  lemma {:induction false} PerWordMeasure(ws: seq<string>, f: string -> seq<string>, p: nat, e: nat)
    requires forall w :: |f(w)| == p && SizeOf(f(w)) == p * (|w| + 1) + e
    ensures |PerWordLines(ws, f)| == |ws| * p
    ensures SizeOf(PerWordLines(ws, f)) == p * SizeOf(ws) + |ws| * e
  {
    if ws != [] {
      var n := |ws| - 1;
      var w := ws[n];
      var a, b := PerWordLines(ws[..n], f), f(w);
      PerWordMeasure(ws[..n], f, p, e);
      assert SizeOf(PerWordLines(ws, f)) == SizeOf(a) + SizeOf(b) by {
        SizeOfAppend(a, b);
      }
      assert SizeOf(ws) == SizeOf(ws[..n]) + |w| + 1;
      Combine(p, e, n, |w|, SizeOf(ws[..n]), |a|, SizeOf(a), |b|, SizeOf(b), |ws|, SizeOf(ws));
      assert SizeOf(a) + SizeOf(b) == p * SizeOf(ws) + |ws| * e;
    } else {
      assert PerWordLines(ws, f) == [] && SizeOf(ws) == 0;
      TimesZero(p, SizeOf(ws));
      TimesZero(e, |ws|);
    }
  }

  /** The arithmetic of one more word of length `len` after `n` words of
      total size `s0`, giving `m` words of total size `sz`. */
  lemma Combine(p: nat, e: nat, n: nat, len: nat, s0: nat, c0: nat, z0: nat, c1: nat, z1: nat, m: nat, sz: nat)
    requires c0 == n * p && z0 == p * s0 + n * e
    requires c1 == p && z1 == p * (len + 1) + e
    requires m == n + 1 && sz == s0 + len + 1
    ensures c0 + c1 == m * p
    ensures z0 + z1 == p * sz + m * e
  {
    MulSucc(n, p);
    WordStep(p, s0, len, n, e);
  }

  function Flatten(ss: seq<seq<string>>): seq<string>
  {
    if ss == [] then [] else Flatten(ss[..|ss| - 1]) + ss[|ss| - 1]
  }

  /** A line is in the concatenation exactly when it is in one of the parts. */
  lemma {:induction false} FlattenMembers(ss: seq<seq<string>>, v: string)
    ensures v in Flatten(ss) <==> exists i :: 0 <= i < |ss| && v in ss[i]
  {
    if ss != [] {
      var n := |ss| - 1;
      FlattenMembers(ss[..n], v);
      if exists i :: 0 <= i < n && v in ss[..n][i] {
        var i :| 0 <= i < n && v in ss[..n][i];
        assert ss[i] == ss[..n][i];
      }
      if exists i :: 0 <= i < |ss| && v in ss[i] {
        var i :| 0 <= i < |ss| && v in ss[i];
        if i < n { assert ss[..n][i] == ss[i]; }
      }
    }
  }

  predicate NoDups(ls: seq<string>)
  {
    forall a, b :: 0 <= a < b < |ls| ==> ls[a] != ls[b]
  }

  /** Two duplicate-free lists with no line in common concatenate to a
      duplicate-free list. */
  lemma NoDupsAppend(a: seq<string>, b: seq<string>)
    requires NoDups(a) && NoDups(b)
    requires forall x :: x in b ==> x !in a
    ensures NoDups(a + b)
  {
    var c := a + b;
    forall p, q | 0 <= p < q < |c| ensures c[p] != c[q] {
      if p >= |a| {
        assert c[p] == b[p - |a|] && c[q] == b[q - |a|];
      } else if q >= |a| {
        assert c[q] in b && c[p] == a[p];
      }
    }
  }

  function Elems(ls: seq<string>): set<string>
  {
    set v | v in ls
  }

  /** A duplicate-free list has as many entries as distinct values. */
  lemma {:induction false} NoDupsCard(ls: seq<string>)
    requires NoDups(ls)
    ensures |Elems(ls)| == |ls|
  {
    if ls != [] {
      var n := |ls| - 1;
      NoDupsCard(ls[..n]);
      assert Elems(ls) == Elems(ls[..n]) + {ls[n]};
      assert ls[n] !in Elems(ls[..n]);
    } else {
      assert Elems(ls) == {};
    }
  }

  /** `list(set(ls))`: some duplicate-free listing of the distinct values of
      `ls`, in an order the model leaves open. */
  method Dedup(ls: seq<string>) returns (r: seq<string>)
    ensures NoDups(r)
    ensures Elems(r) == Elems(ls)
    ensures |r| == |Elems(ls)|
  {
    var rest := Elems(ls);
    r := [];
    while rest != {}
      invariant NoDups(r)
      invariant Elems(r) + rest == Elems(ls)
      invariant Elems(r) !! rest
      decreases |rest|
    {
      var x :| x in rest;
      assert x !in Elems(r);
      r := r + [x];
      rest := rest - {x};
    }
    NoDupsCard(r);
  }
}
