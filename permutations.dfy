/** Row permutations and position lists: the shuffle behind
    `sample(frac=1)` in build_triples.py is a permutation of the row
    positions, and gathering a column in that order keeps its multiset of
    values. */
module Permutations {

  /** The row positions 0, 1, ..., n - 1 in order. */
  function Indices(n: nat): seq<nat> {
    seq(n, i => i)
  }

  /** `perm` lists every row position below `n` exactly once: the row order
      `sample(frac=1)` picks. */
  predicate IsPermutation(perm: seq<nat>, n: nat) {
    multiset(perm) == multiset(Indices(n))
  }

  /** Every entry of `p` is a row position below `n`; for the draws, every
      redraw picks a row of the collection, as `sample(1)` does. */
  predicate Positions(p: seq<nat>, n: nat) {
    forall i :: 0 <= i < |p| ==> p[i] < n
  }

  lemma PermutationBounds(perm: seq<nat>, n: nat)
    requires IsPermutation(perm, n)
    ensures |perm| == n
    ensures forall i :: 0 <= i < |perm| ==> perm[i] < n
  {
    assert |multiset(perm)| == |perm|;
    assert |multiset(Indices(n))| == n;
    forall i | 0 <= i < |perm| ensures perm[i] < n {
      assert perm[i] in multiset(perm);
      assert perm[i] in Indices(n);
    }
  }

  /** `s[p[0]], s[p[1]], ...`: the values of `s` in the order `p` lists
      their positions. */
  function Gather(s: seq<string>, p: seq<nat>): (r: seq<string>)
    requires Positions(p, |s|)
    ensures |r| == |p|
  {
    if p == [] then [] else [s[p[0]]] + Gather(s, p[1..])
  }

  /** Position `i` of the gathered values is `s[p[i]]`. */
  lemma {:induction false} GatherAt(s: seq<string>, p: seq<nat>, i: nat)
    requires Positions(p, |s|) && i < |p|
    ensures Gather(s, p)[i] == s[p[i]]
  {
    if i > 0 {
      GatherAt(s, p[1..], i - 1);
    }
  }

  /** Concatenated position lists stay within the rows. */
  lemma PositionsConcat(p: seq<nat>, q: seq<nat>, n: nat)
    requires Positions(p, n) && Positions(q, n)
    ensures Positions(p + q, n)
  {
    forall i | 0 <= i < |p + q| ensures (p + q)[i] < n {
      if i >= |p| { assert (p + q)[i] == q[i - |p|]; }
    }
  }

  /** Gathering distributes over concatenation of the position lists. */
  lemma {:induction false} GatherConcat(s: seq<string>, p: seq<nat>, q: seq<nat>)
    requires Positions(p, |s|) && Positions(q, |s|)
    ensures Positions(p + q, |s|)
    ensures Gather(s, p + q) == Gather(s, p) + Gather(s, q)
  {
    PositionsConcat(p, q, |s|);
    if p == [] {
      assert p + q == q;
    } else {
      assert (p + q)[1..] == p[1..] + q;
      assert Positions(p[1..], |s|);
      GatherConcat(s, p[1..], q);
      var head := [s[p[0]]];
      assert (p + q)[0] == p[0];
      assert Gather(s, p + q) == head + Gather(s, p[1..] + q);
      assert Gather(s, p) == head + Gather(s, p[1..]);
      assert head + (Gather(s, p[1..]) + Gather(s, q)) == (head + Gather(s, p[1..])) + Gather(s, q);
    }
  }

  /** Taking out the entry at `j` of a position list. */
  lemma RemoveAt(q: seq<nat>, j: nat, n: nat)
    requires Positions(q, n) && j < |q|
    ensures Positions(q[..j], n) && Positions(q[j + 1..], n) && Positions(q[..j] + q[j + 1..], n)
    ensures q == q[..j] + ([q[j]] + q[j + 1..])
    ensures multiset(q) == multiset(q[..j] + q[j + 1..]) + multiset{q[j]}
  {
    assert q == q[..j] + ([q[j]] + q[j + 1..]);
  }

  /** Taking out the position at `j` takes one copy of its value out of
      the gathered multiset. */
  lemma GatherRemoveAt(s: seq<string>, q: seq<nat>, j: nat)
    requires Positions(q, |s|) && j < |q|
    ensures Positions(q[..j] + q[j + 1..], |s|)
    ensures multiset(Gather(s, q)) == multiset(Gather(s, q[..j] + q[j + 1..])) + multiset{s[q[j]]}
  {
    var before, x, after := q[..j], q[j], q[j + 1..];
    RemoveAt(q, j, |s|);
    var gb, ga := Gather(s, before), Gather(s, after);
    assert Gather(s, q) == gb + ([s[x]] + ga) by {
      assert Gather(s, [x]) == [s[x]];
      GatherConcat(s, [x], after);
      GatherConcat(s, before, [x] + after);
    }
    assert Gather(s, before + after) == gb + ga by {
      GatherConcat(s, before, after);
    }
  }

  /** Cancelling one copy of `x` on both sides. */
  lemma MultisetCancel(a: multiset<nat>, b: multiset<nat>, x: nat)
    requires a + multiset{x} == b + multiset{x}
    ensures a == b
  {
    forall y ensures a[y] == b[y] {
      assert (a + multiset{x})[y] == (b + multiset{x})[y];
    }
  }

  /** Removing the first position of `p` and the same position at `j` in
      `q` keeps equal gathered multisets equal. */
  lemma GatherMultisetStep(s: seq<string>, p: seq<nat>, q: seq<nat>, j: nat)
    requires Positions(p, |s|) && Positions(q, |s|)
    requires p != [] && j < |q| && q[j] == p[0]
    requires Positions(p[1..], |s|) && Positions(q[..j] + q[j + 1..], |s|)
    requires multiset(Gather(s, p[1..])) == multiset(Gather(s, q[..j] + q[j + 1..]))
    ensures multiset(Gather(s, p)) == multiset(Gather(s, q))
  {
    var x := p[0];
    var rest := q[..j] + q[j + 1..];
    assert multiset(Gather(s, q)) == multiset(Gather(s, rest)) + multiset{s[x]} by {
      GatherRemoveAt(s, q, j);
    }
    assert multiset(Gather(s, p)) == multiset{s[x]} + multiset(Gather(s, p[1..])) by {
      assert Gather(s, p) == [s[x]] + Gather(s, p[1..]);
    }
  }

  /** Removing the first position of `p` and the same position at `j` in
      `q` keeps equal multisets of positions equal. */
  lemma RemoveFirstAndAt(p: seq<nat>, q: seq<nat>, j: nat, n: nat)
    requires Positions(p, n) && Positions(q, n) && multiset(p) == multiset(q)
    requires p != [] && j < |q| && q[j] == p[0]
    ensures Positions(p[1..], n) && Positions(q[..j] + q[j + 1..], n)
    ensures multiset(p[1..]) == multiset(q[..j] + q[j + 1..])
  {
    RemoveAt(q, j, n);
    assert p == [p[0]] + p[1..];
    assert multiset(p) == multiset(p[1..]) + multiset{p[0]};
    MultisetCancel(multiset(p[1..]), multiset(q[..j] + q[j + 1..]), p[0]);
  }

  /** Two orders that list the same positions gather the same values. */
  lemma {:induction false} GatherMultiset(s: seq<string>, p: seq<nat>, q: seq<nat>)
    requires Positions(p, |s|) && Positions(q, |s|)
    requires multiset(p) == multiset(q)
    ensures multiset(Gather(s, p)) == multiset(Gather(s, q))
  {
    if p == [] {
      assert |multiset(q)| == 0;
      assert q == [];
    } else {
      var j :| 0 <= j < |q| && q[j] == p[0] by {
        assert p[0] in multiset(q);
      }
      RemoveFirstAndAt(p, q, j, |s|);
      GatherMultiset(s, p[1..], q[..j] + q[j + 1..]);
      GatherMultisetStep(s, p, q, j);
    }
  }
}
