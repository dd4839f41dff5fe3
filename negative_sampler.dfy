/** Negative sampling: `add_negative_examples` and `get_negative_example`
    in build_triples.py.

    The `code` column is shuffled and each row takes the shuffled value at
    its position as its candidate negative. A row whose candidate equals its
    own code then redraws single random rows of the `code` column until the
    draw differs. The randomness is an input here: the shuffle is a
    permutation `perm` of the row positions (`negative[i] = code[perm[i]]`)
    and the redraws are one stream `draws` of row positions, used in order
    by the colliding rows. When the stream runs out before a colliding row
    finds a different code the outcome is `DrawsExhausted(row)`; with an
    unbounded stream of draws that is the source's endless loop. */
module NegativeSampler {

  import opened Permutations

  /** Every code string of the collection is the same one (and there is at
      least one): no row can ever find a different code. */
  predicate Degenerate(code: seq<string>) {
    |code| >= 1 && forall i :: 0 <= i < |code| ==> code[i] == code[0]
  }

  /** Line 47: the candidate negatives, the `code` column in shuffled order. */
  function Shuffle(code: seq<string>, perm: seq<nat>): (r: seq<string>)
    requires IsPermutation(perm, |code|)
    ensures |r| == |code|
  {
    PermutationBounds(perm, |code|);
    Gather(code, perm)
  }

  /** The shuffled column is a permutation of the `code` column: one value
      per row, and each code string as often as in `code`. */
  lemma ShuffleIsPermutation(code: seq<string>, perm: seq<nat>)
    requires IsPermutation(perm, |code|)
    ensures |Shuffle(code, perm)| == |code|
    ensures multiset(Shuffle(code, perm)) == multiset(code)
    ensures forall i :: 0 <= i < |code| ==> Shuffle(code, perm)[i] in code
  {
    PermutationBounds(perm, |code|);
    var shuffled := Shuffle(code, perm);
    assert multiset(shuffled) == multiset(code) by {
      var ids := Indices(|code|);
      assert Positions(ids, |code|);
      GatherMultiset(code, perm, ids);
      assert Gather(code, ids) == code by {
        forall i | 0 <= i < |code| ensures Gather(code, ids)[i] == code[i] {
          GatherAt(code, ids, i);
        }
      }
    }
    forall i | 0 <= i < |code| ensures shuffled[i] in code {
      assert shuffled[i] in multiset(code);
    }
  }

  /** What `get_negative_example` returns: the negative it settled on and
      the position of the first draw it left unused, or `Exhausted` when
      the draws ran out. */
  datatype Redrawn = Redrawn(negative: string, next: nat) | Exhausted

  /** `get_negative_example`: while the candidate equals the row's own code,
      replace it by the code of the next drawn row, starting at draw `k`.
      The negative it settles on differs from the row's code and is the
      candidate or a drawn code; the draws it used are those from `k` up
      to `next`. */
  function Redraw(code: seq<string>, own: string, candidate: string, draws: seq<nat>, k: nat): (r: Redrawn)
    requires Positions(draws, |code|) && k <= |draws|
    ensures r.Redrawn? ==> r.negative != own
    ensures r.Redrawn? ==> r.negative == candidate || r.negative in code
    ensures r.Redrawn? ==> k <= r.next <= |draws|
    decreases |draws| - k
  {
    if candidate != own then Redrawn(candidate, k)
    else if k == |draws| then Exhausted
    else Redraw(code, own, code[draws[k]], draws, k + 1)
  }

  /** Every draw from `k` on is a row with the code `own`. */
  predicate AllOwn(code: seq<string>, own: string, draws: seq<nat>, k: nat)
    requires Positions(draws, |code|)
  {
    forall j :: k <= j < |draws| ==> code[draws[j]] == own
  }

  /** The draws run out exactly when the candidate and every draw give
      back the row's own code. */
  lemma {:induction false} RedrawExhausted(code: seq<string>, own: string, candidate: string, draws: seq<nat>, k: nat)
    requires Positions(draws, |code|) && k <= |draws|
    ensures Redraw(code, own, candidate, draws, k).Exhausted? <==> candidate == own && AllOwn(code, own, draws, k)
    decreases |draws| - k
  {
    if candidate == own && k < |draws| {
      RedrawExhausted(code, own, code[draws[k]], draws, k + 1);
    }
  }

  /** The outcome of sampling: a negative per row, or the row whose redraws
      ran out. */
  datatype Outcome = Sampled(negatives: seq<string>) | DrawsExhausted(row: nat)

  /** Puts the negatives already chosen for earlier rows in front. */
  function Prepend(done: seq<string>, later: Outcome): Outcome {
    match later
    case Sampled(negatives) => Sampled(done + negatives)
    case DrawsExhausted(row) => later
  }

  /** The `apply` of lines 49-51 over rows `i..`: a row keeps a candidate
      that differs from its code and otherwise redraws, from draw `k` on,
      the first draw the earlier rows left. */
  function RepairRows(code: seq<string>, candidates: seq<string>, i: nat, draws: seq<nat>, k: nat): (r: Outcome)
    requires |candidates| == |code| && i <= |code|
    requires Positions(draws, |code|) && k <= |draws|
    ensures r.Sampled? ==> |r.negatives| == |code| - i
    ensures r.DrawsExhausted? ==> i <= r.row < |code|
    decreases |code| - i
  {
    if i == |code| then Sampled([])
    else
      match Redraw(code, code[i], candidates[i], draws, k)
      case Exhausted => DrawsExhausted(i)
      case Redrawn(negative, next) => Prepend([negative], RepairRows(code, candidates, i + 1, draws, next))
  }

  /** What the repair promises for one row: the negative differs from the
      row's code, it is the row's candidate or a code string of the
      collection, and a candidate that already differed is kept. */
  predicate RowRepaired(code: seq<string>, own: string, candidate: string, negative: string) {
    && negative != own
    && (negative == candidate || negative in code)
    && (candidate != own ==> negative == candidate)
  }

  /** `RowRepaired` for every row from `i` on. */
  predicate RowsRepaired(code: seq<string>, candidates: seq<string>, i: nat, negatives: seq<string>)
    requires |candidates| == |code| && i <= |code|
  {
    |negatives| == |code| - i
    && forall j :: 0 <= j < |negatives| ==> RowRepaired(code, code[i + j], candidates[i + j], negatives[j])
  }

  /** A repaired row in front of repaired later rows. */
  lemma RowsRepairedCons(code: seq<string>, candidates: seq<string>, i: nat, negative: string, later: seq<string>)
    requires |candidates| == |code| && i < |code|
    requires RowRepaired(code, code[i], candidates[i], negative)
    requires RowsRepaired(code, candidates, i + 1, later)
    ensures RowsRepaired(code, candidates, i, [negative] + later)
  {
    var negatives := [negative] + later;
    forall j | 1 <= j < |negatives|
      ensures RowRepaired(code, code[i + j], candidates[i + j], negatives[j])
    {
      assert negatives[j] == later[j - 1];
      assert i + j == (i + 1) + (j - 1);
    }
  }

  /** The repair keeps its promise on every row it reaches, and a failure
      names a row whose candidate collided. */
  lemma {:induction false} RepairRowsSpec(code: seq<string>, candidates: seq<string>, i: nat, draws: seq<nat>, k: nat)
    requires |candidates| == |code| && i <= |code|
    requires Positions(draws, |code|) && k <= |draws|
    ensures var r := RepairRows(code, candidates, i, draws, k);
      && (r.Sampled? ==> RowsRepaired(code, candidates, i, r.negatives))
      && (r.DrawsExhausted? ==> candidates[r.row] == code[r.row])
    decreases |code| - i
  {
    if i < |code| {
      var redrawn := Redraw(code, code[i], candidates[i], draws, k);
      if redrawn.Exhausted? {
        assert candidates[i] == code[i];
      } else {
        RepairRowsSpec(code, candidates, i + 1, draws, redrawn.next);
        var later := RepairRows(code, candidates, i + 1, draws, redrawn.next);
        assert RepairRows(code, candidates, i, draws, k) == Prepend([redrawn.negative], later);
        if later.Sampled? {
          RowsRepairedCons(code, candidates, i, redrawn.negative, later.negatives);
        }
      }
    } else {
      assert RowsRepaired(code, candidates, i, []);
    }
  }

  /** `add_negative_examples` as a function of the shuffle and the draws. */
  function SampleNegatives(code: seq<string>, perm: seq<nat>, draws: seq<nat>): (r: Outcome)
    requires IsPermutation(perm, |code|)
    requires Positions(draws, |code|)
    ensures r.Sampled? ==> |r.negatives| == |code|
    ensures r.DrawsExhausted? ==> r.row < |code|
  {
    RepairRows(code, Shuffle(code, perm), 0, draws, 0)
  }

  /** The guarantee of the sampler: when it returns, every row has a
      negative, no negative equals its own row's code, every negative is a
      code string of the collection, and a row whose shuffled candidate
      already differed keeps it. When it does not, the row it stopped at
      had drawn its own code. */
  lemma SampleNegativesSpec(code: seq<string>, perm: seq<nat>, draws: seq<nat>)
    requires IsPermutation(perm, |code|)
    requires Positions(draws, |code|)
    ensures var r, shuffled := SampleNegatives(code, perm, draws), Shuffle(code, perm);
      && (r.Sampled? ==> |r.negatives| == |code|)
      && (r.Sampled? ==> forall i :: 0 <= i < |code| ==> r.negatives[i] != code[i])
      && (r.Sampled? ==> forall i :: 0 <= i < |code| ==> r.negatives[i] in code)
      && (r.Sampled? ==> forall i :: 0 <= i < |code| && shuffled[i] != code[i] ==> r.negatives[i] == shuffled[i])
      && (r.DrawsExhausted? ==> r.row < |code| && shuffled[r.row] == code[r.row])
  {
    ShuffleIsPermutation(code, perm);
    var shuffled := Shuffle(code, perm);
    RepairRowsSpec(code, shuffled, 0, draws, 0);
    var r := RepairRows(code, shuffled, 0, draws, 0);
    if r.Sampled? {
      forall i | 0 <= i < |code|
        ensures r.negatives[i] != code[i] && r.negatives[i] in code
        ensures shuffled[i] != code[i] ==> r.negatives[i] == shuffled[i]
      {
        assert RowRepaired(code, code[0 + i], shuffled[0 + i], r.negatives[i]);
      }
    }
  }

  /** When no row's shuffled candidate equals its own code, no draw is used
      and the shuffled column is the result, whatever the draws. */
  lemma {:induction false} NoCollisionKeepsShuffle(code: seq<string>, perm: seq<nat>, draws: seq<nat>)
    requires IsPermutation(perm, |code|)
    requires Positions(draws, |code|)
    requires forall i :: 0 <= i < |code| ==> Shuffle(code, perm)[i] != code[i]
    ensures SampleNegatives(code, perm, draws) == Sampled(Shuffle(code, perm))
  {
    var shuffled := Shuffle(code, perm);
    RepairRowsSpec(code, shuffled, 0, draws, 0);
    var r := SampleNegatives(code, perm, draws);
    assert r.Sampled?;
    forall i | 0 <= i < |code| ensures r.negatives[i] == shuffled[i] {
      assert RowRepaired(code, code[0 + i], shuffled[0 + i], r.negatives[i]);
    }
    assert r.negatives == shuffled;
  }

  /** A degenerate collection never gets its negatives: the first row
      collides with itself and every draw gives back its own code, however
      many draws there are. This is the source's endless loop. */
  lemma DegenerateExhausts(code: seq<string>, perm: seq<nat>, draws: seq<nat>)
    requires IsPermutation(perm, |code|)
    requires Positions(draws, |code|)
    requires Degenerate(code)
    ensures SampleNegatives(code, perm, draws) == DrawsExhausted(0)
  {
    ShuffleIsPermutation(code, perm);
    var shuffled := Shuffle(code, perm);
    assert shuffled[0] in code;
    assert shuffled[0] == code[0];
    RedrawExhausted(code, code[0], shuffled[0], draws, 0);
  }

  /** One redraw per colliding row from `i` on: a row whose code differs
      from that of row `a` draws `a`, any other draws `b`. */
  function RepairPlan(code: seq<string>, candidates: seq<string>, i: nat, a: nat, b: nat): (plan: seq<nat>)
    requires |candidates| == |code| && i <= |code|
    requires a < |code| && b < |code| && code[a] != code[b]
    ensures Positions(plan, |code|)
    decreases |code| - i
  {
    if i == |code| then []
    else if candidates[i] == code[i] then [if code[a] != code[i] then a else b] + RepairPlan(code, candidates, i + 1, a, b)
    else RepairPlan(code, candidates, i + 1, a, b)
  }

  /** Draws that follow the plan from position `k` on repair every row from
      `i` on. */
  lemma {:induction false} RepairPlanSucceeds(code: seq<string>, candidates: seq<string>, i: nat, a: nat, b: nat,
                                              draws: seq<nat>, k: nat)
    requires |candidates| == |code| && i <= |code|
    requires a < |code| && b < |code| && code[a] != code[b]
    requires Positions(draws, |code|) && k <= |draws|
    requires draws[k..] == RepairPlan(code, candidates, i, a, b)
    ensures RepairRows(code, candidates, i, draws, k).Sampled?
    decreases |code| - i
  {
    if i < |code| {
      var later := RepairPlan(code, candidates, i + 1, a, b);
      if candidates[i] == code[i] {
        var w := if code[a] != code[i] then a else b;
        assert draws[k..] == [w] + later;
        assert draws[k] == w;
        assert draws[k + 1..] == draws[k..][1..];
        RepairPlanSucceeds(code, candidates, i + 1, a, b, draws, k + 1);
        assert Redraw(code, code[i], candidates[i], draws, k) == Redrawn(code[w], k + 1);
      } else {
        RepairPlanSucceeds(code, candidates, i + 1, a, b, draws, k);
      }
    }
  }

  /** Some sequence of draws completes the sampler exactly when the
      collection is not degenerate: termination needs, for every row, some
      code string that differs from the row's own. */
  lemma {:induction false} SamplerCompletesIffNotDegenerate(code: seq<string>, perm: seq<nat>)
    requires IsPermutation(perm, |code|)
    ensures (exists draws :: Positions(draws, |code|) && SampleNegatives(code, perm, draws).Sampled?)
      <==> !Degenerate(code)
  {
    if Degenerate(code) {
      forall draws | Positions(draws, |code|)
        ensures !SampleNegatives(code, perm, draws).Sampled?
      {
        DegenerateExhausts(code, perm, draws);
      }
    } else if |code| == 0 {
      assert Positions([], 0);
      assert SampleNegatives(code, perm, []).Sampled?;
    } else {
      var b :| 0 <= b < |code| && code[b] != code[0];
      var shuffled := Shuffle(code, perm);
      var plan := RepairPlan(code, shuffled, 0, 0, b);
      assert plan[0..] == plan;
      RepairPlanSucceeds(code, shuffled, 0, 0, b, plan, 0);
      assert SampleNegatives(code, perm, plan).Sampled?;
    }
  }

  /** `get_negative_example` for one row: starting from draw `k`, redraw
      while the candidate equals the row's own code. `found` is false when
      the draws run out first. */
  method GetNegativeExample(code: array<string>, own: string, candidate: string, draws: seq<nat>, k: nat)
    returns (found: bool, negative: string, next: nat)
    requires k <= |draws| && Positions(draws, code.Length)
    ensures found ==> Redraw(code[..], own, candidate, draws, k) == Redrawn(negative, next)
    ensures !found ==> Redraw(code[..], own, candidate, draws, k) == Exhausted
  {
    ghost var column := code[..];
    negative, next := candidate, k;
    while negative == own
      invariant k <= next <= |draws|
      invariant Redraw(column, own, negative, draws, next) == Redraw(column, own, candidate, draws, k)
      decreases |draws| - next
    {
      if next == |draws| {
        return false, negative, next;
      }
      negative := code[draws[next]];
      next := next + 1;
    }
    found := true;
  }

  /** One row of the repair, seen from the rows before it: the negative
      the row settles on joins the negatives already chosen. */
  lemma RepairRowsStep(code: seq<string>, candidates: seq<string>, i: nat, draws: seq<nat>, k: nat,
                       negative: string, next: nat, done: seq<string>)
    requires |candidates| == |code| && i < |code|
    requires Positions(draws, |code|) && k <= |draws|
    requires Redraw(code, code[i], candidates[i], draws, k) == Redrawn(negative, next)
    ensures Prepend(done, RepairRows(code, candidates, i, draws, k))
      == Prepend(done + [negative], RepairRows(code, candidates, i + 1, draws, next))
  {
    var later := RepairRows(code, candidates, i + 1, draws, next);
    assert RepairRows(code, candidates, i, draws, k) == Prepend([negative], later);
    if later.Sampled? {
      assert done + ([negative] + later.negatives) == (done + [negative]) + later.negatives;
    }
  }

  /** The candidates the shuffle writes into a fresh column. */
  method ShuffledColumn(code: array<string>, perm: seq<nat>) returns (negatives: array<string>)
    requires IsPermutation(perm, code.Length)
    ensures fresh(negatives)
    ensures negatives[..] == Shuffle(code[..], perm)
  {
    PermutationBounds(perm, code.Length);
    negatives := new string[code.Length];
    forall i | 0 <= i < code.Length {
      negatives[i] := code[perm[i]];
    }
    forall j | 0 <= j < code.Length ensures negatives[j] == Shuffle(code[..], perm)[j] {
      GatherAt(code[..], perm, j);
    }
  }

  /** `add_negative_examples`: fill the negatives with the shuffled code
      column, then repair every row whose candidate equals its own code. */
  method AddNegativeExamples(code: array<string>, perm: seq<nat>, draws: seq<nat>) returns (r: Outcome)
    requires IsPermutation(perm, code.Length)
    requires Positions(draws, code.Length)
    ensures r == SampleNegatives(code[..], perm, draws)
    ensures r.Sampled? ==> |r.negatives| == code.Length
    ensures r.Sampled? ==> forall i :: 0 <= i < code.Length ==> r.negatives[i] != code[i]
  {
    ghost var column := code[..];
    ghost var shuffled := Shuffle(column, perm);
    var n := code.Length;
    var negatives := ShuffledColumn(code, perm);
    var i, k := 0, 0;
    while i < n
      invariant 0 <= i <= n && 0 <= k <= |draws|
      invariant forall j :: i <= j < n ==> negatives[j] == shuffled[j]
      invariant Prepend(negatives[..i], RepairRows(column, shuffled, i, draws, k))
        == RepairRows(column, shuffled, 0, draws, 0)
    {
      ghost var before := negatives[..i];
      ghost var from := k;
      if negatives[i] == code[i] {
        var found, negative, next := GetNegativeExample(code, code[i], negatives[i], draws, k);
        if !found {
          return DrawsExhausted(i);
        }
        negatives[i], k := negative, next;
      }
      RepairRowsStep(column, shuffled, i, draws, from, negatives[i], k, before);
      assert negatives[..i + 1] == before + [negatives[i]];
      i := i + 1;
    }
    assert negatives[..n] == negatives[..];
    r := Sampled(negatives[..]);
    assert forall i :: 0 <= i < n ==> r.negatives[i] != code[i] by {
      SampleNegativesSpec(column, perm, draws);
    }
  }
}
