/**
 * Top-k selection as `get_top_k_resume_chunks` (embeddings.py) and
 * `match_resume` (flask_app.py) do it: `np.argsort(sims)[::-1][:k]`.
 */
module Selection {

  function Min(a: nat, b: nat): nat {
    if a <= b then a else b
  }

  /** No index occurs twice. */
  predicate Distinct(xs: seq<nat>) {
    forall i, j :: 0 <= i < j < |xs| ==> xs[i] != xs[j]
  }

  /** Every index picks a score. */
  predicate InRange(xs: seq<nat>, n: nat) {
    forall i :: 0 <= i < |xs| ==> xs[i] < n
  }

  /** The scores of `xs`, in order, never increase. */
  predicate Descending(scores: seq<real>, xs: seq<nat>)
    requires InRange(xs, |scores|)
  {
    forall i, j :: 0 <= i < j < |xs| ==> scores[xs[i]] >= scores[xs[j]]
  }

  /**
   * Position in `cand` of a highest score. Ties go to the later candidate,
   * which is what a stable ascending sort read backwards would give; numpy's
   * default sort is not stable, so no property below depends on it.
   */
  function BestPos(scores: seq<real>, cand: seq<nat>): (p: nat)
    requires |cand| > 0 && InRange(cand, |scores|)
    ensures p < |cand|
    ensures forall x :: x in cand ==> scores[x] <= scores[cand[p]]
    decreases |cand|
  {
    if |cand| == 1 then 0
    else
      var init := cand[..|cand| - 1];
      assert cand == init + [cand[|cand| - 1]];
      var p := BestPos(scores, init);
      if scores[cand[|cand| - 1]] >= scores[cand[p]] then |cand| - 1 else p
  }

  /** `cand` without its element at `p`. */
  function RemoveAt(cand: seq<nat>, p: nat): (r: seq<nat>)
    requires p < |cand|
    ensures |r| == |cand| - 1
  {
    seq(|cand| - 1, q requires 0 <= q < |cand| - 1 => if q < p then cand[q] else cand[q + 1])
  }

  /** Removing a position from distinct candidates removes that candidate. */
  lemma RemoveAtDistinct(cand: seq<nat>, p: nat)
    requires p < |cand| && Distinct(cand)
    ensures Distinct(RemoveAt(cand, p))
    ensures cand[p] !in RemoveAt(cand, p)
  {
  }

  /** ... and keeps every other candidate. */
  lemma RemoveAtKeeps(cand: seq<nat>, p: nat, x: nat)
    requires p < |cand| && x in cand && x != cand[p]
    ensures x in RemoveAt(cand, p)
  {
    var r := RemoveAt(cand, p);
    var q :| 0 <= q < |cand| && cand[q] == x;
    if q < p {
      assert r[q] == x;
    } else {
      assert r[q - 1] == x;
    }
  }

  /** Repeatedly take a best remaining candidate, `k` times or until none is left. */
  function SelectTop(scores: seq<real>, cand: seq<nat>, k: nat): (r: seq<nat>)
    requires InRange(cand, |scores|)
    ensures |r| == Min(k, |cand|)
    ensures InRange(r, |scores|)
    decreases k
  {
    if k == 0 || |cand| == 0 then []
    else
      var p := BestPos(scores, cand);
      [cand[p]] + SelectTop(scores, RemoveAt(cand, p), k - 1)
  }

  /**
   * The picks of `SelectTop` are distinct candidates in descending score
   * order, and every candidate left over scores no higher than any pick.
   */
  lemma SelectTopRanks(scores: seq<real>, cand: seq<nat>, k: nat)
    requires InRange(cand, |scores|) && Distinct(cand)
    ensures var r := SelectTop(scores, cand, k);
            && (forall x :: x in r ==> x in cand)
            && InRange(r, |scores|) && Distinct(r) && Descending(scores, r)
            && (forall i, x :: 0 <= i < |r| && x in cand && x !in r ==> scores[r[i]] >= scores[x])
  {
    SelectTopFrom(scores, cand, k);
    SelectTopDistinct(scores, cand, k);
    SelectTopDescending(scores, cand, k);
    SelectTopDominates(scores, cand, k);
  }

  /** Every pick is a candidate. */
  lemma {:induction false} SelectTopFrom(scores: seq<real>, cand: seq<nat>, k: nat)
    requires InRange(cand, |scores|)
    ensures forall x :: x in SelectTop(scores, cand, k) ==> x in cand
    ensures InRange(SelectTop(scores, cand, k), |scores|)
    decreases k
  {
    if k > 0 && |cand| > 0 {
      var p := BestPos(scores, cand);
      var others := RemoveAt(cand, p);
      RemoveAtFrom(cand, p);
      SelectTopFrom(scores, others, k - 1);
    }
  }

  /** Every element left after a removal was a candidate. */
  lemma RemoveAtFrom(cand: seq<nat>, p: nat)
    requires p < |cand|
    ensures forall x :: x in RemoveAt(cand, p) ==> x in cand
  {
    var r := RemoveAt(cand, p);
    forall x | x in r
      ensures x in cand
    {
      var q :| 0 <= q < |r| && r[q] == x;
      if q < p {
        assert cand[q] == x;
      } else {
        assert cand[q + 1] == x;
      }
    }
  }

  /** No candidate is picked twice. */
  lemma {:induction false} SelectTopDistinct(scores: seq<real>, cand: seq<nat>, k: nat)
    requires InRange(cand, |scores|) && Distinct(cand)
    ensures Distinct(SelectTop(scores, cand, k))
    decreases k
  {
    if k > 0 && |cand| > 0 {
      var p := BestPos(scores, cand);
      var others := RemoveAt(cand, p);
      RemoveAtDistinct(cand, p);
      SelectTopDistinct(scores, others, k - 1);
      SelectTopFrom(scores, others, k - 1);
      var rest := SelectTop(scores, others, k - 1);
      assert SelectTop(scores, cand, k) == [cand[p]] + rest;
      ConsDistinct(cand[p], rest);
    }
  }

  /** Putting a new element in front keeps a sequence free of repeats. */
  lemma ConsDistinct(c: nat, rest: seq<nat>)
    requires Distinct(rest) && c !in rest
    ensures Distinct([c] + rest)
  {
    var r := [c] + rest;
    forall i, j | 0 <= i < j < |r|
      ensures r[i] != r[j]
    {
      assert r[j] == rest[j - 1];
      if i > 0 {
        assert r[i] == rest[i - 1];
      }
    }
  }

  /** The picks come in non-increasing score order. */
  lemma {:induction false} SelectTopDescending(scores: seq<real>, cand: seq<nat>, k: nat)
    requires InRange(cand, |scores|)
    ensures InRange(SelectTop(scores, cand, k), |scores|)
    ensures Descending(scores, SelectTop(scores, cand, k))
    decreases k
  {
    SelectTopFrom(scores, cand, k);
    if k > 0 && |cand| > 0 {
      var p := BestPos(scores, cand);
      var others := RemoveAt(cand, p);
      RemoveAtFrom(cand, p);
      SelectTopDescending(scores, others, k - 1);
      SelectTopFrom(scores, others, k - 1);
      var rest := SelectTop(scores, others, k - 1);
      var r := [cand[p]] + rest;
      assert forall i :: 0 < i < |r| ==> r[i] == rest[i - 1];
      assert forall i :: 0 < i < |r| ==> r[i] in cand;
    }
  }

  /** No candidate left over scores above a pick. */
  lemma SelectTopDominates(scores: seq<real>, cand: seq<nat>, k: nat)
    requires InRange(cand, |scores|)
    ensures InRange(SelectTop(scores, cand, k), |scores|)
    ensures var r := SelectTop(scores, cand, k);
            forall i, x :: 0 <= i < |r| && x in cand && x !in r ==> scores[r[i]] >= scores[x]
  {
    SelectTopFrom(scores, cand, k);
    var r := SelectTop(scores, cand, k);
    forall i, x | 0 <= i < |r| && x in cand && x !in r
      ensures scores[r[i]] >= scores[x]
    {
      SelectTopDominatesAt(scores, cand, k, i, x);
    }
  }

  /** The pick at `i` scores at least as high as the left-over candidate `x`. */
  lemma {:induction false} SelectTopDominatesAt(scores: seq<real>, cand: seq<nat>, k: nat, i: nat, x: nat)
    requires InRange(cand, |scores|)
    requires i < |SelectTop(scores, cand, k)| && x in cand && x !in SelectTop(scores, cand, k)
    ensures x < |scores|
    ensures scores[SelectTop(scores, cand, k)[i]] >= scores[x]
    decreases k
  {
    var p := BestPos(scores, cand);
    var others := RemoveAt(cand, p);
    var rest := SelectTop(scores, others, k - 1);
    assert SelectTop(scores, cand, k) == [cand[p]] + rest;
    if i > 0 {
      NotInTail(cand[p], rest, x);
      RemoveAtKeeps(cand, p, x);
      SelectTopDominatesAt(scores, others, k - 1, i - 1, x);
    }
  }

  /** What is not in `[c] + rest` is not in `rest`. */
  lemma NotInTail(c: nat, rest: seq<nat>, x: nat)
    requires x !in [c] + rest
    ensures x != c && x !in rest
  {
    assert ([c] + rest)[0] == c;
    forall j | 0 <= j < |rest|
      ensures rest[j] != x
    {
      assert ([c] + rest)[j + 1] == rest[j];
    }
  }

  /** The indices `0 .. n-1` in order. */
  function Range(n: nat): (r: seq<nat>)
    ensures |r| == n && forall i :: 0 <= i < n ==> r[i] == i
  {
    seq(n, i requires 0 <= i < n => i)
  }

  /**
   * `np.argsort(scores)[::-1][:k]`: `min(k, n)` distinct indices whose scores
   * never increase, and no index left out scores above one taken.
   */
  function TopK(scores: seq<real>, k: nat): (r: seq<nat>)
    ensures |r| == Min(k, |scores|)
    ensures InRange(r, |scores|) && Distinct(r) && Descending(scores, r)
    ensures forall i, j :: 0 <= i < |r| && 0 <= j < |scores| && j !in r ==> scores[r[i]] >= scores[j]
  {
    var all := Range(|scores|);
    assert InRange(all, |scores|);
    var r := SelectTop(scores, all, k);
    SelectTopRanks(scores, all, k);
    assert forall j :: 0 <= j < |scores| ==> j in all by {
      forall j | 0 <= j < |scores|
        ensures j in all
      {
        assert all[j] == j;
      }
    }
    r
  }

  /** Asking for fewer picks gives a prefix of the same ranking. */
  lemma {:induction false} SelectTopPrefix(scores: seq<real>, cand: seq<nat>, k: nat, m: nat)
    requires InRange(cand, |scores|)
    requires k <= m
    ensures SelectTop(scores, cand, k) == SelectTop(scores, cand, m)[..Min(k, |cand|)]
    decreases k
  {
    if k > 0 && |cand| > 0 {
      var p := BestPos(scores, cand);
      var others := RemoveAt(cand, p);
      SelectTopPrefix(scores, others, k - 1, m - 1);
      ConsPrefix(cand[p], SelectTop(scores, others, k - 1), SelectTop(scores, others, m - 1), Min(k - 1, |others|));
    }
  }

  lemma ConsPrefix(c: nat, a: seq<nat>, b: seq<nat>, n: nat)
    requires n <= |b| && a == b[..n]
    ensures [c] + a == ([c] + b)[..n + 1]
  {
  }

  /** `argsort(...)[::-1][:k]` is a prefix of `argsort(...)[::-1][:m]` when `k <= m`. */
  lemma TopKPrefix(scores: seq<real>, k: nat, m: nat)
    requires k <= m
    ensures TopK(scores, k) == TopK(scores, m)[..Min(k, |scores|)]
  {
    SelectTopPrefix(scores, Range(|scores|), k, m);
  }
}
