/** Boundary bookkeeping shared by the sampler and the result assembly:
    every article is cut into a number of windows, the windows of all
    articles are processed as one flat list, and the running sum of the
    per-article window counts (`end_context`) is used to cut the flat list
    of outputs back into one group per article with
    `zip([0] + end[:-1], end)`. Also the element-wise mean of a group of
    no/yes/neutral probability vectors and its rendering in percent. */
module Aggregation {
  import opened PyLib

  // ------------------------------------------------------------------
  // running sums

  function Sum(counts: seq<nat>): nat
  {
    if |counts| == 0 then 0 else counts[0] + Sum(counts[1..])
  }

  lemma {:induction false} SumAppend(a: seq<nat>, b: seq<nat>)
    ensures Sum(a + b) == Sum(a) + Sum(b)
    decreases |a|
  {
    if |a| == 0 {
      assert a + b == b;
    } else {
      assert (a + b)[1..] == a[1..] + b;
      SumAppend(a[1..], b);
    }
  }

  lemma SumPrefixStep(counts: seq<nat>, i: nat)
    requires i < |counts|
    ensures Sum(counts[..i + 1]) == Sum(counts[..i]) + counts[i]
  {
    assert counts[..i + 1] == counts[..i] + [counts[i]];
    SumAppend(counts[..i], [counts[i]]);
    assert Sum([counts[i]]) == counts[i] + Sum([]);
  }

  /** `K.cumsum(counts)`: the running total, accumulated from `acc`. */
  function CumsumFrom(acc: nat, counts: seq<nat>): (r: seq<nat>)
    ensures |r| == |counts|
    decreases |counts|
  {
    if |counts| == 0 then []
    else [acc + counts[0]] + CumsumFrom(acc + counts[0], counts[1..])
  }

  /** Entry i of the running total from `acc` is acc plus the counts up to
      and including i. */
  lemma {:induction false} CumsumFromSpec(acc: nat, counts: seq<nat>)
    ensures forall i :: 0 <= i < |counts| ==> CumsumFrom(acc, counts)[i] == acc + Sum(counts[..i + 1])
    decreases |counts|
  {
    if |counts| > 0 {
      var rest := CumsumFrom(acc + counts[0], counts[1..]);
      CumsumFromSpec(acc + counts[0], counts[1..]);
      CumsumStep(acc, counts, rest, [acc + counts[0]] + rest);
    }
  }

  lemma CumsumStep(acc: nat, counts: seq<nat>, rest: seq<nat>, r: seq<nat>)
    requires |counts| > 0
    requires |rest| == |counts| - 1
    requires forall i :: 0 <= i < |rest| ==> rest[i] == acc + counts[0] + Sum(counts[1..][..i + 1])
    requires r == [acc + counts[0]] + rest
    ensures forall i :: 0 <= i < |r| ==> r[i] == acc + Sum(counts[..i + 1])
  {
    forall i | 0 <= i < |r|
      ensures r[i] == acc + Sum(counts[..i + 1])
    {
      var p := counts[..i + 1];
      assert p[0] == counts[0];
      if i == 0 {
        assert Sum(p) == counts[0] + Sum(p[1..]);
        assert p[1..] == [];
      } else {
        assert p[1..] == counts[1..][..i];
        assert Sum(p) == counts[0] + Sum(counts[1..][..i]);
        assert r[i] == rest[i - 1];
      }
    }
  }

  /** `end_context`: the cumulative window count of each article. */
  function Cumsum(counts: seq<nat>): (r: seq<nat>)
    ensures |r| == |counts|
  {
    CumsumFrom(0, counts)
  }

  /** The cumulative count is the sum of the article's count and all
      earlier ones, it never decreases, and the last value is the total
      number of windows. */
  lemma CumsumSpec(counts: seq<nat>)
    ensures var e := Cumsum(counts);
      (forall i :: 0 <= i < |e| ==> e[i] == Sum(counts[..i]) + counts[i])
      && (forall i, j :: 0 <= i <= j < |e| ==> e[i] <= e[j])
      && (|e| > 0 ==> e[|e| - 1] == Sum(counts))
  {
    var e := Cumsum(counts);
    forall i | 0 <= i < |e| ensures e[i] == Sum(counts[..i]) + counts[i] {
      CumsumAt(counts, i);
    }
    forall i, j | 0 <= i <= j < |e| ensures e[i] <= e[j] {
      CumsumAt(counts, i);
      CumsumAt(counts, j);
      SumPrefixStep(counts, i);
      SumPrefixStep(counts, j);
      assert counts[..j + 1] == counts[..i + 1] + counts[i + 1..j + 1];
      SumAppend(counts[..i + 1], counts[i + 1..j + 1]);
    }
    if |e| > 0 {
      CumsumAt(counts, |e| - 1);
      SumPrefixStep(counts, |e| - 1);
      assert counts[..|e|] == counts;
    }
  }

  // ------------------------------------------------------------------
  // cutting a flat list back into groups

  /** The group start offsets `[0] + end[:-1]`. */
  function Starts(ends: seq<int>): (r: seq<int>)
    ensures |r| == |ends| + (if |ends| == 0 then 1 else 0)
  {
    [0] + Slice(ends, 0, -1)
  }

  /** `[xs[start:end] for start, end in zip([0] + end[:-1], end)]`, the
      regrouping of the result assembly (exclusive end). */
  function Groups<T>(xs: seq<T>, ends: seq<int>): (r: seq<seq<T>>)
    ensures |r| == |ends|
  {
    var s := Starts(ends);
    seq(|ends|, i requires 0 <= i < |ends| => Slice(xs, s[i], ends[i]))
  }

  /** `[xs[start:end+1] for start, end in zip([0] + end[:-1], end)]`, the
      regrouping of the sampler's `from_abs` / `from_ext` branches. */
  function GroupsInclusive<T>(xs: seq<T>, ends: seq<int>): (r: seq<seq<T>>)
    ensures |r| == |ends|
  {
    var s := Starts(ends);
    seq(|ends|, i requires 0 <= i < |ends| => Slice(xs, s[i], ends[i] + 1))
  }

  /** The start of group i is the end of group i - 1, and 0 for the first group. */
  lemma StartsSpec(ends: seq<int>, i: nat)
    requires i < |ends|
    ensures Starts(ends)[i] == if i == 0 then 0 else ends[i - 1]
  {
  }

  function Flatten<T>(gs: seq<seq<T>>): seq<T>
  {
    if |gs| == 0 then [] else Flatten(gs[..|gs| - 1]) + gs[|gs| - 1]
  }

  /** An element of the concatenation comes from one of the lists. */
  lemma {:induction false} FlattenMember<T>(gs: seq<seq<T>>, x: T)
    ensures x in Flatten(gs) <==> exists i :: 0 <= i < |gs| && x in gs[i]
    decreases |gs|
  {
    if |gs| > 0 {
      var n := |gs| - 1;
      FlattenMember(gs[..n], x);
      if exists i :: 0 <= i < n && x in gs[..n][i] {
        var i :| 0 <= i < n && x in gs[..n][i];
        assert gs[i] == gs[..n][i];
      }
      if exists i :: 0 <= i < |gs| && x in gs[i] {
        var i :| 0 <= i < |gs| && x in gs[i];
        if i < n {
          assert gs[i] == gs[..n][i];
        }
      }
    }
  }

  /** The windows before article i and those of article i fit in the flat list. */
  lemma SumPrefixBound(counts: seq<nat>, i: nat)
    requires i < |counts|
    ensures Sum(counts[..i]) + counts[i] == Sum(counts[..i + 1]) <= Sum(counts)
  {
    assert counts == counts[..i + 1] + counts[i + 1..];
    SumAppend(counts[..i + 1], counts[i + 1..]);
    SumPrefixStep(counts, i);
  }

  /** Group i of window outputs cut by `Cumsum(counts)` holds exactly the
      outputs of article i: it starts after the windows of the earlier
      articles and has counts[i] elements. */
  lemma GroupsOfCumsum<T>(xs: seq<T>, counts: seq<nat>, i: nat)
    requires |xs| == Sum(counts)
    requires i < |counts|
    ensures Sum(counts[..i]) + counts[i] <= |xs|
    ensures Groups(xs, Cumsum(counts))[i] == xs[Sum(counts[..i])..Sum(counts[..i]) + counts[i]]
  {
    var lo := Sum(counts[..i]);
    SumPrefixBound(counts, i);
    CumsumAt(counts, i);
    StartsOfCumsum(counts, i);
    GroupsSlice(xs, Cumsum(counts), i, lo, lo + counts[i]);
  }

  /** Entry i of the running total. */
  lemma CumsumAt(counts: seq<nat>, i: nat)
    requires i < |counts|
    ensures Cumsum(counts)[i] == Sum(counts[..i]) + counts[i]
  {
    CumsumFromSpec(0, counts);
    SumPrefixStep(counts, i);
  }

  /** Group i of a running total starts at the windows of the earlier articles. */
  lemma StartsOfCumsum(counts: seq<nat>, i: nat)
    requires i < |counts|
    ensures Starts(Cumsum(counts))[i] == Sum(counts[..i])
  {
    StartsSpec(Cumsum(counts), i);
    if i == 0 {
      assert counts[..0] == [];
    } else {
      CumsumAt(counts, i - 1);
      assert counts[..i - 1 + 1] == counts[..i];
      SumPrefixStep(counts, i - 1);
    }
  }

  /** Group i is the slice between its start and its end. */
  lemma GroupsSlice<T>(xs: seq<T>, ends: seq<int>, i: nat, lo: nat, hi: nat)
    requires i < |ends| && Starts(ends)[i] == lo && ends[i] == hi && lo <= hi <= |xs|
    ensures Groups(xs, ends)[i] == xs[lo..hi]
  {
    SliceInRange(xs, lo, hi);
  }

  /** Concatenating consecutive slices of xs that start at 0 gives the
      prefix of xs up to the last bound. */
  lemma {:induction false} FlattenContiguous<T>(gs: seq<seq<T>>, xs: seq<T>, bounds: seq<nat>)
    requires |bounds| == |gs| + 1 && bounds[0] == 0
    requires forall i, j :: 0 <= i <= j < |bounds| ==> bounds[i] <= bounds[j]
    requires bounds[|gs|] <= |xs|
    requires forall i :: 0 <= i < |gs| ==> gs[i] == xs[bounds[i]..bounds[i + 1]]
    ensures Flatten(gs) == xs[..bounds[|gs|]]
    decreases |gs|
  {
    if |gs| > 0 {
      var n := |gs| - 1;
      FlattenContiguous(gs[..n], xs, bounds[..n + 1]);
      assert xs[..bounds[n]] + xs[bounds[n]..bounds[n + 1]] == xs[..bounds[n + 1]];
    }
  }

  /** Cutting the flat list by `Cumsum(counts)` and concatenating the groups
      again gives the flat list back: every output lands in exactly one group. */
  lemma GroupsPartition<T>(xs: seq<T>, counts: seq<nat>)
    requires |xs| == Sum(counts)
    ensures Flatten(Groups(xs, Cumsum(counts))) == xs
  {
    var gs := Groups(xs, Cumsum(counts));
    var bounds := seq(|counts| + 1, i requires 0 <= i <= |counts| => Sum(counts[..i]));
    forall i, j | 0 <= i <= j < |bounds| ensures bounds[i] <= bounds[j] {
      assert counts[..j] == counts[..i] + counts[i..j];
      SumAppend(counts[..i], counts[i..j]);
    }
    assert bounds[|gs|] == |xs| by {
      assert counts[..|counts|] == counts;
    }
    forall i | 0 <= i < |gs| ensures gs[i] == xs[bounds[i]..bounds[i + 1]] {
      GroupsOfCumsum(xs, counts, i);
      SumPrefixBound(counts, i);
    }
    assert bounds[0] == 0 by {
      assert counts[..0] == [];
    }
    FlattenContiguous(gs, xs, bounds);
    assert counts[..|counts|] == counts;
    assert xs[..|xs|] == xs;
  }

  /** The sampler's inclusive regrouping: group i is the exclusive group
      followed by the first output of the next article, whenever there is one. */
  lemma GroupsInclusiveOverlap<T>(xs: seq<T>, ends: seq<nat>, i: nat)
    requires i < |ends|
    requires forall j, k :: 0 <= j <= k < |ends| ==> ends[j] <= ends[k]
    requires ends[i] < |xs|
    ensures GroupsInclusive(xs, ends)[i] == Groups(xs, ends)[i] + [xs[ends[i]]]
  {
    var lo := if i == 0 then 0 else ends[i - 1];
    StartsSpec(ends, i);
    SliceInRange(xs, lo, ends[i]);
    SliceInRange(xs, lo, ends[i] + 1);
  }

  /** A group that ends at the end of the list (the last article's) runs
      off the end in the inclusive regrouping, and the two regroupings agree. */
  lemma GroupsInclusiveAtEnd<T>(xs: seq<T>, ends: seq<nat>, i: nat)
    requires i < |ends| && ends[i] >= |xs|
    ensures GroupsInclusive(xs, ends)[i] == Groups(xs, ends)[i]
  {
  }

  // ------------------------------------------------------------------
  // no/yes/neutral probabilities

  /** One classifier output: the probabilities of the labels no (0),
      yes (1) and neutral (2). */
  datatype Probs = Probs(no: real, yes: real, neutral: real)

  predicate IsDistribution(p: Probs)
  {
    p.no >= 0.0 && p.yes >= 0.0 && p.neutral >= 0.0 && p.no + p.yes + p.neutral == 1.0
  }

  function Total(ps: seq<Probs>): Probs
  {
    if |ps| == 0 then Probs(0.0, 0.0, 0.0)
    else
      var t := Total(ps[..|ps| - 1]);
      var l := ps[|ps| - 1];
      Probs(t.no + l.no, t.yes + l.yes, t.neutral + l.neutral)
  }

  /** `np.mean(group, axis=0)`; an empty group has no mean (NumPy yields NaN). */
  function Mean(ps: seq<Probs>): (r: Option<Probs>)
    ensures r.None? <==> |ps| == 0
  {
    if |ps| == 0 then None
    else
      var t := Total(ps);
      var n := |ps| as real;
      Some(Probs(t.no / n, t.yes / n, t.neutral / n))
  }

  /** The mean of one vector is that vector. */
  lemma MeanSingle(p: Probs)
    ensures Mean([p]) == Some(p)
  {
    assert [p][..0] == [];
    assert Total([p]) == Probs(0.0 + p.no, 0.0 + p.yes, 0.0 + p.neutral);
  }

  /** The components of a sum of distributions are non-negative and add up
      to the number of vectors summed. */
  lemma {:induction false} TotalOfDistributions(ps: seq<Probs>)
    requires forall k :: 0 <= k < |ps| ==> IsDistribution(ps[k])
    ensures var t := Total(ps);
      t.no >= 0.0 && t.yes >= 0.0 && t.neutral >= 0.0
      && t.no + t.yes + t.neutral == |ps| as real
  {
    if |ps| > 0 {
      TotalOfDistributions(ps[..|ps| - 1]);
      assert IsDistribution(ps[|ps| - 1]);
    }
  }

  /** The mean of probability vectors is again a probability vector. */
  lemma MeanOfDistributions(ps: seq<Probs>)
    requires |ps| > 0
    requires forall k :: 0 <= k < |ps| ==> IsDistribution(ps[k])
    ensures Mean(ps).Some? && IsDistribution(Mean(ps).value)
  {
    TotalOfDistributions(ps);
    var t := Total(ps);
    var n := |ps| as real;
    assert t.no / n + t.yes / n + t.neutral / n == (t.no + t.yes + t.neutral) / n;
  }

  /** Two windows [0.1, 0.8, 0.1] and [0.3, 0.6, 0.1] average to
      [0.2, 0.7, 0.1]. */
  lemma MeanExample()
    ensures Mean([Probs(0.1, 0.8, 0.1), Probs(0.3, 0.6, 0.1)]) == Some(Probs(0.2, 0.7, 0.1))
  {
    var ps := [Probs(0.1, 0.8, 0.1), Probs(0.3, 0.6, 0.1)];
    assert ps[..1] == [Probs(0.1, 0.8, 0.1)];
    assert ps[..1][..0] == [];
    assert Total(ps[..1]) == Probs(0.1, 0.8, 0.1);
    assert Total(ps) == Probs(0.4, 1.4, 0.2);
  }

  /** The answer entry of a record: the three components times 100. */
  datatype Percent = Percent(no: real, yes: real, neutral: real)

  function ToPercent(p: Probs): (r: Percent)
  {
    Percent(p.no * 100.0, p.yes * 100.0, p.neutral * 100.0)
  }

  /** Percentages keep the order of the labels and, for a probability
      vector, add up to 100; dividing by 100 gives the vector back. */
  lemma ToPercentSpec(p: Probs)
    ensures var r := ToPercent(p);
      Probs(r.no / 100.0, r.yes / 100.0, r.neutral / 100.0) == p
      && (IsDistribution(p) ==>
            r.no + r.yes + r.neutral == 100.0 && r.no >= 0.0 && r.yes >= 0.0 && r.neutral >= 0.0)
  {
  }

  /** The per-article answers of the boolean pipeline: the mean of each
      group of window outputs, in percent (None for an article without
      windows, whose NumPy mean is NaN). */
  function GroupAnswers(answers: seq<Probs>, ends: seq<int>): (r: seq<Option<Percent>>)
    ensures |r| == |ends|
  {
    var gs := Groups(answers, ends);
    seq(|gs|, i requires 0 <= i < |gs| => MeanPercent(gs[i]))
  }

  function MeanPercent(g: seq<Probs>): Option<Percent>
  {
    match Mean(g)
    case None => None
    case Some(m) => Some(ToPercent(m))
  }

  /** Article i of the boolean pipeline gets the percent of the mean of the
      answers of its own windows; a one-window article gets its window's
      answer unchanged. */
  lemma GroupAnswersSpec(answers: seq<Probs>, counts: seq<nat>, i: nat)
    requires |answers| == Sum(counts)
    requires i < |counts|
    ensures var lo := Sum(counts[..i]);
      lo + counts[i] <= |answers|
      && GroupAnswers(answers, Cumsum(counts))[i]
         == (if counts[i] == 0 then None
             else Some(ToPercent(Mean(answers[lo..lo + counts[i]]).value)))
      && (counts[i] == 1 ==> GroupAnswers(answers, Cumsum(counts))[i] == Some(ToPercent(answers[lo])))
  {
    var lo := Sum(counts[..i]);
    GroupsOfCumsum(answers, counts, i);
    GroupAnswersAt(answers, Cumsum(counts), i);
    MeanPercentOf(answers[lo..lo + counts[i]]);
  }

  /** The percent mean of a group: None when empty, the percent of the
      element when it has exactly one. */
  lemma MeanPercentOf(g: seq<Probs>)
    ensures MeanPercent(g) == (if |g| == 0 then None else Some(ToPercent(Mean(g).value)))
    ensures |g| == 1 ==> MeanPercent(g) == Some(ToPercent(g[0]))
  {
    if |g| == 1 {
      assert g == [g[0]];
      MeanSingle(g[0]);
    }
  }

  lemma GroupAnswersAt(answers: seq<Probs>, ends: seq<int>, i: nat)
    requires i < |ends|
    ensures GroupAnswers(answers, ends)[i] == MeanPercent(Groups(answers, ends)[i])
  {

  }
}
