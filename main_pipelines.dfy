// The command-line pipelines of the research copy: `extract_q`, the
// title deduplication of `gathering`, and the result assembly of the
// abstractive, extractive and boolean-only pipelines.

module MainPipelines {
  import opened PyLib
  import opened Aggregation
  import opened ApiSampler
  import opened UtilsSampler
  import opened ApiScienceQA
  import opened Modeling

  // ------------------------------------------------------------------
  // extract_q: r'\w+ ([\w].*) (?:increase|cause|prevent|cure) ([\w].*)\?'

  /** `\w` on ASCII text: letters, digits and the underscore. */
  predicate IsWordChar(c: char)
  {
    ('a' <= c <= 'z') || ('A' <= c <= 'Z') || ('0' <= c <= '9') || c == '_'
  }

  /** The relation words of the pattern, in the order of its alternation. */
  const Relations: seq<string> := ["increase", "cause", "prevent", "cure"]

  /** A relation word with the spaces around it, as the pattern requires. */
  function Pad(rel: string): string
  {
    " " + rel + " "
  }

  /** The end of the run of word characters starting at p. */
  function RunEnd(q: string, p: nat): (e: nat)
    requires p <= |q|
    ensures p <= e <= |q|
    ensures e < |q| ==> !IsWordChar(q[e])
    decreases |q| - p
  {
    if p == |q| || !IsWordChar(q[p]) then p else RunEnd(q, p + 1)
  }

  /** The run holds word characters only. */
  lemma {:induction false} RunEndSpec(q: string, p: nat)
    requires p <= |q|
    ensures forall k :: p <= k < RunEnd(q, p) ==> IsWordChar(q[k])
    decreases |q| - p
  {
    if p < |q| && IsWordChar(q[p]) {
      RunEndSpec(q, p + 1);
    }
  }

  /** The end of the line from p: `.` matches anything but a newline. */
  function LineEnd(q: string, p: nat): (e: nat)
    requires p <= |q|
    ensures p <= e <= |q|
    ensures e < |q| ==> q[e] == '\n'
    decreases |q| - p
  {
    if p == |q| || q[p] == '\n' then p else LineEnd(q, p + 1)
  }

  /** The line holds no newline. */
  lemma {:induction false} LineEndSpec(q: string, p: nat)
    requires p <= |q|
    ensures forall k :: p <= k < LineEnd(q, p) ==> q[k] != '\n'
    decreases |q| - p
  {
    if p < |q| && q[p] != '\n' {
      LineEndSpec(q, p + 1);
    }
  }

  /** The first alternative of the relation group that matches at i. */
  function RelationAt(q: string, i: nat, rs: seq<string>): (r: Option<string>)
  {
    if |rs| == 0 then None
    else if OccursAt(q, Pad(rs[0]), i) then Some(rs[0])
    else RelationAt(q, i, rs[1..])
  }

  /** The alternative found is one of the words, padded, at i. */
  lemma {:induction false} RelationAtSome(q: string, i: nat, rs: seq<string>)
    ensures RelationAt(q, i, rs).Some? ==>
      RelationAt(q, i, rs).value in rs && OccursAt(q, Pad(RelationAt(q, i, rs).value), i)
  {
    if |rs| > 0 && !OccursAt(q, Pad(rs[0]), i) {
      RelationAtSome(q, i, rs[1..]);
    }
  }

  /** No alternative matches at i exactly when none of the relation words,
      padded, occurs there. */
  lemma {:induction false} RelationAtNone(q: string, i: nat, rs: seq<string>)
    ensures RelationAt(q, i, rs).None? <==> forall k :: 0 <= k < |rs| ==> !OccursAt(q, Pad(rs[k]), i)
  {
    if |rs| > 0 {
      RelationAtNone(q, i, rs[1..]);
      assert forall k :: 1 <= k < |rs| ==> rs[k] == rs[1..][k - 1];
    }
  }

  /** The last '?' strictly after lo and before hi: a greedy `.*` followed
      by `\?`. */
  function LastMark(q: string, lo: nat, hi: nat): (r: Option<nat>)
    requires hi <= |q|
    ensures r.Some? ==> lo < r.value < hi && q[r.value] == '?'
    decreases hi
  {
    if hi <= lo + 1 then None
    else if q[hi - 1] == '?' then Some(hi - 1)
    else LastMark(q, lo, hi - 1)
  }

  /** The mark found is the last one, and none is found exactly when there
      is none. */
  lemma {:induction false} LastMarkSpec(q: string, lo: nat, hi: nat)
    requires hi <= |q|
    ensures LastMark(q, lo, hi).Some? ==> forall k :: LastMark(q, lo, hi).value < k < hi ==> q[k] != '?'
    ensures LastMark(q, lo, hi).None? <==> forall k :: lo < k < hi ==> q[k] != '?'
    decreases hi
  {
    if hi > lo + 1 && q[hi - 1] != '?' {
      LastMarkSpec(q, lo, hi - 1);
    }
  }

  /** The two groups and what separates them, read at position at. */
  ghost predicate Parses(q: string, at: nat, a: string, b: string)
  {
    |a| > 0 && |b| > 0 && IsWordChar(a[0]) && IsWordChar(b[0])
    && exists rel :: rel in Relations && OccursAt(q, a + Pad(rel) + b + "?", at)
  }

  /** The rest of the match once the first group ends at i. */
  function Attempt(q: string, g1: nat, i: nat): (r: Option<(string, string)>)
    requires g1 < i <= |q| && IsWordChar(q[g1])
  {
    AttemptWith(q, g1, i, RelationAt(q, i, Relations))
  }

  /** The rest of the match, given the relation word found at i, if any. */
  function AttemptWith(q: string, g1: nat, i: nat, found: Option<string>): (r: Option<(string, string)>)
    requires g1 < i <= |q|
  {
    match found
    case None => None
    case Some(rel) =>
      var g2 := i + |rel| + 2;
      if g2 < |q| && IsWordChar(q[g2]) then
        match LastMark(q, g2, LineEnd(q, g2))
        case None => None
        case Some(j) => Some((q[g1..i], q[g2..j]))
      else None
  }

  lemma AttemptParses(q: string, g1: nat, i: nat, rel: string, j: nat)
    requires g1 < i && rel in Relations && OccursAt(q, Pad(rel), i)
    requires i + |rel| + 2 < j < |q| && q[j] == '?'
    requires IsWordChar(q[g1]) && IsWordChar(q[i + |rel| + 2])
    ensures Parses(q, g1, q[g1..i], q[i + |rel| + 2..j])
  {
    var g2 := i + |rel| + 2;
    var a, b := q[g1..i], q[g2..j];
    assert q[i..g2] == Pad(rel);
    SliceGlue(q, g1, i, g2, j);
    assert [q[j]] == "?";
    assert a + Pad(rel) + b + "?" == q[g1..j] + [q[j]];
    SliceSnoc(q, g1, j);
    assert OccursAt(q, a + Pad(rel) + b + "?", g1);
  }

  /** The greedy first group: its longest end is tried first. */
  function SplitFrom(q: string, g1: nat, i: nat): (r: Option<(string, string)>)
    requires g1 < |q| && i <= |q| && IsWordChar(q[g1])
    decreases i
  {
    if i <= g1 then None
    else
      match Attempt(q, g1, i)
      case Some(r) => Some(r)
      case None => SplitFrom(q, g1, i - 1)
  }

  /** A match starting at p: a word, a space, then the two groups. */
  function MatchAt(q: string, p: nat): (r: Option<(string, string)>)
    requires p <= |q|
  {
    if p == |q| || !IsWordChar(q[p]) then None
    else
      var e := RunEnd(q, p);
      if e + 1 < |q| && q[e] == ' ' && IsWordChar(q[e + 1]) then SplitFrom(q, e + 1, LineEnd(q, e + 1))
      else None
  }

  /** `findall(...)[0]`: the leftmost match. */
  function FirstMatch(q: string, p: nat): (r: Option<(string, string)>)
    requires p <= |q|
    decreases |q| - p
  {
    if p == |q| then None
    else
      match MatchAt(q, p)
      case Some(r) => Some(r)
      case None => FirstMatch(q, p + 1)
  }

  /** `extract_q`: the two terms of the question, or the IndexError of
      `findall(...)[0]` on a question the pattern does not match. */
  function ExtractQ(question: string): (r: Result<(string, string)>)
  {
    match FirstMatch(question, 0)
    case None => Err("IndexError: list index out of range")
    case Some(r) => Ok(r)
  }

  /** Whatever `extract_q` returns is read off the question: the first
      term, a relation word between spaces, the second term and a '?'. */
  lemma ExtractQSound(question: string)
    ensures ExtractQ(question).Ok? ==>
      exists at :: 0 < at <= |question| && Parses(question, at, ExtractQ(question).value.0, ExtractQ(question).value.1)
  {
    FirstMatchSound(question, 0);
  }

  lemma AttemptSound(q: string, g1: nat, i: nat)
    requires g1 < i <= |q| && IsWordChar(q[g1])
    ensures Attempt(q, g1, i).Some? ==> Parses(q, g1, Attempt(q, g1, i).value.0, Attempt(q, g1, i).value.1)
  {
    var found := RelationAt(q, i, Relations);
    RelationAtSome(q, i, Relations);
    assert Attempt(q, g1, i) == AttemptWith(q, g1, i, found);
    if found.Some? {
      AttemptWithSound(q, g1, i, found.value);
    } else {
      assert Attempt(q, g1, i) == None;
    }
  }

  /** An attempt at a padded relation that succeeds parses the question. */
  lemma AttemptWithSound(q: string, g1: nat, i: nat, rel: string)
    requires g1 < i <= |q| && IsWordChar(q[g1])
    requires rel in Relations && OccursAt(q, Pad(rel), i)
    ensures AttemptWith(q, g1, i, Some(rel)).Some? ==>
      Parses(q, g1, AttemptWith(q, g1, i, Some(rel)).value.0, AttemptWith(q, g1, i, Some(rel)).value.1)
  {
    var g2 := i + |rel| + 2;
    if g2 < |q| && IsWordChar(q[g2]) {
      var mark := LastMark(q, g2, LineEnd(q, g2));
      if mark.Some? {
        AttemptWithMark(q, g1, i, rel, mark.value);
        AttemptParses(q, g1, i, rel, mark.value);
      } else {
        assert AttemptWith(q, g1, i, Some(rel)) == None;
      }
    } else {
      assert AttemptWith(q, g1, i, Some(rel)) == None;
    }
  }

  /** With a word character after the relation and a last `?` on the line,
      the attempt captures the text on either side of the relation. */
  lemma AttemptWithMark(q: string, g1: nat, i: nat, rel: string, j: nat)
    requires g1 < i <= |q|
    requires i + |rel| + 2 < |q| && IsWordChar(q[i + |rel| + 2])
    requires LastMark(q, i + |rel| + 2, LineEnd(q, i + |rel| + 2)) == Some(j)
    ensures AttemptWith(q, g1, i, Some(rel)) == Some((q[g1..i], q[i + |rel| + 2..j]))
  {
  }

  lemma {:induction false} SplitFromSound(q: string, g1: nat, i: nat)
    requires g1 < |q| && i <= |q| && IsWordChar(q[g1])
    ensures SplitFrom(q, g1, i).Some? ==> Parses(q, g1, SplitFrom(q, g1, i).value.0, SplitFrom(q, g1, i).value.1)
    decreases i
  {
    if i > g1 {
      AttemptSound(q, g1, i);
      if Attempt(q, g1, i).None? {
        SplitFromSound(q, g1, i - 1);
      }
    }
  }

  lemma MatchAtSound(q: string, p: nat)
    requires p <= |q|
    ensures MatchAt(q, p).Some? ==> Parses(q, RunEnd(q, p) + 1, MatchAt(q, p).value.0, MatchAt(q, p).value.1)
  {
    if p < |q| && IsWordChar(q[p]) {
      var e := RunEnd(q, p);
      if e + 1 < |q| && q[e] == ' ' && IsWordChar(q[e + 1]) {
        SplitFromSound(q, e + 1, LineEnd(q, e + 1));
      }
    }
  }

  lemma {:induction false} FirstMatchSound(q: string, p: nat)
    requires p <= |q|
    ensures FirstMatch(q, p).Some? ==>
      exists at :: p < at <= |q| && Parses(q, at, FirstMatch(q, p).value.0, FirstMatch(q, p).value.1)
    decreases |q| - p
  {
    if p < |q| {
      MatchAtSound(q, p);
      if MatchAt(q, p).None? {
        FirstMatchSound(q, p + 1);
      } else {
        assert p < RunEnd(q, p) + 1;
      }
    }
  }

  /** No relation word surrounded by spaces occurs in s. */
  ghost predicate NoRelationIn(s: string)
  {
    forall r, k :: 0 <= r < |Relations| && 0 <= k ==> !OccursAt(s, Pad(Relations[r]), k)
  }

  lemma RelationsPlain()
    ensures forall r :: 0 <= r < |Relations| ==> ' ' !in Relations[r] && '\n' !in Relations[r] && '?' !in Relations[r]
  {
  }

  /** A padded relation word at i: spaces at both ends and none between. */
  lemma PadSpaces(q: string, i: nat, r: string)
    requires ' ' !in r && OccursAt(q, Pad(r), i)
    ensures q[i + |r| + 1] == ' '
    ensures forall k :: i < k < i + |r| + 1 ==> q[k] != ' '
  {
    assert q[i + |r| + 1] == Pad(r)[|r| + 1];
    forall k | i < k < i + |r| + 1 ensures q[k] != ' ' {
      assert q[k] == Pad(r)[k - i] == r[k - i - 1];
      assert r[k - i - 1] in r;
    }
  }

  /** Two relation words cannot both match at the same place. */
  lemma PadUnique(q: string, i: nat, r1: string, r2: string)
    requires ' ' !in r1 && ' ' !in r2
    requires OccursAt(q, Pad(r1), i) && OccursAt(q, Pad(r2), i)
    ensures r1 == r2
  {
    PadSpaces(q, i, r1);
    PadSpaces(q, i, r2);
    assert |r1| == |r2|;
    forall k | 0 <= k < |r1| ensures r1[k] == r2[k] {
      assert Pad(r1)[k + 1] == q[i + k + 1] == Pad(r2)[k + 1];
    }
  }

  /** A word without spaces has no padded relation word after a leading space. */
  lemma NoSpaceNoRelation(w: string)
    requires ' ' !in w
    ensures NoRelationIn(" " + w)
  {
    var s := " " + w;
    forall r, k | 0 <= r < |Relations| && 0 <= k ensures !OccursAt(s, Pad(Relations[r]), k) {
      var p := Pad(Relations[r]);
      if k + |p| <= |s| {
        var t := k + |p| - 1;
        assert p[|p| - 1] == ' ';
        assert t >= 1;
        assert s[t] == w[t - 1];
        assert w[t - 1] in w;
        assert s[k..k + |p|][|p| - 1] == s[t];
      }
    }
  }

  /** Past the relation word of a question, no relation word is found. */
  lemma NoRelationAfter(q: string, i0: nat, rel: string, second: string, i: nat, r: nat)
    requires ' ' !in rel && r < |Relations| && ' ' !in Relations[r]
    requires i0 + |rel| + 1 <= |q|
    requires q[i0 + 1..] == rel + " " + second + "?"
    requires NoRelationIn(" " + second)
    requires i0 < i
    ensures !OccursAt(q, Pad(Relations[r]), i)
  {
    var p := Pad(Relations[r]);
    var b := i0 + |rel| + 1;
    assert p[0] == ' ' && p[|p| - 1] == ' ';
    if i < b {
      NoPadInRelation(q, i0, rel, second, i, p);
    } else {
      assert q[b..] == " " + second + "?" by {
        assert q[i0 + 1..][|rel|..] == " " + second + "?";
      }
      assert !OccursAt(" " + second, p, i - b);
      NoPadInTail(q, b, " " + second, i, p);
    }
  }

  /** A padded word does not start inside a relation without spaces. */
  lemma NoPadInRelation(q: string, i0: nat, rel: string, second: string, i: nat, p: string)
    requires ' ' !in rel && |p| > 0 && p[0] == ' '
    requires i0 + |rel| + 1 <= |q| && q[i0 + 1..] == rel + " " + second + "?"
    requires i0 < i < i0 + |rel| + 1
    ensures !OccursAt(q, p, i)
  {
    assert q[i] == rel[i - i0 - 1] by {
      assert q[i0 + 1..][i - i0 - 1] == q[i];
    }
    assert rel[i - i0 - 1] in rel;
    if i + |p| <= |q| {
      assert q[i..i + |p|][0] == q[i];
    }
  }

  /** A padded word that does not occur in `t` does not occur in `t + "?"`,
      whose last character is no space. */
  lemma NoPadInTail(q: string, b: nat, t: string, i: nat, p: string)
    requires |p| > 0 && p[|p| - 1] == ' '
    requires b <= i && b <= |q| && q[b..] == t + "?"
    requires !OccursAt(t, p, i - b)
    ensures !OccursAt(q, p, i)
  {
    if i + |p| <= |q| {
      var w := q[i..i + |p|];
      assert w[|p| - 1] == q[i + |p| - 1];
      if i + |p| == |q| {
        assert q[|q| - 1] == '?' by {
          assert q[b..][|q| - 1 - b] == '?';
        }
      } else {
        var k := i - b;
        assert k + |p| <= |t|;
        assert t[k..k + |p|] == w by {
          forall m | 0 <= m < |p| ensures t[k + m] == w[m] {
            assert q[b..][k + m] == q[i + m];
          }
        }
      }
    }
  }

  /** Skipping the ends of the first group at which nothing matches. */
  lemma SplitFromSkip(q: string, g1: nat, i: nat, i0: nat)
    requires g1 <= i0 <= i <= |q| && g1 < |q| && IsWordChar(q[g1])
    requires forall k :: i0 < k <= i ==> Attempt(q, g1, k).None?
    ensures SplitFrom(q, g1, i) == SplitFrom(q, g1, i0)
  {
    var j := i;
    while j > i0
      invariant i0 <= j <= i
      invariant SplitFrom(q, g1, j) == SplitFrom(q, g1, i)
    {
      SplitFromStep(q, g1, j);
      j := j - 1;
    }
  }

  /** An end at which nothing matches passes the search on to the next one. */
  lemma SplitFromStep(q: string, g1: nat, i: nat)
    requires g1 < i <= |q| && IsWordChar(q[g1])
    requires Attempt(q, g1, i).None?
    ensures SplitFrom(q, g1, i) == SplitFrom(q, g1, i - 1)
  {
  }

  /** The question `instanciate` asks, cut where the match needs it. */
  lemma QuestionShape(first: string, second: string, relation: string)
    ensures var q := Question(first, second, relation);
      var i0 := 5 + |first|;
      |q| == i0 + |relation| + |second| + 3
      && q[..5] == "Does " && q[5..i0] == first && q[i0..i0 + |relation| + 2] == Pad(relation)
      && q[i0 + 1..] == relation + " " + second + "?"
      && q[i0 + |relation| + 2..|q| - 1] == second && q[|q| - 1] == '?'
  {
    var q := Question(first, second, relation);
    assert q == "Does " + first + Pad(relation) + second + "?";
  }

  /** In a question whose second term holds no relation word, every end of
      the first group past the relation word fails. */
  lemma NoAttemptAfter(first: string, second: string, relation: string)
    requires relation in Relations && |first| > 0 && IsWordChar(first[0])
    requires NoRelationIn(" " + second)
    ensures var q := Question(first, second, relation);
      forall k :: 5 + |first| < k <= |q| ==> Attempt(q, 5, k).None?
  {
    var q := Question(first, second, relation);
    var i0 := 5 + |first|;
    QuestionShape(first, second, relation);
    RelationsPlain();
    assert q[5] == first[0];
    forall k | i0 < k <= |q| ensures Attempt(q, 5, k).None? {
      forall r | 0 <= r < |Relations| ensures !OccursAt(q, Pad(Relations[r]), k) {
        NoRelationAfter(q, i0, relation, second, k, r);
      }
      NoRelationNoAttempt(q, 5, k);
    }
  }

  /** Without a padded relation word at i, the first group cannot end at i. */
  lemma NoRelationNoAttempt(q: string, g1: nat, i: nat)
    requires g1 < i <= |q| && IsWordChar(q[g1])
    requires forall r :: 0 <= r < |Relations| ==> !OccursAt(q, Pad(Relations[r]), i)
    ensures Attempt(q, g1, i).None?
  {
    RelationAtNone(q, i, Relations);
    assert Attempt(q, g1, i) == AttemptWith(q, g1, i, None);
  }

  /** The first group ending right before the relation word matches. */
  lemma AttemptAtRelation(first: string, second: string, relation: string)
    requires relation in Relations
    requires |first| > 0 && IsWordChar(first[0])
    requires |second| > 0 && IsWordChar(second[0]) && '\n' !in second
    ensures Attempt(Question(first, second, relation), 5, 5 + |first|) == Some((first, second))
  {
    QuestionShape(first, second, relation);
    AttemptAtPad(Question(first, second, relation), 5 + |first|, first, second, relation);
  }

  /** The same, for any text holding the first term, the padded relation
      word and the second term followed by the final '?'. */
  lemma AttemptAtPad(q: string, i0: nat, first: string, second: string, relation: string)
    requires relation in Relations && i0 == 5 + |first|
    requires |first| > 0 && IsWordChar(first[0])
    requires |second| > 0 && IsWordChar(second[0]) && '\n' !in second
    requires |q| == i0 + |relation| + |second| + 3
    requires q[5..i0] == first && q[i0..i0 + |relation| + 2] == Pad(relation)
    requires q[i0 + |relation| + 2..|q| - 1] == second && q[|q| - 1] == '?'
    ensures Attempt(q, 5, i0) == Some((first, second))
  {
    var g2 := i0 + |relation| + 2;
    RelationsPlain();
    assert q[5] == first[0];
    assert OccursAt(q, Pad(relation), i0);
    RelationFound(q, i0, relation);
    assert q[g2] == second[0];
    LineEndOfSecond(q, g2, second);
    assert LastMark(q, g2, |q|) == Some(|q| - 1);
    AttemptWithFound(q, 5, i0, relation, |q| - 1);
    assert Attempt(q, 5, i0) == AttemptWith(q, 5, i0, Some(relation));
  }

  /** What the rest of the match is once the relation word and the last '?'
      of the line are known. */
  lemma AttemptWithFound(q: string, g1: nat, i: nat, rel: string, j: nat)
    requires g1 < i <= |q|
    requires i + |rel| + 2 < |q| && IsWordChar(q[i + |rel| + 2])
    requires LastMark(q, i + |rel| + 2, LineEnd(q, i + |rel| + 2)) == Some(j)
    ensures AttemptWith(q, g1, i, Some(rel)) == Some((q[g1..i], q[i + |rel| + 2..j]))
  {
  }

  /** A padded relation word at i is the alternative found there. */
  lemma RelationFound(q: string, i: nat, relation: string)
    requires relation in Relations && OccursAt(q, Pad(relation), i)
    ensures RelationAt(q, i, Relations) == Some(relation)
  {
    RelationAtNone(q, i, Relations);
    RelationAtSome(q, i, Relations);
    RelationsPlain();
    var found := RelationAt(q, i, Relations);
    PadUnique(q, i, found.value, relation);
  }

  /** The line of the second term runs to the end of the question. */
  lemma LineEndOfSecond(q: string, g2: nat, second: string)
    requires g2 < |q| && q[g2..|q| - 1] == second && '\n' !in second && q[|q| - 1] == '?'
    ensures LineEnd(q, g2) == |q|
  {
    forall k | g2 <= k < |q| - 1 ensures q[k] != '\n' {
      assert q[k] == q[g2..|q| - 1][k - g2];
      assert q[k] in second;
    }
  }

  /** The question's first run of word characters is "Does", and its first
      line is the whole question. */
  lemma QuestionLine(first: string, second: string, relation: string)
    requires relation in Relations
    requires |first| > 0 && '\n' !in first && '\n' !in second
    ensures var q := Question(first, second, relation);
      |q| > 5 && RunEnd(q, 0) == 4 && q[5] == first[0] && LineEnd(q, 5) == |q|
  {
    var q := Question(first, second, relation);
    QuestionShape(first, second, relation);
    assert q[..5] == "Does ";
    QuestionRunEnd(q);
    assert q[5] == q[5..5 + |first|][0];
    RelationsPlain();
    assert '\n' !in Pad(relation);
    QuestionNoNewline(q, first, second, relation);
  }

  /** A text starting with "Does " has "Does" as its first run of word
      characters. */
  lemma QuestionRunEnd(q: string)
    requires |q| > 5 && q[..5] == "Does "
    ensures RunEnd(q, 0) == 4
  {
    assert q[..5][0] == q[0] && q[..5][1] == q[1] && q[..5][2] == q[2];
    assert q[..5][3] == q[3] && q[..5][4] == q[4];
    RunEndSpec(q, 0);
  }

  /** A question built from terms without newlines is one line from its
      first term on. */
  lemma QuestionNoNewline(q: string, first: string, second: string, relation: string)
    requires q == Question(first, second, relation) && |q| > 5
    requires '\n' !in first && '\n' !in second && '\n' !in Pad(relation)
    ensures LineEnd(q, 5) == |q|
  {
    assert q == "Does " + first + Pad(relation) + second + "?";
    assert '\n' !in q;
    forall k | 5 <= k < |q| ensures q[k] != '\n' {
      assert q[k] in q;
    }
  }

  /** `extract_q` reads back the terms of the question `instanciate` asks:
      for first and second terms that start with a word character, stay on
      one line, and for a second term that holds no relation word. */
  lemma ExtractQuestionRoundTrip(first: string, second: string, relation: string)
    requires relation in Relations
    requires |first| > 0 && IsWordChar(first[0]) && '\n' !in first
    requires |second| > 0 && IsWordChar(second[0]) && '\n' !in second
    requires NoRelationIn(" " + second)
    ensures ExtractQ(Question(first, second, relation)) == Ok((first, second))
  {
    var q := Question(first, second, relation);
    QuestionShape(first, second, relation);
    QuestionLine(first, second, relation);
    NoAttemptAfter(first, second, relation);
    SplitFromSkip(q, 5, |q|, 5 + |first|);
    AttemptAtRelation(first, second, relation);
    assert MatchAt(q, 0) == Some((first, second));
  }

  /** The question of the script's demonstration run. */
  lemma ExtractQExample()
    ensures ExtractQ("Does sugar increase diabetes?") == Ok(("sugar", "diabetes"))
  {
    assert "Does sugar increase diabetes?" == Question("sugar", "diabetes", "increase");
    NoSpaceNoRelation("diabetes");
    ExtractQuestionRoundTrip("sugar", "diabetes", "increase");
  }

  /** A question in which no relation word stands between spaces raises. */
  lemma NoRelationNoMatch(q: string)
    requires forall i: nat, r :: 0 <= r < |Relations| ==> !OccursAt(q, Pad(Relations[r]), i)
    ensures ExtractQ(q).Err?
  {
    NoMatchFrom(q, 0);
  }

  lemma {:induction false} NoMatchFrom(q: string, p: nat)
    requires p <= |q|
    requires forall i: nat, r :: 0 <= r < |Relations| ==> !OccursAt(q, Pad(Relations[r]), i)
    ensures FirstMatch(q, p).None?
    decreases |q| - p
  {
    if p < |q| {
      if IsWordChar(q[p]) {
        var e := RunEnd(q, p);
        if e + 1 < |q| && q[e] == ' ' && IsWordChar(q[e + 1]) {
          var g1, hi := e + 1, LineEnd(q, e + 1);
          forall k | g1 < k <= hi ensures Attempt(q, g1, k).None? {
            NoRelationNoAttempt(q, g1, k);
          }
          SplitFromSkip(q, g1, hi, g1);
        }
      }
      NoMatchFrom(q, p + 1);
    }
  }

  // ------------------------------------------------------------------
  // gathering

  /** A search result with its position, which pandas keeps as the index
      label. */
  datatype Indexed = Indexed(pos: nat, article: RawArticle)

  function Enumerate(raws: seq<RawArticle>): (r: seq<Indexed>)
    ensures |r| == |raws|
    ensures forall i :: 0 <= i < |raws| ==> r[i] == Indexed(i, raws[i])
  {
    seq(|raws|, i requires 0 <= i < |raws| => Indexed(i, raws[i]))
  }

  function IndexedTitle(x: Indexed): string
  {
    x.article.title
  }

  /** `drop_duplicates(['title'])` without `reset_index`: the first article of
      every title, with its original position as label. */
  function Gathered(raws: seq<RawArticle>): seq<Indexed>
  {
    DedupBy(Enumerate(raws), IndexedTitle)
  }

  function GatheredArticles(question: string, kept: seq<Indexed>): (r: seq<Article>)
    ensures |r| == |kept|
    ensures forall i :: 0 <= i < |kept| ==> r[i] == AsArticle(ToRow(kept[i].article), question)
  {
    seq(|kept|, i requires 0 <= i < |kept| => AsArticle(ToRow(kept[i].article), question))
  }

  function GatheredLabels(kept: seq<Indexed>): (r: seq<int>)
    ensures |r| == |kept|
    ensures forall i :: 0 <= i < |kept| ==> r[i] == kept[i].pos
  {
    seq(|kept|, i requires 0 <= i < |kept| => kept[i].pos)
  }

  /** Every label is the position of its article among the search results,
      the labels increase, and with distinct titles nothing is dropped: the
      labels are 0, 1, ... again. */
  lemma GatheredSpec(raws: seq<RawArticle>)
    ensures var kept := Gathered(raws);
      forall i :: 0 <= i < |kept| ==> kept[i].pos < |raws| && raws[kept[i].pos] == kept[i].article
    ensures var kept := Gathered(raws);
      forall i, j :: 0 <= i < j < |kept| ==> kept[i].pos < kept[j].pos
    ensures (forall i, j :: 0 <= i < j < |raws| ==> raws[i].title != raws[j].title) ==>
      Gathered(raws) == Enumerate(raws)
  {
    var e := Enumerate(raws);
    var kept := Gathered(raws);
    DedupByFirst(e, IndexedTitle);
    forall i | 0 <= i < |kept| ensures kept[i].pos < |raws| && raws[kept[i].pos] == kept[i].article {
      assert kept[i] in kept;
      assert FirstWithKey(e, IndexedTitle, kept[i]);
    }
    DedupByOrder(e, IndexedTitle);
    var idx: seq<nat> :| IsSubseqAt(kept, e, idx) && FirstKeyPositions(e, IndexedTitle, idx);
    assert forall i :: 0 <= i < |kept| ==> kept[i].pos == idx[i];
    if forall i, j :: 0 <= i < j < |raws| ==> raws[i].title != raws[j].title {
      assert DistinctKeys(e, IndexedTitle) by {
        forall i, j | 0 <= i < j < |e| ensures IndexedTitle(e[i]) != IndexedTitle(e[j]) {
        }
      }
      DedupByOfDistinct(e, IndexedTitle);
    }
  }

  // ------------------------------------------------------------------
  // the three pipelines

  /** One readable result of a pipeline; the boolean-only pipeline has no
      response and a None answer where a mean over no windows is NaN. */
  datatype MainRecord = MainRecord(question: string, id: string, title: string, response: Option<string>, answer: Option<Percent>)

  /** The models of the pipelines, as functions: sentence splitting, the
      two tokenizers, the abstractive model's `generate` on one batch, the
      extractive model's argmax start and end per window, and the boolean
      classifier. */
  datatype MainModels = MainModels(
    sentTokenize: string -> seq<string>,
    encodeAbs: string -> seq<int>,
    decodeAbs: seq<int> -> string,
    generate: seq<seq<int>> -> seq<seq<int>>,
    encodeExt: string -> seq<int>,
    decodeExt: seq<int> -> string,
    extract: seq<seq<int>> -> seq<(int, int)>,
    classify: seq<string> -> seq<Probs>)

  /** Record i pairs article i's id and title with response i and answer i;
      fewer answers than articles raise an IndexError. */
  function Records(question: string, arts: seq<Article>, responses: seq<string>, answers: seq<Probs>): (r: Result<seq<MainRecord>>)
    requires |responses| == |arts|
    ensures r.Ok? <==> |answers| >= |arts|
    ensures r.Ok? ==> |r.value| == |arts|
    ensures r.Ok? ==> forall i :: 0 <= i < |arts| ==>
      r.value[i] == MainRecord(question, arts[i].id, arts[i].title, Some(responses[i]), Some(ToPercent(answers[i])))
  {
    if |answers| < |arts| then Err("IndexError: list index out of range")
    else Ok(seq(|arts|, i requires 0 <= i < |arts| =>
      MainRecord(question, arts[i].id, arts[i].title, Some(responses[i]), Some(ToPercent(answers[i])))))
  }

  /** The abstractive responses: `" ".join(decoded[start:end])`. */
  function AbstractiveResponses(decoded: seq<string>, ends: seq<int>): (r: seq<string>)
    ensures |r| == |ends|
  {
    var gs := Groups(decoded, ends);
    seq(|gs|, i requires 0 <= i < |gs| => Join(" ", gs[i]))
  }

  /** The extractive responses: the text after the last `</s>` of
      `" ".join(decoded[start:end])`. */
  function ExtractiveResponses(decoded: seq<string>, ends: seq<int>): (r: seq<string>)
    ensures |r| == |ends|
  {
    var gs := Groups(decoded, ends);
    seq(|gs|, i requires 0 <= i < |gs| => LastPiece(Join(" ", gs[i]), "</s>"))
  }

  /** With the cumulative window counts as `end_context`, response i joins
      exactly the generations of article i's own windows. */
  lemma AbstractiveResponsesSpec(decoded: seq<string>, counts: seq<nat>, i: nat)
    requires |decoded| == Sum(counts) && i < |counts|
    ensures Sum(counts[..i]) + counts[i] <= |decoded|
    ensures AbstractiveResponses(decoded, Cumsum(counts))[i]
         == Join(" ", decoded[Sum(counts[..i])..Sum(counts[..i]) + counts[i]])
  {
    GroupsOfCumsum(decoded, counts, i);
  }

  /** No extractive response contains `</s>`, and it is the last piece of
      article i's own spans joined by spaces. */
  lemma ExtractiveResponsesSpec(decoded: seq<string>, counts: seq<nat>, i: nat)
    requires |decoded| == Sum(counts) && i < |counts|
    ensures Sum(counts[..i]) + counts[i] <= |decoded|
    ensures var r := ExtractiveResponses(decoded, Cumsum(counts))[i];
      !IsSubstring("</s>", r)
      && r == LastPiece(Join(" ", decoded[Sum(counts[..i])..Sum(counts[..i]) + counts[i]]), "</s>")
  {
    GroupsOfCumsum(decoded, counts, i);
    var g := Groups(decoded, Cumsum(counts))[i];
    LastPieceHasNoSeparator(Join(" ", g), "</s>");
  }

  /** The batch size of the abstractive generation. */
  const BatchGenerateSize := 12

  /** `abstractive_pipeline` after gathering: generate on every window in
      batches of twelve (with the corrected `batch_generate`, which reaches
      the last window), classify the from_abs regrouping, and pair each
      article with its joined generations. */
  function AbstractivePipeline(s: Sampler, question: string, arts: seq<Article>, m: MainModels): (r: Result<seq<MainRecord>>)
    requires s.windowStride != 0
  {
    var p := UtilsPredictDataset(s, arts, m.sentTokenize);
    var decoded := Map(m.decodeAbs, GenerateAll(Map(m.encodeAbs, p.windows), BatchGenerateSize, m.generate));
    match UtilsFromAbs(question, decoded, p.endContext)
    case Err(e) => Err(e)
    case Ok(inputs) =>
      UtilsPredictDatasetLength(s, arts, m.sentTokenize);
      Records(question, arts, AbstractiveResponses(decoded, p.endContext), m.classify(inputs))
  }

  /** `extractive_pipeline` after gathering: the spans the extractive model
      selects in every window, classified through the from_ext regrouping. */
  function ExtractivePipeline(s: Sampler, question: string, arts: seq<Article>, m: MainModels): (r: Result<seq<MainRecord>>)
    requires s.windowStride != 0
  {
    var p := UtilsPredictDataset(s, arts, m.sentTokenize);
    var encoded := Map(m.encodeExt, p.windows);
    var decoded := Map(m.decodeExt, SelectSpans(encoded, m.extract(encoded)));
    match UtilsFromExt(question, decoded, p.endContext)
    case Err(e) => Err(e)
    case Ok(inputs) =>
      UtilsPredictDatasetLength(s, arts, m.sentTokenize);
      Records(question, arts, ExtractiveResponses(decoded, p.endContext), m.classify(inputs))
  }

  lemma UtilsPredictDatasetLength(s: Sampler, arts: seq<Article>, sentTokenize: string -> seq<string>)
    requires s.windowStride != 0
    ensures |UtilsPredictDataset(s, arts, sentTokenize).endContext| == |arts|
  {
  }

  /** The abstractive pipeline fails on an empty question or without
      articles; otherwise it returns one record per article exactly when the
      classifier answers every article. */
  lemma AbstractivePipelineSpec(s: Sampler, question: string, arts: seq<Article>, m: MainModels)
    requires s.windowStride != 0
    ensures |question| == 0 || |arts| == 0 ==> AbstractivePipeline(s, question, arts, m).Err?
    ensures AbstractivePipeline(s, question, arts, m).Ok? ==>
      |AbstractivePipeline(s, question, arts, m).value| == |arts|
  {
  }

  /** In the flat window list, article i's windows sit between the running
      window counts before and up to it. */
  lemma OwnWindows(s: Sampler, arts: seq<Article>, sentTokenize: string -> seq<string>, i: nat)
    requires s.windowStride != 0 && i < |arts|
    ensures var p := UtilsPredictDataset(s, arts, sentTokenize);
      var cs := ArticleContexts(s, arts, sentTokenize);
      var lo := Sum(Lengths(cs)[..i]);
      |p.windows| == Sum(Lengths(cs)) && p.endContext == Cumsum(Lengths(cs))
      && lo + |cs[i]| <= |p.windows|
      && p.windows[lo..lo + |cs[i]|] == UtilsToContext(s, arts[i].question, sentTokenize(arts[i].context))
  {
    var p := UtilsPredictDataset(s, arts, sentTokenize);
    var cs := ArticleContexts(s, arts, sentTokenize);
    FlattenLength(cs);
    FlattenAt(cs, i);
  }

  /** What a row-wise generator makes of each window on its own, decoded. */
  function Generations(ws: seq<string>, enc: string -> seq<int>, dec: seq<int> -> string, g: seq<int> -> seq<int>): (r: seq<string>)
    ensures |r| == |ws|
    ensures forall k :: 0 <= k < |ws| ==> r[k] == dec(g(enc(ws[k])))
  {
    seq(|ws|, k requires 0 <= k < |ws| => dec(g(enc(ws[k]))))
  }

  /** For a generator that treats every window on its own, record i of the
      abstractive pipeline carries article i's id and title and, as response,
      the generations of exactly article i's windows joined by spaces. */
  lemma AbstractivePipelineRecords(s: Sampler, question: string, arts: seq<Article>, m: MainModels, g: seq<int> -> seq<int>, i: nat)
    requires s.windowStride != 0 && RowWise(m.generate, g) && i < |arts|
    requires AbstractivePipeline(s, question, arts, m).Ok?
    ensures var ws := UtilsToContext(s, arts[i].question, m.sentTokenize(arts[i].context));
      var r := AbstractivePipeline(s, question, arts, m).value[i];
      r.question == question && r.id == arts[i].id && r.title == arts[i].title
      && r.response == Some(Join(" ", Generations(ws, m.encodeAbs, m.decodeAbs, g)))
  {
    var p := UtilsPredictDataset(s, arts, m.sentTokenize);
    AbstractiveRecordAt(s, question, arts, m, i);
    DecodedGenerations(p.windows, m.encodeAbs, m.decodeAbs, m.generate, g);
    AbstractiveResponseOfArticle(s, arts, m.sentTokenize, m.encodeAbs, m.decodeAbs, g, i);
  }

  /** With a row-wise generator, the decoded batched generations of the
      windows are those of each window on its own. */
  lemma DecodedGenerations(windows: seq<string>, enc: string -> seq<int>, dec: seq<int> -> string,
                           gen: seq<seq<int>> -> seq<seq<int>>, g: seq<int> -> seq<int>)
    requires RowWise(gen, g)
    ensures Map(dec, GenerateAll(Map(enc, windows), BatchGenerateSize, gen)) == Generations(windows, enc, dec, g)
  {
    GenerateAllSpec(Map(enc, windows), BatchGenerateSize, gen, g);
  }

  /** Abstractive response i over the per-window generations joins the
      generations of exactly article i's own windows. */
  lemma AbstractiveResponseOfArticle(s: Sampler, arts: seq<Article>, sentTokenize: string -> seq<string>,
                                     enc: string -> seq<int>, dec: seq<int> -> string, g: seq<int> -> seq<int>, i: nat)
    requires s.windowStride != 0 && i < |arts|
    ensures var p := UtilsPredictDataset(s, arts, sentTokenize);
      var ws := UtilsToContext(s, arts[i].question, sentTokenize(arts[i].context));
      |p.endContext| == |arts|
      && AbstractiveResponses(Generations(p.windows, enc, dec, g), p.endContext)[i] == Join(" ", Generations(ws, enc, dec, g))
  {
    var p := UtilsPredictDataset(s, arts, sentTokenize);
    var cs := ArticleContexts(s, arts, sentTokenize);
    var ws := UtilsToContext(s, arts[i].question, sentTokenize(arts[i].context));
    var lo := Sum(Lengths(cs)[..i]);
    OwnWindows(s, arts, sentTokenize, i);
    assert cs[i] == ws;
    var decoded := Generations(p.windows, enc, dec, g);
    var own := Generations(ws, enc, dec, g);
    assert decoded[lo..lo + |ws|] == own by {
      GenerationsSlice(p.windows, ws, lo, enc, dec, g);
    }
    ResponseOfOwn(decoded, p.endContext, Lengths(cs), i, lo, own);
  }

  /** The generations of a stretch of windows are that stretch of the
      generations. */
  lemma GenerationsSlice(windows: seq<string>, ws: seq<string>, lo: nat, enc: string -> seq<int>, dec: seq<int> -> string, g: seq<int> -> seq<int>)
    requires lo + |ws| <= |windows| && windows[lo..lo + |ws|] == ws
    ensures Generations(windows, enc, dec, g)[lo..lo + |ws|] == Generations(ws, enc, dec, g)
  {
    forall k | 0 <= k < |ws|
      ensures Generations(windows, enc, dec, g)[lo + k] == Generations(ws, enc, dec, g)[k]
    {
      assert windows[lo + k] == ws[k];
    }
  }

  /** The abstractive response of article i joins the stretch of article i's
      generations. */
  lemma ResponseOfOwn(decoded: seq<string>, ends: seq<int>, counts: seq<nat>, i: nat, lo: nat, own: seq<string>)
    requires i < |counts| && |decoded| == Sum(counts) && ends == Cumsum(counts)
    requires lo == Sum(counts[..i]) && |own| == counts[i] && lo + |own| <= |decoded| && decoded[lo..lo + |own|] == own
    ensures AbstractiveResponses(decoded, ends)[i] == Join(" ", own)
  {
    AbstractiveResponsesSpec(decoded, counts, i);
    assert decoded[Sum(counts[..i])..Sum(counts[..i]) + counts[i]] == own;
  }

  /** Record i of the abstractive pipeline: article i's fields and response
      i of the joined generations. */
  lemma AbstractiveRecordAt(s: Sampler, question: string, arts: seq<Article>, m: MainModels, i: nat)
    requires s.windowStride != 0 && i < |arts|
    requires AbstractivePipeline(s, question, arts, m).Ok?
    ensures var p := UtilsPredictDataset(s, arts, m.sentTokenize);
      var decoded := Map(m.decodeAbs, GenerateAll(Map(m.encodeAbs, p.windows), BatchGenerateSize, m.generate));
      var r := AbstractivePipeline(s, question, arts, m).value[i];
      |p.endContext| == |arts|
      && r.question == question && r.id == arts[i].id && r.title == arts[i].title
      && r.response == Some(AbstractiveResponses(decoded, p.endContext)[i])
  {
    UtilsPredictDatasetLength(s, arts, m.sentTokenize);
  }

  /** Record i of the extractive pipeline carries article i's id and title
      and a response without `</s>`. */
  lemma ExtractivePipelineRecords(s: Sampler, question: string, arts: seq<Article>, m: MainModels, i: nat)
    requires s.windowStride != 0 && i < |arts|
    requires ExtractivePipeline(s, question, arts, m).Ok?
    ensures var r := ExtractivePipeline(s, question, arts, m).value[i];
      r.question == question && r.id == arts[i].id && r.title == arts[i].title
      && r.response.Some? && !IsSubstring("</s>", r.response.value)
  {
    var p := UtilsPredictDataset(s, arts, m.sentTokenize);
    var encoded := Map(m.encodeExt, p.windows);
    var decoded := Map(m.decodeExt, SelectSpans(encoded, m.extract(encoded)));
    UtilsPredictDatasetLength(s, arts, m.sentTokenize);
    LastPieceHasNoSeparator(Join(" ", Groups(decoded, p.endContext)[i]), "</s>");
  }

  /** When the extractive model gives a span for every window, the response
      of record i is the last piece of article i's own decoded spans joined
      by spaces. */
  lemma ExtractivePipelineResponse(s: Sampler, question: string, arts: seq<Article>, m: MainModels, i: nat)
    requires s.windowStride != 0 && i < |arts|
    requires ExtractivePipeline(s, question, arts, m).Ok?
    requires var p := UtilsPredictDataset(s, arts, m.sentTokenize);
      |m.extract(Map(m.encodeExt, p.windows))| >= |p.windows|
    ensures var p := UtilsPredictDataset(s, arts, m.sentTokenize);
      var encoded := Map(m.encodeExt, p.windows);
      var decoded := Map(m.decodeExt, SelectSpans(encoded, m.extract(encoded)));
      var lo := if i == 0 then 0 else p.endContext[i - 1];
      |p.endContext| == |arts| && lo <= p.endContext[i] <= |decoded|
      && ExtractivePipeline(s, question, arts, m).value[i].response
         == Some(LastPiece(Join(" ", decoded[lo..p.endContext[i]]), "</s>"))
  {
    UtilsPredictDatasetLength(s, arts, m.sentTokenize);
    ExtractiveResponseOfArticle(s, arts, m, i);
  }

  /** Extractive response i, before classification, is the last piece of
      the decoded spans between the running window counts before and up to
      article i. */
  lemma ExtractiveResponseOfArticle(s: Sampler, arts: seq<Article>, m: MainModels, i: nat)
    requires s.windowStride != 0 && i < |arts|
    requires var p := UtilsPredictDataset(s, arts, m.sentTokenize);
      |m.extract(Map(m.encodeExt, p.windows))| >= |p.windows|
    ensures var p := UtilsPredictDataset(s, arts, m.sentTokenize);
      var encoded := Map(m.encodeExt, p.windows);
      var decoded := Map(m.decodeExt, SelectSpans(encoded, m.extract(encoded)));
      var lo := if i == 0 then 0 else p.endContext[i - 1];
      |p.endContext| == |arts| && lo <= p.endContext[i] <= |decoded|
      && ExtractiveResponses(decoded, p.endContext)[i] == LastPiece(Join(" ", decoded[lo..p.endContext[i]]), "</s>")
  {
    var p := UtilsPredictDataset(s, arts, m.sentTokenize);
    var encoded := Map(m.encodeExt, p.windows);
    var decoded := Map(m.decodeExt, SelectSpans(encoded, m.extract(encoded)));
    var cs := ArticleContexts(s, arts, m.sentTokenize);
    OwnWindows(s, arts, m.sentTokenize, i);
    ExtractiveResponsesSpec(decoded, Lengths(cs), i);
    CumsumAt(Lengths(cs), i);
    if i > 0 {
      CumsumAt(Lengths(cs), i - 1);
      SumPrefixStep(Lengths(cs), i - 1);
    }
  }

  /** For the boolean-only pipeline, the records as the source writes them:
      `articles.id[i]` and `articles.title[i]` by index label i. */
  function BooleanRecordsAsWritten(question: string, arts: seq<Article>, labels: seq<int>, answers: seq<Option<Percent>>, i: nat): (r: Result<seq<MainRecord>>)
    requires |answers| == |arts| && |labels| == |arts| && i <= |arts|
    ensures r.Ok? <==> forall k :: i <= k < |arts| ==> k in labels
    decreases |arts| - i
  {
    if i == |arts| then Ok([])
    else
      match LabelLookup(labels, arts, i)
      case None => Err("KeyError")
      case Some(a) =>
        match BooleanRecordsAsWritten(question, arts, labels, answers, i + 1)
        case Err(e) => Err(e)
        case Ok(rest) => Ok([MainRecord(question, a.id, a.title, None, answers[i])] + rest)
  }

  /** The boolean-only records read by position. */
  function BooleanRecords(question: string, arts: seq<Article>, answers: seq<Option<Percent>>): (r: seq<MainRecord>)
    requires |answers| == |arts|
    ensures |r| == |arts|
    ensures forall i :: 0 <= i < |arts| ==> r[i] == MainRecord(question, arts[i].id, arts[i].title, None, answers[i])
  {
    seq(|arts|, i requires 0 <= i < |arts| => MainRecord(question, arts[i].id, arts[i].title, None, answers[i]))
  }

  /** Two search results with the same title, then a third: the label of
      the dropped duplicate is missing and the as-written records raise. */
  lemma DuplicateTitleFails(question: string, a: RawArticle, b: RawArticle, c: RawArticle, answers: seq<Option<Percent>>)
    requires a.title == b.title && c.title != a.title && |answers| == 2
    ensures var kept := Gathered([a, b, c]);
      |kept| == 2
      && BooleanRecordsAsWritten(question, GatheredArticles(question, kept), GatheredLabels(kept), answers, 0).Err?
  {
    var e := Enumerate([a, b, c]);
    assert e[..2][..1] == [Indexed(0, a)];
    assert DedupBy(e[..1], IndexedTitle) == [Indexed(0, a)];
    assert e[..2] == [Indexed(0, a), Indexed(1, b)];
    assert KeysOf([Indexed(0, a)], IndexedTitle) == {a.title};
    assert DedupBy(e[..2], IndexedTitle) == [Indexed(0, a)];
    assert e[..3] == e;
    assert DedupBy(e, IndexedTitle) == [Indexed(0, a), Indexed(2, c)];
    var labels := GatheredLabels(Gathered([a, b, c]));
    assert labels == [0, 2];
    assert 1 !in labels;
  }

  /** `boolean_pipeline` after gathering, reading the records by position:
      the mean answer of every article's own windows. */
  function BooleanPipeline(s: Sampler, question: string, arts: seq<Article>, m: MainModels): (r: seq<MainRecord>)
    requires s.windowStride != 0
    ensures |r| == |arts|
  {
    var p := UtilsPredictDataset(s, arts, m.sentTokenize);
    UtilsPredictDatasetLength(s, arts, m.sentTokenize);
    BooleanRecords(question, arts, GroupAnswers(m.classify(p.windows), p.endContext))
  }

  /** When the classifier answers every window, article i of the boolean
      pipeline gets the mean answer of exactly its own windows, and its
      own id and title. */
  lemma BooleanPipelineSpec(s: Sampler, question: string, arts: seq<Article>, m: MainModels, i: nat)
    requires s.windowStride != 0 && i < |arts|
    requires |m.classify(UtilsPredictDataset(s, arts, m.sentTokenize).windows)| == |UtilsPredictDataset(s, arts, m.sentTokenize).windows|
    ensures var p := UtilsPredictDataset(s, arts, m.sentTokenize);
      var g := Groups(p.windows, p.endContext)[i];
      var answers := m.classify(p.windows);
      var r := BooleanPipeline(s, question, arts, m)[i];
      r.id == arts[i].id && r.title == arts[i].title
      && r.answer == MeanPercent(Groups(answers, p.endContext)[i])
      && |Groups(answers, p.endContext)[i]| == |g|
  {
    var p := UtilsPredictDataset(s, arts, m.sentTokenize);
    var answers := m.classify(p.windows);
    var cs := ArticleContexts(s, arts, m.sentTokenize);
    assert p.windows == Flatten(cs) && p.endContext == Cumsum(Lengths(cs));
    FlattenLength(cs);
    GroupsOfCumsum(answers, Lengths(cs), i);
    GroupsOfCumsum(p.windows, Lengths(cs), i);
    GroupAnswersAt(answers, p.endContext, i);
  }
}
