/** The Python and JavaScript built-ins that the pipeline relies on, each
    stated once: `range`, slicing with Python's index rules, substring search,
    `str.join`, `str.split`, `re.sub` of a run of one character, and
    order-preserving deduplication (`drop_duplicates`, `[...new Set(xs)]`). */
module PyLib {

  datatype Option<T> = None | Some(value: T)

  /** An operation that either returns a value or raises with a message. */
  datatype Result<T> = Ok(value: T) | Err(message: string)

  // ------------------------------------------------------------------
  // range

  /** ceil(n / d) for a positive divisor. */
  function CeilDiv(n: nat, d: nat): nat
    requires d > 0
  {
    (n + d - 1) / d
  }

  lemma CeilDivBounds(n: nat, d: nat)
    requires d > 0
    ensures CeilDiv(n, d) * d >= n
    ensures n > 0 ==> CeilDiv(n, d) >= 1 && (CeilDiv(n, d) - 1) * d < n
  {
    var q, r := (n + d - 1) / d, (n + d - 1) % d;
    assert n + d - 1 == q * d + r;
    assert (q - 1) * d == q * d - d;
  }

  /** Euclidean division is determined by quotient and remainder. */
  lemma DivUnique(x: int, d: int, q: int, s: int)
    requires d > 0 && 0 <= s < d && x == q * d + s
    ensures x / d == q
  {
    var t := x / d - q;
    assert t * d == s - x % d by {
      assert t * d == (x / d) * d - q * d;
    }
  }

  /** d * ceil(m / d) is m itself when d divides m, and exceeds m otherwise. */
  lemma CeilDivMultiple(m: nat, d: nat)
    requires d > 0
    ensures m % d == 0 ==> d * CeilDiv(m, d) == m
    ensures m % d != 0 ==> d * CeilDiv(m, d) == d * (m / d) + d && d * CeilDiv(m, d) > m
  {
    var q, r := m / d, m % d;
    assert m == q * d + r;
    if r == 0 {
      CeilDivExact(m, d, q);
    } else {
      CeilDivInexact(m, d, q, r);
    }
  }

  lemma CeilDivExact(m: nat, d: nat, q: nat)
    requires d > 0 && m == q * d
    ensures d * CeilDiv(m, d) == m
  {
    DivUnique(m + d - 1, d, q, d - 1);
    assert d * q == q * d;
  }

  lemma CeilDivInexact(m: nat, d: nat, q: nat, r: nat)
    requires 0 < r < d && m == q * d + r
    ensures d * CeilDiv(m, d) == d * q + d && d * q + d > m
  {
    assert m + d - 1 == (q + 1) * d + (r - 1);
    DivUnique(m + d - 1, d, q + 1, r - 1);
    assert d * (q + 1) == d * q + d;
    assert d * q == q * d;
  }

  /** `list(range(start, stop, step))`, iterated the way Python does: from
      `start`, adding `step` while the bound is not reached. Python raises
      ValueError for a zero step. */
  function Range(start: int, stop: int, step: int): (r: seq<int>)
    requires step != 0
    ensures forall k :: 0 <= k < |r| ==> r[k] == start + k * step
    ensures step > 0 ==> (forall k :: 0 <= k < |r| ==> r[k] < stop) && start + |r| * step >= stop
    ensures step < 0 ==> (forall k :: 0 <= k < |r| ==> r[k] > stop) && start + |r| * step <= stop
    decreases if step > 0 then stop - start else start - stop
  {
    if (step > 0 && start < stop) || (step < 0 && start > stop) then
      var rest := Range(start + step, stop, step);
      RangeStep(start, stop, step, rest);
      [start] + rest
    else
      []
  }

  lemma RangeStep(start: int, stop: int, step: int, rest: seq<int>)
    requires step != 0
    requires forall k :: 0 <= k < |rest| ==> rest[k] == start + step + k * step
    requires step > 0 ==> start + step + |rest| * step >= stop
    requires step < 0 ==> start + step + |rest| * step <= stop
    ensures forall k :: 0 <= k < |[start] + rest| ==> ([start] + rest)[k] == start + k * step
    ensures step > 0 ==> start + |[start] + rest| * step >= stop
    ensures step < 0 ==> start + |[start] + rest| * step <= stop
  {
    var r := [start] + rest;
    forall k | 0 <= k < |r| ensures r[k] == start + k * step {
      if k > 0 {
        assert r[k] == rest[k - 1];
        assert (k - 1) * step + step == k * step;
      }
    }
    assert |r| * step == |rest| * step + step;
  }

  /** With a positive step, `len(range(start, stop, step))` is
      ceil((stop - start) / step), and 0 when the range is empty. */
  lemma {:induction false} RangeLength(start: int, stop: int, step: int)
    requires step > 0
    ensures |Range(start, stop, step)| == if stop <= start then 0 else CeilDiv(stop - start, step)
  {
    var r := Range(start, stop, step);
    if stop > start {
      var n := stop - start;
      CeilDivBounds(n, step);
      var c := CeilDiv(n, step);
      assert |r| >= 1;
      var last := r[|r| - 1];
      assert last == start + (|r| - 1) * step && last < stop;
      assert (|r| - 1) * step < n && |r| * step >= n;
      if |r| < c {
        MulMonotone(|r|, c - 1, step);
        assert false;
      } else if |r| > c {
        MulMonotone(c, |r| - 1, step);
        assert false;
      }
    }
  }

  lemma MulMonotone(a: int, b: int, d: nat)
    requires a <= b
    ensures a * d <= b * d
  {
    assert b * d - a * d == (b - a) * d;
  }

  /** `map(f, xs)` (and a list comprehension applying f to each element):
      element i of the result is f of element i. */
  function Map<A, B>(f: A -> B, xs: seq<A>): (r: seq<B>)
    ensures |r| == |xs|
    ensures forall i :: 0 <= i < |xs| ==> r[i] == f(xs[i])
  {
    seq(|xs|, i requires 0 <= i < |xs| => f(xs[i]))
  }

  function Min(a: nat, b: nat): nat
  {
    if a <= b then a else b
  }

  // ------------------------------------------------------------------
  // slicing

  /** Python's normalisation of one slice bound for a sequence of length n:
      a negative bound counts from the end, then the bound is clamped to [0, n]. */
  function SliceBound(i: int, n: nat): (c: nat)
    ensures c <= n
  {
    if i < 0 then (if i + n < 0 then 0 else i + n) else if i > n then n else i
  }

  /** `s[lo:hi]` with Python's rules for any integer bounds: never raises,
      and is empty when the normalised end is not after the normalised start. */
  function Slice<T>(s: seq<T>, lo: int, hi: int): (r: seq<T>)
    ensures |r| == if SliceBound(hi, |s|) <= SliceBound(lo, |s|) then 0
                   else SliceBound(hi, |s|) - SliceBound(lo, |s|)
    ensures forall k :: 0 <= k < |r| ==> r[k] == s[SliceBound(lo, |s|) + k]
  {
    var a, b := SliceBound(lo, |s|), SliceBound(hi, |s|);
    if b <= a then [] else s[a..b]
  }

  /** On in-range non-negative bounds, a Python slice is Dafny's subsequence. */
  lemma SliceInRange<T>(s: seq<T>, lo: nat, hi: nat)
    requires lo <= hi <= |s|
    ensures Slice(s, lo, hi) == s[lo..hi]
  {
  }

  /** A slice whose end bound is not after its start bound is empty. */
  lemma SliceEmpty<T>(s: seq<T>, lo: nat, hi: nat)
    requires hi <= lo
    ensures Slice(s, lo, hi) == []
  {
  }

  // ------------------------------------------------------------------
  // substring search

  /** `sub` occurs in `s` starting at index i. */
  predicate OccursAt<T(==)>(s: seq<T>, sub: seq<T>, i: nat)
  {
    i + |sub| <= |s| && s[i..i + |sub|] == sub
  }

  /** The first index at or after `from` where `sub` occurs in `s`: the
      search behind Python's `in`, `str.find`/`str.split`, JavaScript's
      `indexOf`, and the token-window comparison of the span search. */
  function FindFrom<T(==)>(s: seq<T>, sub: seq<T>, from: nat): (r: Option<nat>)
    ensures r.Some? ==> from <= r.value && OccursAt(s, sub, r.value)
    ensures r.Some? ==> forall i :: from <= i < r.value ==> !OccursAt(s, sub, i)
    ensures r.None? <==> forall i :: from <= i ==> !OccursAt(s, sub, i)
    decreases |s| - from
  {
    if from + |sub| > |s| then None
    else if s[from..from + |sub|] == sub then
      assert OccursAt(s, sub, from);
      Some(from)
    else FindFrom(s, sub, from + 1)
  }

  /** A stretch without occurrences does not change where a search ends. */
  lemma FindFromGap<T>(s: seq<T>, sub: seq<T>, a: nat, b: nat)
    requires a <= b
    requires forall i :: a <= i < b ==> !OccursAt(s, sub, i)
    ensures FindFrom(s, sub, a) == FindFrom(s, sub, b)
  {
    var k := a;
    while k < b
      invariant a <= k <= b
      invariant FindFrom(s, sub, a) == FindFrom(s, sub, k)
    {
      assert !OccursAt(s, sub, k);
      k := k + 1;
    }
  }

  /** Python's `a in b` on strings: `a` is a substring of `b`. */
  predicate IsSubstring<T(==)>(a: seq<T>, b: seq<T>)
  {
    FindFrom(b, a, 0).Some?
  }

  lemma IsSubstringWitness<T>(a: seq<T>, b: seq<T>, i: nat)
    requires OccursAt(b, a, i)
    ensures IsSubstring(a, b)
  {
  }

  // ------------------------------------------------------------------
  // join and split

  /** `sep.join(parts)`. */
  function Join(sep: string, parts: seq<string>): string
  {
    if |parts| == 0 then ""
    else if |parts| == 1 then parts[0]
    else parts[0] + sep + Join(sep, parts[1..])
  }

  /** `s.split(sep)` for a non-empty separator (Python raises ValueError for
      an empty one): the pieces between successive leftmost,
      non-overlapping occurrences of `sep`. */
  function Split(s: string, sep: string): (r: seq<string>)
    requires |sep| > 0
    ensures |r| >= 1
    decreases |s|
  {
    match FindFrom(s, sep, 0)
    case None => [s]
    case Some(i) => [s[..i]] + Split(s[i + |sep|..], sep)
  }

  /** `s.split(sep)[-1]`: the text after the last occurrence of `sep`. */
  function LastPiece(s: string, sep: string): string
    requires |sep| > 0
  {
    var pieces := Split(s, sep);
    pieces[|pieces| - 1]
  }

  /** Splitting on a separator and joining with the same separator gives
      the original string back. */
  lemma {:induction false} JoinSplit(s: string, sep: string)
    requires |sep| > 0
    ensures Join(sep, Split(s, sep)) == s
    decreases |s|
  {
    match FindFrom(s, sep, 0)
    case None =>
    case Some(i) =>
      var rest := s[i + |sep|..];
      var tail := Split(rest, sep);
      JoinSplit(rest, sep);
      JoinCons(sep, s[..i], tail);
      SplitAround(s, sep, i);
  }

  /** A string is the part before an occurrence, the occurrence and the rest. */
  lemma SplitAround(s: string, sep: string, i: nat)
    requires OccursAt(s, sep, i)
    ensures s == s[..i] + sep + s[i + |sep|..]
  {
    assert s[i..i + |sep|] == sep;
    assert s[..i + |sep|] == s[..i] + sep;
  }

  /** The piece after the last separator never contains the separator. */
  lemma {:induction false} LastPieceHasNoSeparator(s: string, sep: string)
    requires |sep| > 0
    ensures !IsSubstring(sep, LastPiece(s, sep))
    decreases |s|
  {
    match FindFrom(s, sep, 0)
    case None =>
    case Some(i) =>
      var rest := s[i + |sep|..];
      LastPieceHasNoSeparator(rest, sep);
      assert LastPiece(s, sep) == LastPiece(rest, sep);
  }

  /** Replace every occurrence of the character c by `rep`, one character at a time. */
  function ReplaceChar(s: string, c: char, rep: string): string
  {
    if |s| == 0 then ""
    else (if s[0] == c then rep else [s[0]]) + ReplaceChar(s[1..], c, rep)
  }

  lemma {:induction false} ReplaceCharAppend(a: string, b: string, c: char, rep: string)
    ensures ReplaceChar(a + b, c, rep) == ReplaceChar(a, c, rep) + ReplaceChar(b, c, rep)
  {
    if |a| == 0 {
      assert a + b == b;
    } else {
      var x := if a[0] == c then rep else [a[0]];
      assert (a + b)[0] == a[0];
      assert (a + b)[1..] == a[1..] + b;
      ReplaceCharAppend(a[1..], b, c, rep);
      calc {
        ReplaceChar(a + b, c, rep);
        x + ReplaceChar(a[1..] + b, c, rep);
        x + (ReplaceChar(a[1..], c, rep) + ReplaceChar(b, c, rep));
        (x + ReplaceChar(a[1..], c, rep)) + ReplaceChar(b, c, rep);
        ReplaceChar(a, c, rep) + ReplaceChar(b, c, rep);
      }
    }
  }

  /** Replacing a character by a single character rewrites the string
      position by position. */
  lemma {:induction false} ReplaceCharPointwise(s: string, c: char, d: char)
    ensures |ReplaceChar(s, c, [d])| == |s|
    ensures forall i :: 0 <= i < |s| ==> ReplaceChar(s, c, [d])[i] == if s[i] == c then d else s[i]
    decreases |s|
  {
    if |s| > 0 {
      ReplaceCharPointwise(s[1..], c, d);
      forall i | 1 <= i < |s| ensures ReplaceChar(s, c, [d])[i] == if s[i] == c then d else s[i] {
        assert s[1..][i - 1] == s[i];
      }
    }
  }

  lemma {:induction false} ReplaceCharAbsent(s: string, c: char, rep: string)
    requires c !in s
    ensures ReplaceChar(s, c, rep) == s
  {
    if |s| > 0 {
      ReplaceCharAbsent(s[1..], c, rep);
      assert s == [s[0]] + s[1..];
    }
  }

  /** Before the first occurrence of the one-character string [c], no character is c. */
  lemma NoCharBefore(s: string, c: char, n: nat)
    requires n <= |s|
    requires forall i :: 0 <= i < n ==> !OccursAt(s, [c], i)
    ensures c !in s[..n]
  {
    forall j | 0 <= j < n ensures s[j] != c {
      assert !OccursAt(s, [c], j);
      assert s[j..j + 1] == [s[j]];
    }
  }

  /** `rep.join(s.split(c))` for a one-character separator replaces every
      c by `rep`. */
  lemma {:induction false} JoinSplitChar(s: string, c: char, rep: string)
    ensures Join(rep, Split(s, [c])) == ReplaceChar(s, c, rep)
    decreases |s|
  {
    var f := FindFrom(s, [c], 0);
    if f.None? {
      JoinSplitCharNone(s, c, rep);
    } else {
      JoinSplitChar(s[f.value + 1..], c, rep);
      JoinSplitCharStep(s, c, rep, f.value);
    }
  }

  /** JoinSplitChar when s holds no c. */
  lemma JoinSplitCharNone(s: string, c: char, rep: string)
    requires FindFrom(s, [c], 0).None?
    ensures Join(rep, Split(s, [c])) == ReplaceChar(s, c, rep)
  {
    NoCharBefore(s, c, |s|);
    assert s[..|s|] == s;
    ReplaceCharAbsent(s, c, rep);
  }

  /** The inductive step of JoinSplitChar, at the first c of s. */
  lemma JoinSplitCharStep(s: string, c: char, rep: string, i: nat)
    requires FindFrom(s, [c], 0) == Some(i)
    requires Join(rep, Split(s[i + 1..], [c])) == ReplaceChar(s[i + 1..], c, rep)
    ensures Join(rep, Split(s, [c])) == ReplaceChar(s, c, rep)
  {
    var head, rest := s[..i], s[i + 1..];
    var tail := Split(rest, [c]);
    assert Split(s, [c]) == [head] + tail;
    JoinCons(rep, head, tail);
    NoCharBefore(s, c, i);
    assert s[i] == c by { assert s[i..i + 1] == [c]; }
    Decompose(s, i);
    ReplaceCharSplice(head, rest, c, rep);
  }

  lemma ReplaceCharSplice(head: string, rest: string, c: char, rep: string)
    requires c !in head
    ensures ReplaceChar(head + ([c] + rest), c, rep) == head + rep + ReplaceChar(rest, c, rep)
  {
    ReplaceCharAbsent(head, c, rep);
    ReplaceCharAppend(head, [c] + rest, c, rep);
    ReplaceCharAppend([c], rest, c, rep);
    assert ReplaceChar([c], c, rep) == rep by {
      assert [c][1..] == [];
    }
  }

  /** Three adjacent slices glue into one. */
  lemma SliceGlue<T>(s: seq<T>, a: nat, b: nat, c: nat, d: nat)
    requires a <= b <= c <= d <= |s|
    ensures s[a..d] == s[a..b] + s[b..c] + s[c..d]
  {
  }

  /** A slice followed by the next element. */
  lemma SliceSnoc<T>(s: seq<T>, a: nat, j: nat)
    requires a <= j < |s|
    ensures s[a..j + 1] == s[a..j] + [s[j]]
  {
  }

  lemma Decompose<T>(s: seq<T>, i: nat)
    requires i < |s|
    ensures s == s[..i] + ([s[i]] + s[i + 1..])
  {
  }

  lemma JoinCons(sep: string, head: string, tail: seq<string>)
    requires |tail| >= 1
    ensures Join(sep, [head] + tail) == head + sep + Join(sep, tail)
  {
    assert ([head] + tail)[1..] == tail;
  }

  /** The first occurrence of a one-character separator is found at the
      first index holding it. */
  lemma FindFromChar(s: string, c: char, i: nat)
    requires i < |s| && s[i] == c && c !in s[..i]
    ensures FindFrom(s, [c], 0) == Some(i)
  {
    forall j | 0 <= j < i ensures !OccursAt(s, [c], j) {
      assert s[..i][j] == s[j];
      assert s[j..j + 1] == [s[j]];
    }
    FindFromGap(s, [c], 0, i);
    assert s[i..i + 1] == [c];
  }

  lemma FindFromCharAbsent(s: string, c: char)
    requires c !in s
    ensures FindFrom(s, [c], 0) == None
  {
    forall i | 0 <= i ensures !OccursAt(s, [c], i) {
      if i + 1 <= |s| {
        assert s[i..i + 1] == [s[i]];
      }
    }
  }

  /** Joining parts that do not contain the one-character separator and
      splitting on it gives the parts back. */
  lemma {:induction false} SplitJoinChar(parts: seq<string>, c: char)
    requires |parts| > 0
    requires forall k :: 0 <= k < |parts| ==> c !in parts[k]
    ensures Split(Join([c], parts), [c]) == parts
    decreases |parts|
  {
    if |parts| == 1 {
      FindFromCharAbsent(parts[0], c);
    } else {
      var head, tail := parts[0], parts[1..];
      JoinCons([c], head, tail);
      var s := Join([c], parts);
      assert s == head + ([c] + Join([c], tail));
      assert s[..|head|] == head;
      FindFromChar(s, c, |head|);
      assert s[|head| + 1..] == Join([c], tail);
      SplitJoinChar(tail, c);
      assert parts == [head] + tail;
    }
  }

  /** After replacing c by a text without c, no c is left. */
  lemma {:induction false} ReplaceCharRemoves(s: string, c: char, rep: string, d: char)
    requires d !in rep
    requires d == c || d !in s
    ensures d !in ReplaceChar(s, c, rep)
    decreases |s|
  {
    if |s| > 0 {
      ReplaceCharRemoves(s[1..], c, rep, d);
    }
  }

  // ------------------------------------------------------------------
  // re.sub(re.escape(c) + '+', c, s): collapse every run of one character

  /** Drop the leading run of c. */
  function DropRun(s: string, c: char): (r: string)
    ensures |r| <= |s|
    ensures |r| > 0 ==> r[0] != c
  {
    if |s| > 0 && s[0] == c then DropRun(s[1..], c) else s
  }

  /** `re.sub('c+', 'c', s)`: every maximal run of the character c becomes a single c. */
  function CollapseRuns(s: string, c: char): string
    decreases |s|
  {
    if |s| == 0 then ""
    else if s[0] == c then [c] + CollapseRuns(DropRun(s, c), c)
    else [s[0]] + CollapseRuns(s[1..], c)
  }

  /** No two consecutive characters equal c. */
  predicate NoDoubled(s: string, c: char)
  {
    forall i :: 0 <= i < |s| - 1 ==> !(s[i] == c && s[i + 1] == c)
  }

  /** The characters of s other than c, in order. */
  function Without(s: string, c: char): string
  {
    if |s| == 0 then "" else (if s[0] == c then "" else [s[0]]) + Without(s[1..], c)
  }

  /** After collapsing, no run of c is longer than one character. */
  lemma {:induction false} CollapseRunsNoDoubled(s: string, c: char)
    ensures NoDoubled(CollapseRuns(s, c), c)
    ensures |CollapseRuns(s, c)| > 0 && s[0] != c ==> CollapseRuns(s, c)[0] == s[0]
    decreases |s|
  {
    if |s| > 0 {
      if s[0] == c {
        var d := DropRun(s, c);
        CollapseRunsNoDoubled(d, c);
        CollapseRunsHead(d, c);
      } else {
        CollapseRunsNoDoubled(s[1..], c);
      }
    }
  }

  lemma {:induction false} CollapseRunsHead(s: string, c: char)
    ensures |s| > 0 <==> |CollapseRuns(s, c)| > 0
    ensures |s| > 0 ==> CollapseRuns(s, c)[0] == s[0]
  {
  }

  lemma {:induction false} WithoutDropRun(s: string, c: char)
    ensures Without(DropRun(s, c), c) == Without(s, c)
    decreases |s|
  {
    if |s| > 0 && s[0] == c {
      WithoutDropRun(s[1..], c);
    }
  }

  /** Collapsing runs of c removes only copies of c: the other characters
      are kept, in order. */
  lemma {:induction false} CollapseRunsKeepsOthers(s: string, c: char)
    ensures Without(CollapseRuns(s, c), c) == Without(s, c)
    decreases |s|
  {
    if |s| > 0 {
      if s[0] == c {
        var d := DropRun(s, c);
        CollapseRunsKeepsOthers(d, c);
        WithoutDropRun(s, c);
        assert Without([c] + CollapseRuns(d, c), c) == Without(CollapseRuns(d, c), c) by {
          assert ([c] + CollapseRuns(d, c))[1..] == CollapseRuns(d, c);
        }
        assert Without(s, c) == Without(s[1..], c);
        WithoutDropRun(s[1..], c);
      } else {
        CollapseRunsKeepsOthers(s[1..], c);
        assert ([s[0]] + CollapseRuns(s[1..], c))[1..] == CollapseRuns(s[1..], c);
      }
    }
  }

  lemma {:induction false} CollapseRunsAbsent(s: string, c: char)
    requires c !in s
    ensures CollapseRuns(s, c) == s
    decreases |s|
  {
    if |s| > 0 {
      CollapseRunsAbsent(s[1..], c);
      assert s == [s[0]] + s[1..];
    }
  }

  /** Dropping the leading run of c from `x + t`, where t does not start
      with c, leaves the rest of x followed by t. */
  lemma {:induction false} DropRunAppend(x: string, t: string, c: char)
    requires |t| > 0 && t[0] != c
    ensures DropRun(x + t, c) == DropRun(x, c) + t
    decreases |x|
  {
    if |x| == 0 {
      assert x + t == t;
    } else if x[0] == c {
      assert (x + t)[1..] == x[1..] + t;
      DropRunAppend(x[1..], t, c);
    } else {
      assert (x + t)[0] == x[0];
    }
  }

  /** DropRun removes a prefix made of c only. */
  lemma {:induction false} DropRunSuffix(s: string, c: char)
    ensures DropRun(s, c) == s[|s| - |DropRun(s, c)|..]
    ensures forall j :: 0 <= j < |s| - |DropRun(s, c)| ==> s[j] == c
    decreases |s|
  {
    if |s| > 0 && s[0] == c {
      DropRunSuffix(s[1..], c);
    }
  }

  /** One step of collapsing at a character other than c. */
  lemma CollapseRunsOther(a: string, b: string, c: char)
    requires |a| > 0 && a[0] != c
    ensures CollapseRuns(a + b, c) == [a[0]] + CollapseRuns(a[1..] + b, c)
    ensures CollapseRuns(a, c) == [a[0]] + CollapseRuns(a[1..], c)
  {
    assert (a + b)[0] == a[0] && (a + b)[1..] == a[1..] + b;
  }

  /** One step of collapsing at a run of c that starts a, when b does
      not start with c. */
  lemma CollapseRunsRun(a: string, b: string, c: char)
    requires |a| > 0 && a[0] == c
    requires |b| > 0 && b[0] != c
    ensures |DropRun(a, c)| < |a|
    ensures CollapseRuns(a + b, c) == [c] + CollapseRuns(DropRun(a, c) + b, c)
    ensures CollapseRuns(a, c) == [c] + CollapseRuns(DropRun(a, c), c)
  {
    var ab := a + b;
    assert ab[0] == c;
    assert DropRun(a, c) == DropRun(a[1..], c);
    DropRunAppend(a, b, c);
  }

  /** Collapsing distributes over a concatenation whose second part does
      not start with c. */
  lemma {:induction false} CollapseRunsAppend(a: string, b: string, c: char)
    requires |b| > 0 && b[0] != c
    ensures CollapseRuns(a + b, c) == CollapseRuns(a, c) + CollapseRuns(b, c)
    decreases |a|
  {
    if |a| == 0 {
      assert a + b == b;
    } else if a[0] != c {
      CollapseRunsOther(a, b, c);
      CollapseRunsAppend(a[1..], b, c);
    } else {
      var d := DropRun(a, c);
      CollapseRunsRun(a, b, c);
      CollapseRunsAppend(d, b, c);
    }
  }

  /** Collapsing keeps the last character. */
  lemma {:induction false} CollapseRunsLast(s: string, c: char)
    requires |s| > 0
    ensures |CollapseRuns(s, c)| > 0 && CollapseRuns(s, c)[|CollapseRuns(s, c)| - 1] == s[|s| - 1]
    decreases |s|
  {
    if s[0] != c {
      if |s| > 1 {
        CollapseRunsLast(s[1..], c);
      }
    } else {
      var d := DropRun(s, c);
      DropRunSuffix(s, c);
      if |d| > 0 {
        CollapseRunsLast(d, c);
      }
    }
  }

  /** s ends with the given suffix. */
  predicate EndsWith<T(==)>(s: seq<T>, suffix: seq<T>)
  {
    |suffix| <= |s| && s[|s| - |suffix|..] == suffix
  }

  /** When y holds no c, collapsing `x + c + y` ends with exactly `c + y`:
      the run of c in front of y becomes a single c and y is untouched. */
  lemma CollapseRunsEndsWith(x: string, y: string, c: char)
    requires c !in y
    ensures EndsWith(CollapseRuns(x + [c] + y, c), [c] + y)
  {
    var xc := x + [c];
    assert x + [c] + y == xc + y;
    CollapseRunsLast(xc, c);
    var p := CollapseRuns(xc, c);
    if |y| == 0 {
      assert xc + y == xc;
      LastIsSuffix(p, c);
    } else {
      CollapseRunsAppend(xc, y, c);
      CollapseRunsAbsent(y, c);
      LastIsSuffix(p, c);
      SuffixAppend(p, [c], y);
    }
  }

  /** A sequence ends with its last element. */
  lemma LastIsSuffix<T>(p: seq<T>, c: T)
    requires |p| > 0 && p[|p| - 1] == c
    ensures EndsWith(p, [c])
  {
  }

  /** A slice of a stretch known to equal u is the matching slice of u. */
  lemma SubSlice<T>(t: seq<T>, y: nat, u: seq<T>, a: nat, b: nat)
    requires y + |u| <= |t| && t[y..y + |u|] == u && a <= b <= |u|
    ensures t[y + a..y + b] == u[a..b]
  {
    forall k | 0 <= k < b - a ensures t[y + a..y + b][k] == u[a..b][k] {
      assert t[y + a + k] == t[y..y + |u|][a + k];
    }
  }

  /** Appending the same tail keeps a suffix a suffix. */
  lemma SuffixAppend<T>(p: seq<T>, u: seq<T>, y: seq<T>)
    requires EndsWith(p, u)
    ensures EndsWith(p + y, u + y)
  {
    var k := |p| - |u|;
    assert (p + y)[k..] == p[k..] + y;
  }

  // ------------------------------------------------------------------
  // pandas label lookup

  /** `series[label]` on an integer index: the value at the first position
      whose index label is `label`, or None where pandas raises KeyError. */
  function LabelLookup<T>(labels: seq<int>, values: seq<T>, key: int): (r: Option<T>)
    requires |labels| == |values|
    ensures r.Some? <==> key in labels
    ensures r.Some? ==> exists p :: 0 <= p < |labels| && labels[p] == key && r.value == values[p]
  {
    if |labels| == 0 then None
    else if labels[0] == key then Some(values[0])
    else
      var r := LabelLookup(labels[1..], values[1..], key);
      assert r.Some? ==> exists p :: 0 <= p < |labels| && labels[p] == key && r.value == values[p] by {
        if r.Some? {
          var q :| 0 <= q < |labels| - 1 && labels[1..][q] == key && r.value == values[1..][q];
          assert labels[q + 1] == key;
        }
      }
      r
  }

  // ------------------------------------------------------------------
  // order-preserving deduplication

  /** No element occurs twice. */
  predicate NoDup<T(==)>(xs: seq<T>)
  {
    forall i, j :: 0 <= i < j < |xs| ==> xs[i] != xs[j]
  }

  /** The keys of the elements of xs. */
  function KeysOf<T, K>(xs: seq<T>, key: T -> K): set<K>
  {
    set i | 0 <= i < |xs| :: key(xs[i])
  }

  /** Keep the first element for every key, in the original order
      (pandas `drop_duplicates([key])`, JavaScript `[...new Set(xs)]`). */
  function DedupBy<T, K(==)>(xs: seq<T>, key: T -> K): (r: seq<T>)
    ensures |r| <= |xs|
    decreases |xs|
  {
    if |xs| == 0 then []
    else
      var d := DedupBy(xs[..|xs| - 1], key);
      var last := xs[|xs| - 1];
      if key(last) in KeysOf(d, key) then d else d + [last]
  }

  lemma KeysOfAppend<T, K>(xs: seq<T>, x: T, key: T -> K)
    ensures KeysOf(xs + [x], key) == KeysOf(xs, key) + {key(x)}
  {
    var l := KeysOf(xs + [x], key);
    forall k | k in l ensures k in KeysOf(xs, key) + {key(x)} {
      var i :| 0 <= i < |xs| + 1 && key((xs + [x])[i]) == k;
      if i < |xs| {
        assert key(xs[i]) == k;
      }
    }
    forall k | k in KeysOf(xs, key) ensures k in l {
      var i :| 0 <= i < |xs| && key(xs[i]) == k;
      assert key((xs + [x])[i]) == k;
    }
    assert key((xs + [x])[|xs|]) == key(x);
  }

  /** Deduplication keeps every key and invents none. */
  lemma {:induction false} DedupByKeys<T, K>(xs: seq<T>, key: T -> K)
    ensures KeysOf(DedupBy(xs, key), key) == KeysOf(xs, key)
    decreases |xs|
  {
    if |xs| > 0 {
      var p := xs[..|xs| - 1];
      var last := xs[|xs| - 1];
      assert xs == p + [last];
      DedupByKeys(p, key);
      KeysOfAppend(p, last, key);
      var d := DedupBy(p, key);
      if key(last) !in KeysOf(d, key) {
        KeysOfAppend(d, last, key);
      }
    }
  }

  /** No two elements of xs share a key. */
  ghost predicate DistinctKeys<T, K>(xs: seq<T>, key: T -> K)
  {
    forall i, j :: 0 <= i < j < |xs| ==> key(xs[i]) != key(xs[j])
  }

  /** After deduplication no two elements share a key. */
  lemma {:induction false} DedupByDistinct<T, K>(xs: seq<T>, key: T -> K)
    ensures DistinctKeys(DedupBy(xs, key), key)
    decreases |xs|
  {
    if |xs| > 0 {
      var p := xs[..|xs| - 1];
      var last := xs[|xs| - 1];
      DedupByDistinct(p, key);
      var d := DedupBy(p, key);
      if key(last) !in KeysOf(d, key) {
        var r := d + [last];
        forall i, j | 0 <= i < j < |r| ensures key(r[i]) != key(r[j]) {
          assert r[i] == d[i];
          if j == |d| {
            assert r[j] == last;
            assert key(d[i]) in KeysOf(d, key);
          } else {
            assert r[j] == d[j];
          }
        }
        assert DistinctKeys(r, key);
      }
    }
  }

  /** Deduplicating a list whose keys are already distinct changes nothing. */
  lemma {:induction false} DedupByOfDistinct<T, K>(xs: seq<T>, key: T -> K)
    requires DistinctKeys(xs, key)
    ensures DedupBy(xs, key) == xs
    decreases |xs|
  {
    if |xs| > 0 {
      var p := xs[..|xs| - 1];
      var last := xs[|xs| - 1];
      assert DistinctKeys(p, key) by {
        forall i, j | 0 <= i < j < |p| ensures key(p[i]) != key(p[j]) {
          assert p[i] == xs[i] && p[j] == xs[j];
        }
      }
      DedupByOfDistinct(p, key);
      assert key(last) !in KeysOf(p, key) by {
        forall i | 0 <= i < |p| ensures key(p[i]) != key(last) {
          assert xs[i] == p[i];
        }
      }
      assert xs == p + [last];
    }
  }

  /** Every element kept is the first element of xs with its key. */
  ghost predicate FirstWithKey<T, K>(xs: seq<T>, key: T -> K, y: T)
  {
    exists j :: 0 <= j < |xs| && xs[j] == y && forall k :: 0 <= k < j ==> key(xs[k]) != key(y)
  }

  lemma {:induction false} DedupByFirst<T, K>(xs: seq<T>, key: T -> K)
    ensures forall y :: y in DedupBy(xs, key) ==> FirstWithKey(xs, key, y)
    decreases |xs|
  {
    if |xs| > 0 {
      var p := xs[..|xs| - 1];
      var last := xs[|xs| - 1];
      DedupByFirst(p, key);
      DedupByKeys(p, key);
      var d := DedupBy(p, key);
      forall y | y in DedupBy(xs, key) ensures FirstWithKey(xs, key, y) {
        if y in d {
          var j :| 0 <= j < |p| && p[j] == y && forall k :: 0 <= k < j ==> key(p[k]) != key(y);
          assert xs[j] == y;
          assert forall k :: 0 <= k < j ==> xs[k] == p[k];
        } else {
          assert y == last && key(last) !in KeysOf(p, key);
          forall k | 0 <= k < |xs| - 1 ensures key(xs[k]) != key(y) {
            assert xs[k] == p[k];
            assert key(p[k]) in KeysOf(p, key);
          }
          assert xs[|xs| - 1] == y;
        }
      }
    }
  }

  /** r is the subsequence of xs at the strictly increasing positions idx. */
  ghost predicate IsSubseqAt<T>(r: seq<T>, xs: seq<T>, idx: seq<nat>)
  {
    && |idx| == |r|
    && (forall i :: 0 <= i < |idx| ==> idx[i] < |xs| && r[i] == xs[idx[i]])
    && (forall i, j :: 0 <= i < j < |idx| ==> idx[i] < idx[j])
  }

  /** Each position in idx is the first position of its key in xs. */
  ghost predicate FirstKeyPositions<T, K>(xs: seq<T>, key: T -> K, idx: seq<nat>)
  {
    forall i, k :: 0 <= i < |idx| && 0 <= k < idx[i] < |xs| ==> key(xs[k]) != key(xs[idx[i]])
  }

  /** Deduplication keeps its elements in their original order: the result
      is the subsequence of xs at increasing positions, each the first
      position of its key. */
  lemma {:induction false} DedupByOrder<T, K>(xs: seq<T>, key: T -> K)
    ensures exists idx: seq<nat> :: IsSubseqAt(DedupBy(xs, key), xs, idx) && FirstKeyPositions(xs, key, idx)
    decreases |xs|
  {
    if |xs| == 0 {
      assert IsSubseqAt(DedupBy(xs, key), xs, []) && FirstKeyPositions(xs, key, []);
    } else {
      var n := |xs| - 1;
      var p := xs[..n];
      var d := DedupBy(p, key);
      DedupByOrder(p, key);
      var idx: seq<nat> :| IsSubseqAt(d, p, idx) && FirstKeyPositions(p, key, idx);
      var idx' := DedupByOrderStep(xs, key, idx);
      assert IsSubseqAt(DedupBy(xs, key), xs, idx') && FirstKeyPositions(xs, key, idx');
    }
  }

  /** The step of DedupByOrder: the positions for xs from those for all but
      its last element. */
  lemma DedupByOrderStep<T, K>(xs: seq<T>, key: T -> K, idx: seq<nat>) returns (idx': seq<nat>)
    requires |xs| > 0
    requires IsSubseqAt(DedupBy(xs[..|xs| - 1], key), xs[..|xs| - 1], idx)
    requires FirstKeyPositions(xs[..|xs| - 1], key, idx)
    ensures IsSubseqAt(DedupBy(xs, key), xs, idx') && FirstKeyPositions(xs, key, idx')
  {
    var n := |xs| - 1;
    var p := xs[..n];
    var d := DedupBy(p, key);
    assert forall k :: 0 <= k < n ==> p[k] == xs[k];
    if key(xs[n]) in KeysOf(d, key) {
      idx' := idx;
      assert DedupBy(xs, key) == d;
    } else {
      DedupByKeys(p, key);
      idx' := idx + [n];
      assert DedupBy(xs, key) == d + [xs[n]];
      forall k | 0 <= k < n ensures key(xs[k]) != key(xs[n]) {
        assert key(p[k]) in KeysOf(p, key);
      }
    }
  }

  /** Plain deduplication on the elements themselves. */
  function Dedup<T(==)>(xs: seq<T>): (r: seq<T>)
    ensures |r| <= |xs|
  {
    DedupBy(xs, (x: T) => x)
  }

  /** `[...new Set(xs)]`: the same elements, each once. */
  lemma DedupSpec<T>(xs: seq<T>)
    ensures NoDup(Dedup(xs))
    ensures forall x :: x in Dedup(xs) <==> x in xs
  {
    var id := (x: T) => x;
    DedupByDistinct(xs, id);
    DedupByKeys(xs, id);
    var r := Dedup(xs);
    forall x ensures x in r <==> x in xs {
      if x in r {
        var i :| 0 <= i < |r| && r[i] == x;
        assert id(r[i]) in KeysOf(r, id);
      }
      if x in xs {
        var i :| 0 <= i < |xs| && xs[i] == x;
        assert id(xs[i]) in KeysOf(xs, id);
      }
    }
  }

  /** Deduplicating distinct elements changes nothing. */
  lemma DedupOfNoDup<T>(xs: seq<T>)
    requires NoDup(xs)
    ensures Dedup(xs) == xs
  {
    var id := (x: T) => x;
    assert DistinctKeys(xs, id);
    DedupByOfDistinct(xs, id);
  }

  /** The position of the first occurrence of y in xs. */
  function FirstIndex<T(==)>(xs: seq<T>, y: T): (i: nat)
    requires y in xs
    ensures i < |xs| && xs[i] == y
    ensures forall k :: 0 <= k < i ==> xs[k] != y
  {
    if xs[0] == y then 0 else 1 + FirstIndex(xs[1..], y)
  }

  /** `[...new Set(xs)]` lists the elements in order of first occurrence. */
  lemma {:induction false} DedupOrder<T>(xs: seq<T>)
    ensures forall y :: y in Dedup(xs) ==> y in xs
    ensures forall i, j :: 0 <= i < j < |Dedup(xs)| ==>
      FirstIndex(xs, Dedup(xs)[i]) < FirstIndex(xs, Dedup(xs)[j])
    decreases |xs|
  {
    DedupSpec(xs);
    if |xs| > 0 {
      var n := |xs| - 1;
      var p := xs[..n];
      DedupOrder(p);
      DedupSpec(p);
      var d := Dedup(p);
      var r := Dedup(xs);
      forall y | y in p ensures FirstIndex(xs, y) == FirstIndex(p, y) {
        var a, b := FirstIndex(xs, y), FirstIndex(p, y);
        assert xs[b] == y;
        assert a <= b;
        assert p[a] == y;
      }
      forall i, j | 0 <= i < j < |r| ensures FirstIndex(xs, r[i]) < FirstIndex(xs, r[j]) {
        assert r[i] == d[i] && r[i] in p;
        if j < |d| {
          assert r[j] == d[j] && r[j] in p;
        } else {
          var id := (x: T) => x;
          assert r == DedupBy(xs, id) && d == DedupBy(p, id);
          assert r == d + [xs[n]] && id(xs[n]) !in KeysOf(d, id);
          forall k | 0 <= k < |d| ensures d[k] != xs[n] {
            assert id(d[k]) in KeysOf(d, id);
          }
          assert r[j] == xs[n] && xs[n] !in p;
          assert FirstIndex(xs, r[j]) == n;
        }
      }
    }
  }
}
