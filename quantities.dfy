// The string side of the quantities extraction: the confidence-interval
// clean-up `interval_clean.translate` and the nearest-label grouping of
// `findnear`.

module Quantities {
  import opened PyLib
  import opened Aggregation

  // ------------------------------------------------------------------
  // interval_clean.translate

  /** The middle dot of decimal numbers written in the British style. */
  const MiddleDot: char := '\U{00B7}'

  /** The en dash of printed intervals. */
  const EnDash: char := '\U{2013}'

  /** `\d` on ASCII text. */
  predicate IsDigit(c: char)
  {
    '0' <= c <= '9'
  }

  /** The hyphen at i has a digit on both sides: `(?<=\d)-(?=\d)` matches there. */
  predicate DigitHyphen(s: string, i: nat)
  {
    0 < i < |s| - 1 && s[i] == '-' && IsDigit(s[i - 1]) && IsDigit(s[i + 1])
  }

  /** No hyphen between two digits is left. */
  predicate NoDigitHyphen(s: string)
  {
    forall i :: 0 <= i < |s| ==> !DigitHyphen(s, i)
  }

  /** `re.sub(r'(?<=\d)-(?=\d)', rep, s[i:])`, the lookarounds reading the
      original string. */
  function SubHyphens(s: string, i: nat, rep: string): string
    requires i <= |s|
    decreases |s| - i
  {
    if i == |s| then ""
    else (if DigitHyphen(s, i) then rep else [s[i]]) + SubHyphens(s, i + 1, rep)
  }

  /** One rewrite of the list: a character replaced everywhere, or every
      hyphen between digits replaced. */
  datatype Rewrite = Literal(from: char, to: string) | Hyphens(to: string)

  /** The rewrites of `translate`, in the order they are applied. */
  const Trans: seq<Rewrite> := [Literal(MiddleDot, "."), Literal(EnDash, "-"), Hyphens(" to ")]

  function Apply(t: Rewrite, s: string): string
  {
    match t
    case Literal(c, rep) => ReplaceChar(s, c, rep)
    case Hyphens(rep) => SubHyphens(s, 0, rep)
  }

  /** The rewrites applied one after the other, the first one first. */
  function ApplyAll(ts: seq<Rewrite>, s: string): string
    decreases |ts|
  {
    if |ts| == 0 then s else ApplyAll(ts[1..], Apply(ts[0], s))
  }

  /** `translate`: every rewrite of the list applied in turn to the sentence. */
  method Translate(sentence: string) returns (r: string)
    ensures r == ApplyAll(Trans, sentence)
  {
    r := sentence;
    var k := 0;
    while k < |Trans|
      invariant 0 <= k <= |Trans|
      invariant ApplyAll(Trans[k..], r) == ApplyAll(Trans, sentence)
    {
      assert Trans[k..][1..] == Trans[k + 1..];
      r := Apply(Trans[k], r);
      k := k + 1;
    }
  }

  /** A replacement that starts and ends with a non-digit and holds no hyphen. */
  predicate PlainReplacement(rep: string)
  {
    |rep| > 0 && !IsDigit(rep[0]) && !IsDigit(rep[|rep| - 1]) && '-' !in rep
  }

  /** After the hyphen rewrite no hyphen sits between digits; and a hyphen
      left at the front, followed by a digit, did not follow a digit in the
      input. */
  lemma {:induction false} SubHyphensClean(s: string, i: nat, rep: string)
    requires i <= |s| && PlainReplacement(rep)
    ensures NoDigitHyphen(SubHyphens(s, i, rep))
    ensures var o := SubHyphens(s, i, rep);
      0 < i && |o| >= 2 && o[0] == '-' && IsDigit(o[1]) ==> !IsDigit(s[i - 1])
    decreases |s| - i
  {
    if i < |s| {
      var p := if DigitHyphen(s, i) then rep else [s[i]];
      var rest := SubHyphens(s, i + 1, rep);
      var o := p + rest;
      assert SubHyphens(s, i, rep) == o;
      SubHyphensClean(s, i + 1, rep);
      SubHyphensFirst(s, i + 1, rep);
      assert rep[0] != '-' by {
        assert rep[0] in rep;
      }
      assert p[|p| - 1] != '-' || p == [s[i]];
      forall j | 0 <= j < |o| ensures !DigitHyphen(o, j) {
        if j < |p| {
          if DigitHyphen(s, i) {
            assert o[j] == rep[j];
            assert rep[j] in rep;
          }
        } else {
          var j' := j - |p|;
          assert o[j] == rest[j'];
          if j' > 0 && j < |o| - 1 {
            assert o[j - 1] == rest[j' - 1] && o[j + 1] == rest[j' + 1];
            assert !DigitHyphen(rest, j');
          } else if j' == 0 && j < |o| - 1 {
            assert o[j - 1] == p[|p| - 1] && o[j + 1] == rest[1];
          }
        }
      }
      if 0 < i && |o| >= 2 && o[0] == '-' && IsDigit(o[1]) {
        assert p[0] == '-';
        assert p == [s[i]] && s[i] == '-';
        assert o[1] == rest[0];
      }
    }
  }

  /** The first character of the rest of a hyphen rewrite. */
  lemma SubHyphensFirst(s: string, i: nat, rep: string)
    requires i <= |s| && PlainReplacement(rep)
    ensures var o := SubHyphens(s, i, rep);
      (|o| > 0 <==> i < |s|)
      && (i < |s| ==> o[0] == (if DigitHyphen(s, i) then rep[0] else s[i]))
      && (|o| > 0 && IsDigit(o[0]) ==> IsDigit(s[i]))
  {
  }

  /** A character neither in the input nor in the replacement is not in the
      output. */
  lemma {:induction false} SubHyphensAbsent(s: string, i: nat, rep: string, c: char)
    requires i <= |s| && c !in s && c !in rep
    ensures c !in SubHyphens(s, i, rep)
    decreases |s| - i
  {
    if i < |s| {
      SubHyphensAbsent(s, i + 1, rep, c);
      assert s[i] in s;
    }
  }

  /** Without a hyphen between digits, the hyphen rewrite changes nothing. */
  lemma {:induction false} SubHyphensNone(s: string, i: nat, rep: string)
    requires i <= |s| && NoDigitHyphen(s)
    ensures SubHyphens(s, i, rep) == s[i..]
    decreases |s| - i
  {
    if i < |s| {
      SubHyphensNone(s, i + 1, rep);
      assert !DigitHyphen(s, i);
      assert s[i..] == [s[i]] + s[i + 1..];
    }
  }

  /** `translate` replaces the middle dots, then the en dashes, then the
      hyphens between digits; its result holds no middle dot, no en dash and
      no hyphen between two digits, including the hyphens that came from en
      dashes. */
  lemma TranslateSpec(s: string)
    ensures var r := ApplyAll(Trans, s);
      r == SubHyphens(ReplaceChar(ReplaceChar(s, MiddleDot, "."), EnDash, "-"), 0, " to ")
      && MiddleDot !in r && EnDash !in r && NoDigitHyphen(r)
  {
    var a := ReplaceChar(s, MiddleDot, ".");
    var b := ReplaceChar(a, EnDash, "-");
    assert ApplyAll(Trans, s) == SubHyphens(b, 0, " to ") by {
      assert Trans[0] == Literal(MiddleDot, ".");
      assert ApplyAll(Trans, s) == ApplyAll(Trans[1..], a);
      assert Trans[1..][0] == Literal(EnDash, "-") && Trans[1..][1..] == Trans[2..];
      assert ApplyAll(Trans[1..], a) == ApplyAll(Trans[2..], b);
      assert Trans[2..][0] == Hyphens(" to ") && Trans[2..][1..] == [];
      assert ApplyAll(Trans[2..], b) == ApplyAll([], SubHyphens(b, 0, " to "));
    }
    ReplaceCharRemoves(s, MiddleDot, ".", MiddleDot);
    ReplaceCharRemoves(a, EnDash, "-", MiddleDot);
    ReplaceCharRemoves(a, EnDash, "-", EnDash);
    SubHyphensAbsent(b, 0, " to ", MiddleDot);
    SubHyphensAbsent(b, 0, " to ", EnDash);
    SubHyphensClean(b, 0, " to ");
  }

  /** Cleaning an already cleaned sentence changes nothing. */
  lemma TranslateIdempotent(s: string)
    ensures ApplyAll(Trans, ApplyAll(Trans, s)) == ApplyAll(Trans, s)
  {
    var r := ApplyAll(Trans, s);
    TranslateSpec(s);
    TranslateSpec(r);
    ReplaceCharAbsent(r, MiddleDot, ".");
    ReplaceCharAbsent(r, EnDash, "-");
    SubHyphensNone(r, 0, " to ");
  }

  /** The first rewrite of the example: the dots become decimal points. */
  lemma ExampleDots()
    ensures ReplaceChar("1\U{00B7}2\U{2013}3\U{00B7}4", MiddleDot, ".") == "1.2\U{2013}3.4"
  {
    DotsOfInterval("1\U{00B7}2\U{2013}3\U{00B7}4");
  }

  lemma DotsOfInterval(s: string)
    requires |s| == 7 && s[0] == '1' && s[1] == MiddleDot && s[2] == '2' && s[3] == EnDash
    requires s[4] == '3' && s[5] == MiddleDot && s[6] == '4'
    ensures ReplaceChar(s, MiddleDot, ".") == "1.2\U{2013}3.4"
  {
    var r := ReplaceChar(s, MiddleDot, ".");
    ReplaceCharPointwise(s, MiddleDot, '.');
    assert r[1] == '.' && r[5] == '.';
    assert r[0] == '1' && r[2] == '2' && r[3] == EnDash && r[4] == '3' && r[6] == '4';
  }

  /** The second rewrite of the example: the en dash becomes a hyphen. */
  lemma ExampleDash()
    ensures ReplaceChar("1.2\U{2013}3.4", EnDash, "-") == "1.2-3.4"
  {
    DashOfInterval("1.2\U{2013}3.4");
  }

  lemma DashOfInterval(s: string)
    requires |s| == 7 && s[0] == '1' && s[1] == '.' && s[2] == '2' && s[3] == EnDash
    requires s[4] == '3' && s[5] == '.' && s[6] == '4'
    ensures ReplaceChar(s, EnDash, "-") == "1.2-3.4"
  {
    var r := ReplaceChar(s, EnDash, "-");
    ReplaceCharPointwise(s, EnDash, '-');
    assert r[3] == '-';
    assert r[0] == '1' && r[1] == '.' && r[2] == '2' && r[4] == '3' && r[5] == '.' && r[6] == '4';
  }

  /** The third rewrite of the example: the hyphen between digits becomes "to". */
  lemma ExampleHyphen()
    ensures SubHyphens("1.2-3.4", 0, " to ") == "1.2 to 3.4"
  {
    var b := "1.2-3.4";
    assert SubHyphens(b, 4, " to ") == "3.4";
    assert DigitHyphen(b, 3);
    assert SubHyphens(b, 3, " to ") == " to 3.4";
  }

  /** A printed confidence interval: the dots become decimal points and the
      en dash between two digits becomes "to". */
  lemma TranslateExample()
    ensures ApplyAll(Trans, "1\U{00B7}2\U{2013}3\U{00B7}4") == "1.2 to 3.4"
  {
    TranslateSpec("1\U{00B7}2\U{2013}3\U{00B7}4");
    ExampleDots();
    ExampleDash();
    ExampleHyphen();
  }

  // ------------------------------------------------------------------
  // findnear

  /** One `re.findall` match: the label, the text between the label and the
      interval, and the interval's bounds. */
  datatype Match = Match(name: string, before: string, low: string, high: string)

  /** The dictionary key `(min_, max_)`. */
  type Key = (string, string)

  function KeyOf(m: Match): Key
  {
    (m.low, m.high)
  }

  /** The default distance `9**9`. */
  const Sentinel: nat := 387420489

  /** A value of `groups`: the label and its distance, or the None that
      `groups.get(key)` stores for a first match that is not nearer than the
      default distance. */
  datatype Cell = Kept(name: string, dist: nat) | Missing

  /** The dictionary `groups`: its keys in insertion order, and its values. */
  datatype Table = Table(order: seq<Key>, cells: map<Key, Cell>)

  ghost predicate WellFormed(t: Table)
  {
    forall k :: k in t.cells <==> k in t.order
  }

  /** The body of the grouping loop for one match. */
  function Step(t: Table, m: Match): (r: Result<Table>)
    requires WellFormed(t)
    ensures r.Ok? ==> WellFormed(r.value)
  {
    var k := KeyOf(m);
    if k in t.cells then
      match t.cells[k]
      case Missing => Err("TypeError: 'NoneType' object is not subscriptable")
      case Kept(_, d) =>
        if d > |m.before| then Ok(Table(t.order, t.cells[k := Kept(m.name, |m.before|)])) else Ok(t)
    else if Sentinel > |m.before| then Ok(Table(t.order + [k], t.cells[k := Kept(m.name, |m.before|)]))
    else Ok(Table(t.order + [k], t.cells[k := Missing]))
  }

  /** The dictionary after the grouping loop has seen all of ms. */
  function Grouped(ms: seq<Match>): (r: Result<Table>)
    ensures r.Ok? ==> WellFormed(r.value)
    decreases |ms|
  {
    if |ms| == 0 then Ok(Table([], map[]))
    else
      match Grouped(ms[..|ms| - 1])
      case Err(e) => Err(e)
      case Ok(t) => Step(t, ms[|ms| - 1])
  }

  /** One result of `findnear`: `(label, min, max)`. */
  datatype Near = Near(name: string, low: string, high: string)

  /** `list(map(lambda x: (x[1][0], *x[0]), groups.items()))`. */
  function Emit(order: seq<Key>, cells: map<Key, Cell>): (r: Result<seq<Near>>)
    requires forall i :: 0 <= i < |order| ==> order[i] in cells
    ensures r.Ok? <==> forall i :: 0 <= i < |order| ==> cells[order[i]].Kept?
    ensures r.Ok? ==> |r.value| == |order|
    ensures r.Ok? ==> forall i :: 0 <= i < |order| ==>
      r.value[i] == Near(cells[order[i]].name, order[i].0, order[i].1)
    decreases |order|
  {
    if |order| == 0 then Ok([])
    else
      var k := order[|order| - 1];
      match (Emit(order[..|order| - 1], cells), cells[k])
      case (Err(e), _) => Err(e)
      case (_, Missing) => Err("TypeError: 'NoneType' object is not subscriptable")
      case (Ok(rs), Kept(l, _)) => Ok(rs + [Near(l, k.0, k.1)])
  }

  /** What `findnear` returns after its matches are collected. */
  function FindNearOf(ms: seq<Match>): Result<seq<Near>>
  {
    match Grouped(ms)
    case Err(e) => Err(e)
    case Ok(t) => Emit(t.order, t.cells)
  }

  /** The matches of every label in turn, `({label})` followed by the
      pattern; `findall` stands for `re.findall(..., re.I)`. */
  function AllMatches(text: string, labels: seq<string>, pattern: string, findall: (string, string) -> seq<Match>): seq<Match>
    decreases |labels|
  {
    if |labels| == 0 then []
    else AllMatches(text, labels[..|labels| - 1], pattern, findall) + findall("(" + labels[|labels| - 1] + ")" + pattern, text)
  }

  /** An error of the loop on a prefix is the error of the whole loop. */
  lemma GroupedErrStays(ms: seq<Match>, a: nat)
    requires a <= |ms| && Grouped(ms[..a]).Err?
    ensures Grouped(ms) == Grouped(ms[..a])
  {
    var b := a;
    while b < |ms|
      invariant a <= b <= |ms|
      invariant Grouped(ms[..b]) == Grouped(ms[..a])
    {
      assert ms[..b + 1][..b] == ms[..b];
      b := b + 1;
    }
    assert ms[..b] == ms;
  }

  /** `findnear`: collect the matches of every label, keep the nearest label
      of every interval in a dictionary, and list the dictionary. */
  method FindNear(text: string, labels: seq<string>, pattern: string, findall: (string, string) -> seq<Match>)
    returns (r: Result<seq<Near>>)
    ensures r == FindNearOf(AllMatches(text, labels, pattern, findall))
  {
    var matches := CollectMatches(text, labels, pattern, findall);
    var groups := GroupMatches(matches);
    match groups
    case Err(e) => r := Err(e);
    case Ok(t) => r := Emit(t.order, t.cells);
  }

  /** The loop over the labels that concatenates their matches. */
  method CollectMatches(text: string, labels: seq<string>, pattern: string, findall: (string, string) -> seq<Match>)
    returns (matches: seq<Match>)
    ensures matches == AllMatches(text, labels, pattern, findall)
  {
    matches := [];
    var i := 0;
    while i < |labels|
      invariant 0 <= i <= |labels|
      invariant matches == AllMatches(text, labels[..i], pattern, findall)
    {
      assert labels[..i + 1][..i] == labels[..i];
      matches := matches + findall("(" + labels[i] + ")" + pattern, text);
      i := i + 1;
    }
    assert labels[..i] == labels;
  }

  /** The grouping loop: the dictionary of intervals, or the TypeError of
      comparing against a None cell. */
  method GroupMatches(matches: seq<Match>) returns (r: Result<Table>)
    ensures r == Grouped(matches)
  {
    var order: seq<Key> := [];
    var cells: map<Key, Cell> := map[];
    var j := 0;
    while j < |matches|
      invariant 0 <= j <= |matches|
      invariant Grouped(matches[..j]) == Ok(Table(order, cells))
    {
      var m := matches[j];
      var k := KeyOf(m);
      GroupedStep(matches, j);
      if k in cells && cells[k].Missing? {
        GroupedErrStays(matches, j + 1);
        return Err("TypeError: 'NoneType' object is not subscriptable");
      }
      if k in cells {
        if cells[k].dist > |m.before| {
          cells := cells[k := Kept(m.name, |m.before|)];
        }
      } else if Sentinel > |m.before| {
        order := order + [k];
        cells := cells[k := Kept(m.name, |m.before|)];
      } else {
        order := order + [k];
        cells := cells[k := Missing];
      }
      j := j + 1;
    }
    assert matches[..j] == matches;
    r := Ok(Table(order, cells));
  }

  function KeySeq(ms: seq<Match>): (r: seq<Key>)
    ensures |r| == |ms|
    ensures forall i :: 0 <= i < |ms| ==> r[i] == KeyOf(ms[i])
  {
    seq(|ms|, i requires 0 <= i < |ms| => KeyOf(ms[i]))
  }

  /** Match p is the first with its interval. */
  ghost predicate FirstOfKey(ms: seq<Match>, p: nat)
  {
    p < |ms| && forall q :: 0 <= q < p ==> KeyOf(ms[q]) != KeyOf(ms[p])
  }

  /** Match p is a nearest one for key k: no match of k is nearer, and every
      earlier match of k is strictly farther. */
  ghost predicate Nearest(ms: seq<Match>, k: Key, p: nat)
  {
    p < |ms| && KeyOf(ms[p]) == k
    && (forall q :: 0 <= q < |ms| && KeyOf(ms[q]) == k ==> |ms[q].before| >= |ms[p].before|)
    && (forall q :: 0 <= q < p && KeyOf(ms[q]) == k ==> |ms[q].before| > |ms[p].before|)
  }

  /** Some match of ms has interval k. */
  ghost predicate HasKey(ms: seq<Match>, k: Key)
  {
    exists q :: 0 <= q < |ms| && KeyOf(ms[q]) == k
  }

  /** One more match extends the intervals seen by its own. */
  lemma HasKeyAppend(ms: seq<Match>, k: Key)
    requires |ms| > 0
    ensures HasKey(ms, k) <==> HasKey(ms[..|ms| - 1], k) || k == KeyOf(ms[|ms| - 1])
  {
    var n := |ms| - 1;
    if HasKey(ms[..n], k) {
      var q :| 0 <= q < n && KeyOf(ms[..n][q]) == k;
      assert KeyOf(ms[q]) == k;
    }
    if HasKey(ms, k) {
      var q :| 0 <= q < |ms| && KeyOf(ms[q]) == k;
      if q < n {
        assert KeyOf(ms[..n][q]) == k;
      }
    }
  }

  /** The dictionary after its first j + 1 matches is one step of the loop
      from the dictionary after j. */
  lemma GroupedStep(ms: seq<Match>, j: nat)
    requires j < |ms| && Grouped(ms[..j]).Ok?
    ensures Grouped(ms[..j + 1]) == Step(Grouped(ms[..j]).value, ms[j])
  {
    assert ms[..j + 1][..j] == ms[..j];
  }

  /** The dictionary holds exactly the intervals of the matches. */
  lemma {:induction false} GroupedKeys(ms: seq<Match>)
    requires Grouped(ms).Ok?
    ensures forall k :: k in Grouped(ms).value.cells <==> HasKey(ms, k)
    decreases |ms|
  {
    if |ms| > 0 {
      var n := |ms| - 1;
      var pre := ms[..n];
      GroupedKeys(pre);
      var t := Grouped(pre).value;
      var t' := Grouped(ms).value;
      assert forall k :: k in t'.cells <==> k in t.cells || k == KeyOf(ms[n]);
      forall k ensures HasKey(ms, k) <==> HasKey(pre, k) || k == KeyOf(ms[n]) {
        HasKeyAppend(ms, k);
      }
    }
  }

  /** The keys are listed in order of first appearance. */
  lemma {:induction false} GroupedOrder(ms: seq<Match>)
    requires Grouped(ms).Ok?
    ensures Grouped(ms).value.order == KeySeq(DedupBy(ms, KeyOf))
    decreases |ms|
  {
    if |ms| > 0 {
      var n := |ms| - 1;
      var pre := ms[..n];
      GroupedOrder(pre);
      GroupedKeys(pre);
      assert ms == pre + [ms[n]];
      OrderStep(pre, ms[n], Grouped(pre).value);
    }
  }

  /** One step of the loop appends the interval of a match exactly when
      it is the first match of that interval. */
  lemma OrderStep(pre: seq<Match>, m: Match, t: Table)
    requires WellFormed(t) && Step(t, m).Ok?
    requires t.order == KeySeq(DedupBy(pre, KeyOf))
    requires KeyOf(m) in t.cells <==> HasKey(pre, KeyOf(m))
    ensures Step(t, m).value.order == KeySeq(DedupBy(pre + [m], KeyOf))
  {
    var d := DedupBy(pre, KeyOf);
    assert (pre + [m])[..|pre|] == pre;
    DedupByKeys(pre, KeyOf);
    HasKeyKeysOf(pre, KeyOf(m));
    assert KeySeq(d + [m]) == KeySeq(d) + [KeyOf(m)];
  }

  /** HasKey is membership in the set of intervals. */
  lemma HasKeyKeysOf(ms: seq<Match>, k: Key)
    ensures HasKey(ms, k) <==> k in KeysOf(ms, KeyOf)
  {
    if HasKey(ms, k) {
      var q :| 0 <= q < |ms| && KeyOf(ms[q]) == k;
      assert KeyOf(ms[q]) in KeysOf(ms, KeyOf);
    }
    if k in KeysOf(ms, KeyOf) {
      var q :| 0 <= q < |ms| && KeyOf(ms[q]) == k;
    }
  }

  /** The cell of key k holds the nearest match of k. */
  ghost predicate KeptNearest(ms: seq<Match>, cells: map<Key, Cell>, k: Key)
    requires k in cells
  {
    cells[k].Kept? ==> exists p: nat :: Nearest(ms, k, p) && cells[k] == Kept(ms[p].name, |ms[p].before|)
  }

  /** Every kept label is the nearest one, the first of the nearest on a tie. */
  lemma {:induction false} GroupedNearest(ms: seq<Match>)
    requires Grouped(ms).Ok?
    ensures forall k :: k in Grouped(ms).value.cells ==> KeptNearest(ms, Grouped(ms).value.cells, k)
    decreases |ms|
  {
    if |ms| > 0 {
      var n := |ms| - 1;
      var pre := ms[..n];
      var t := Grouped(pre).value;
      var t' := Grouped(ms).value;
      GroupedNearest(pre);
      GroupedKeys(pre);
      assert Step(t, ms[n]) == Ok(t');
      forall k | k in t'.cells ensures KeptNearest(ms, t'.cells, k) {
        NearestStep(ms, t, t', k);
      }
    }
  }

  /** One step of the loop keeps the cell of key k nearest. */
  lemma NearestStep(ms: seq<Match>, t: Table, t': Table, k: Key)
    requires |ms| > 0 && WellFormed(t)
    requires Step(t, ms[|ms| - 1]) == Ok(t') && k in t'.cells
    requires k in t.cells <==> HasKey(ms[..|ms| - 1], k)
    requires k in t.cells ==> KeptNearest(ms[..|ms| - 1], t.cells, k)
    ensures KeptNearest(ms, t'.cells, k)
  {
    var n := |ms| - 1;
    var m := ms[n];
    if k != KeyOf(m) || (k in t.cells && t'.cells[k] == t.cells[k]) {
      KeptNearestExtends(ms, t.cells, k);
    } else if t'.cells[k].Kept? {
      assert t'.cells[k] == Kept(m.name, |m.before|);
      forall q | 0 <= q < n && KeyOf(ms[q]) == k ensures |ms[q].before| > |m.before| {
        assert KeyOf(ms[..n][q]) == k;
        var p: nat :| Nearest(ms[..n], k, p) && t.cells[k] == Kept(ms[..n][p].name, |ms[..n][p].before|);
        assert |ms[..n][q].before| >= |ms[..n][p].before|;
      }
      assert Nearest(ms, k, n);
    }
  }

  /** A nearest match of the loop so far stays nearest after one more match
      when the cell of its key did not change. */
  lemma KeptNearestExtends(ms: seq<Match>, cells: map<Key, Cell>, k: Key)
    requires |ms| > 0 && k in cells
    requires KeptNearest(ms[..|ms| - 1], cells, k)
    requires cells[k].Kept? && KeyOf(ms[|ms| - 1]) == k ==> cells[k].dist <= |ms[|ms| - 1].before|
    ensures KeptNearest(ms, cells, k)
  {
    var n := |ms| - 1;
    if cells[k].Kept? {
      var p: nat :| Nearest(ms[..n], k, p) && cells[k] == Kept(ms[..n][p].name, |ms[..n][p].before|);
      assert forall q :: 0 <= q < n ==> ms[..n][q] == ms[q];
      assert Nearest(ms, k, p);
    }
  }

  /** When every interval's first match is nearer than the default distance,
      the loop keeps a label for every interval. */
  lemma {:induction false} GroupedAllKept(ms: seq<Match>)
    requires forall p: nat :: FirstOfKey(ms, p) ==> |ms[p].before| < Sentinel
    ensures Grouped(ms).Ok?
    ensures forall k :: k in Grouped(ms).value.cells ==> Grouped(ms).value.cells[k].Kept?
    decreases |ms|
  {
    if |ms| > 0 {
      var n := |ms| - 1;
      var pre := ms[..n];
      forall p: nat | FirstOfKey(pre, p) ensures |pre[p].before| < Sentinel {
        FirstOfKeyPrefix(ms, p);
      }
      GroupedAllKept(pre);
      GroupedKeys(pre);
      if !HasKey(pre, KeyOf(ms[n])) {
        FirstOfKeyLast(ms);
      }
      AllKeptStep(Grouped(pre).value, ms[n]);
    }
  }

  /** A first match of its interval in a prefix is also first in the whole. */
  lemma FirstOfKeyPrefix(ms: seq<Match>, p: nat)
    requires |ms| > 0 && FirstOfKey(ms[..|ms| - 1], p)
    ensures FirstOfKey(ms, p) && ms[..|ms| - 1][p] == ms[p]
  {
    var pre := ms[..|ms| - 1];
    assert forall q :: 0 <= q <= p ==> pre[q] == ms[q];
  }

  /** The last match is the first of its interval when no earlier match has it. */
  lemma FirstOfKeyLast(ms: seq<Match>)
    requires |ms| > 0 && !HasKey(ms[..|ms| - 1], KeyOf(ms[|ms| - 1]))
    ensures FirstOfKey(ms, |ms| - 1)
  {
    var n := |ms| - 1;
    forall q | 0 <= q < n ensures KeyOf(ms[q]) != KeyOf(ms[n]) {
      assert ms[..n][q] == ms[q];
    }
  }

  /** A step over a dictionary of kept labels keeps only labels when a new
      interval arrives nearer than the default distance. */
  lemma AllKeptStep(t: Table, m: Match)
    requires WellFormed(t) && forall k :: k in t.cells ==> t.cells[k].Kept?
    requires KeyOf(m) !in t.cells ==> |m.before| < Sentinel
    ensures Step(t, m).Ok?
    ensures forall k :: k in Step(t, m).value.cells ==> Step(t, m).value.cells[k].Kept?
  {
  }

  /** A first match of an interval that is not nearer than the default
      distance leaves a None in the dictionary, which raises later. */
  lemma {:induction false} GroupedMissing(ms: seq<Match>, p: nat, n: nat)
    requires FirstOfKey(ms, p) && |ms[p].before| >= Sentinel && p < n <= |ms|
    ensures Grouped(ms[..n]).Err?
         || (KeyOf(ms[p]) in Grouped(ms[..n]).value.cells && Grouped(ms[..n]).value.cells[KeyOf(ms[p])] == Missing)
    decreases n
  {
    var k := KeyOf(ms[p]);
    var pre := ms[..n - 1];
    assert ms[..n][..n - 1] == pre;
    if n - 1 == p {
      if Grouped(pre).Ok? {
        GroupedKeys(pre);
        forall q | 0 <= q < p ensures KeyOf(pre[q]) != k {
          assert pre[q] == ms[q];
        }
      }
    } else {
      GroupedMissing(ms, p, n - 1);
    }
  }

  /** `findnear` returns exactly when every interval's first match is nearer
      than the default distance 9**9. */
  lemma FindNearOk(ms: seq<Match>)
    ensures FindNearOf(ms).Ok? <==> forall p: nat :: FirstOfKey(ms, p) ==> |ms[p].before| < Sentinel
  {
    if forall p: nat :: FirstOfKey(ms, p) ==> |ms[p].before| < Sentinel {
      GroupedAllKept(ms);
    } else {
      var p: nat :| FirstOfKey(ms, p) && |ms[p].before| >= Sentinel;
      GroupedMissing(ms, p, |ms|);
      assert ms[..|ms|] == ms;
      if Grouped(ms).Ok? {
        var t := Grouped(ms).value;
        var i :| 0 <= i < |t.order| && t.order[i] == KeyOf(ms[p]);
      }
    }
  }

  /** The intervals of a successful `findnear`, in order of first
      appearance, each once. */
  lemma FindNearOrder(ms: seq<Match>)
    requires FindNearOf(ms).Ok?
    ensures Grouped(ms).value.order == KeySeq(DedupBy(ms, KeyOf))
    ensures NoDup(KeySeq(DedupBy(ms, KeyOf)))
  {
    GroupedOrder(ms);
    var d := DedupBy(ms, KeyOf);
    DedupByDistinct(ms, KeyOf);
    assert forall i, j :: 0 <= i < j < |d| ==> KeyOf(d[i]) != KeyOf(d[j]);
  }

  /** A successful `findnear` lists one `(label, min, max)` per interval, in
      order of first appearance, with the nearest label (the first of the
      nearest ones on a tie). */
  lemma FindNearSpec(ms: seq<Match>)
    requires FindNearOf(ms).Ok?
    ensures
      var order := KeySeq(DedupBy(ms, KeyOf));
      var r := FindNearOf(ms).value;
      NoDup(order) && |r| == |order|
      && forall i :: 0 <= i < |order| ==>
           r[i].low == order[i].0 && r[i].high == order[i].1
           && exists p: nat :: Nearest(ms, order[i], p) && r[i].name == ms[p].name
  {
    FindNearOrder(ms);
    GroupedNearest(ms);
    var t := Grouped(ms).value;
    var r := FindNearOf(ms).value;
    forall i | 0 <= i < |t.order|
      ensures exists p: nat :: Nearest(ms, t.order[i], p) && r[i].name == ms[p].name
    {
      assert t.order[i] in t.cells;
      assert KeptNearest(ms, t.cells, t.order[i]);
    }
  }
}
