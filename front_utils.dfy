// The text utilities of the web front end: the highlighted keywords between
// tags, the closing of unclosed `<span>` tags, and the citation label.

module FrontUtils {
  import opened PyLib
  import opened Aggregation

  // ------------------------------------------------------------------
  // JavaScript strings

  /** `s.indexOf(sub, from)`: the first occurrence at or after `from`, -1 when
      there is none; the empty string is found at `from`, clamped to the length. */
  function IndexOf(s: string, sub: string, from: nat): (r: int)
    ensures r >= -1
    ensures |sub| > 0 && r != -1 ==> from <= r && OccursAt(s, sub, r)
    ensures |sub| == 0 ==> r == Min(from, |s|)
  {
    match FindFrom(s, sub, from)
    case Some(i) => i
    case None => if |sub| == 0 then |s| else -1
  }

  /** -1 means sub occurs nowhere from `from` on; any other result is its
      first occurrence there. */
  lemma IndexOfSpec(s: string, sub: string, from: nat)
    requires |sub| > 0
    ensures IndexOf(s, sub, from) == -1 <==> forall i :: from <= i ==> !OccursAt(s, sub, i)
    ensures IndexOf(s, sub, from) != -1 ==> forall i :: from <= i < IndexOf(s, sub, from) ==> !OccursAt(s, sub, i)
  {
  }

  /** The default tags around a highlighted keyword. */
  const DefaultOpen := "<span class='hglt'>"
  const DefaultClose := "</span>"

  // ------------------------------------------------------------------
  // filterTextTitleByTag and filterTextKeywordsByTag

  /** The keywords the search loop pushes, from the current open-tag index
      `first` and close-tag index `last` on. A missing close tag gives -1,
      so the slice ends one before the end of the text and the next search
      for a close tag starts again at 0. */
  function TagCandidates(text: string, open: string, close: string, first: int, last: int): seq<string>
    requires |open| > 0 && last >= -1
    requires first == -1 || 0 <= first <= |text|
    decreases if first == -1 then 0 else |text| + 2 - first
  {
    if first == -1 then []
    else
      [Slice(text, first + |open|, last)]
      + TagCandidates(text, open, close, IndexOf(text, open, first + 1), IndexOf(text, close, last + 1))
  }

  /** The keywords pushed for one text, before deduplication. */
  function TextCandidates(text: string, open: string, close: string): seq<string>
    requires |open| > 0
  {
    TagCandidates(text, open, close, IndexOf(text, open, 0), IndexOf(text, close, 0))
  }

  /** The search loop of both functions: push the text between every open
      tag and its close tag onto `keywords`. */
  method PushCandidates(text: string, open: string, close: string, keywords: seq<string>)
    returns (r: seq<string>)
    requires |open| > 0
    ensures r == keywords + TextCandidates(text, open, close)
  {
    r := keywords;
    var first := IndexOf(text, open, 0);
    var last := IndexOf(text, close, 0);
    while first != -1
      invariant first == -1 || 0 <= first <= |text|
      invariant last >= -1
      invariant r + TagCandidates(text, open, close, first, last) == keywords + TextCandidates(text, open, close)
      decreases if first == -1 then 0 else |text| + 2 - first
    {
      var k := Slice(text, first + |open|, last);
      var first', last' := IndexOf(text, open, first + 1), IndexOf(text, close, last + 1);
      CandidatesStep(text, open, close, first, last, first', last');
      assert r + ([k] + TagCandidates(text, open, close, first', last'))
          == (r + [k]) + TagCandidates(text, open, close, first', last');
      r := r + [k];
      first, last := first', last';
    }
  }

  /** `filterTextTitleByTag`: the distinct keywords of one text. */
  method FilterTextTitleByTag(text: string, open: string, close: string) returns (r: seq<string>)
    requires |open| > 0
    ensures r == Dedup(TextCandidates(text, open, close))
  {
    var keywords := PushCandidates(text, open, close, []);
    assert [] + TextCandidates(text, open, close) == TextCandidates(text, open, close);
    r := Dedup(keywords);
  }

  /** The argument of `filterTextKeywordsByTag`: one string or an array. */
  datatype TextInput = Text(s: string) | Texts(items: seq<string>)

  /** The keywords pushed for every element of an array, in turn. */
  function ItemsCandidates(items: seq<string>, open: string, close: string): seq<string>
    requires |open| > 0
    decreases |items|
  {
    if |items| == 0 then []
    else ItemsCandidates(items[..|items| - 1], open, close) + TextCandidates(items[|items| - 1], open, close)
  }

  /** What `filterTextKeywordsByTag` returns. */
  function KeywordsOf(text: TextInput, open: string, close: string): seq<string>
    requires |open| > 0
  {
    match text
    case Text(s) => Dedup(TextCandidates(s, open, close))
    case Texts(items) => Dedup(ItemsCandidates(items, open, close))
  }

  /** `filterTextKeywordsByTag`: a string is handed to `filterTextTitleByTag`;
      for an array the keywords of every element go into one list, which
      is then deduplicated. */
  method FilterTextKeywordsByTag(text: TextInput, open: string, close: string) returns (r: seq<string>)
    requires |open| > 0
    ensures r == KeywordsOf(text, open, close)
  {
    match text
    case Text(s) =>
      r := FilterTextTitleByTag(s, open, close);
    case Texts(items) =>
      var keywords := [];
      for i := 0 to |items|
        invariant keywords == ItemsCandidates(items[..i], open, close)
      {
        assert items[..i + 1][..i] == items[..i];
        keywords := PushCandidates(items[i], open, close, keywords);
      }
      assert items[..|items|] == items;
      r := Dedup(keywords);
  }

  // ------------------------------------------------------------------
  // Properties of the keyword search

  /** The positions of every occurrence of sub at or after `from`, found by
      looking at every position in turn. */
  function Occurrences(s: string, sub: string, from: nat): (r: seq<nat>)
    decreases |s| - from
  {
    if from >= |s| then []
    else (if OccursAt(s, sub, from) then [from] else []) + Occurrences(s, sub, from + 1)
  }

  lemma {:induction false} OccurrencesNone(s: string, sub: string, from: nat)
    requires forall i :: from <= i ==> !OccursAt(s, sub, i)
    ensures Occurrences(s, sub, from) == []
    decreases |s| - from
  {
    if from < |s| {
      OccurrencesNone(s, sub, from + 1);
    }
  }

  lemma {:induction false} OccurrencesSkip(s: string, sub: string, a: nat, b: nat)
    requires a <= b <= |s|
    requires forall i :: a <= i < b ==> !OccursAt(s, sub, i)
    ensures Occurrences(s, sub, a) == Occurrences(s, sub, b)
    decreases b - a
  {
    if a < b {
      OccurrencesSkip(s, sub, a + 1, b);
    }
  }

  /** One keyword is pushed per occurrence of the open tag, whatever the
      close tags are. */
  lemma {:induction false} CandidatesPerOpenTag(text: string, open: string, close: string, from: nat, first: int, last: int)
    requires |open| > 0 && last >= -1 && from <= |text| && first == IndexOf(text, open, from)
    ensures |TagCandidates(text, open, close, first, last)| == |Occurrences(text, open, from)|
    decreases |text| - from
  {
    if first == -1 {
      CountNone(text, open, from);
    } else {
      var first', last' := IndexOf(text, open, first + 1), IndexOf(text, close, last + 1);
      CountSkip(text, open, from, first);
      CandidatesPerOpenTag(text, open, close, first + 1, first', last');
      CandidatesStep(text, open, close, first, last, first', last');
    }
  }

  /** No open tag found: no occurrence is left. */
  lemma CountNone(text: string, open: string, from: nat)
    requires |open| > 0 && IndexOf(text, open, from) == -1
    ensures Occurrences(text, open, from) == []
  {
    IndexOfSpec(text, open, from);
    OccurrencesNone(text, open, from);
  }

  /** An open tag found at p: it is the next occurrence. */
  lemma CountSkip(text: string, open: string, from: nat, p: nat)
    requires |open| > 0 && IndexOf(text, open, from) == p
    ensures p + |open| <= |text|
    ensures Occurrences(text, open, from) == [p] + Occurrences(text, open, p + 1)
  {
    IndexOfSpec(text, open, from);
    OccurrencesSkip(text, open, from, p);
  }

  /** `filterTextTitleByTag` looks at one keyword per open tag of its text. */
  lemma TextCandidatesCount(text: string, open: string, close: string)
    requires |open| > 0
    ensures |TextCandidates(text, open, close)| == |Occurrences(text, open, 0)|
  {
    CandidatesPerOpenTag(text, open, close, 0, IndexOf(text, open, 0), IndexOf(text, close, 0));
  }

  /** A text without the open tag has no keywords. */
  lemma NoOpenTagNoKeywords(text: string, open: string, close: string)
    requires |open| > 0
    requires forall i :: !OccursAt(text, open, i)
    ensures KeywordsOf(Text(text), open, close) == []
  {
  }

  /** The result holds every pushed keyword once, in order of first
      occurrence. */
  lemma KeywordsSpec(text: string, open: string, close: string)
    requires |open| > 0
    ensures var r := KeywordsOf(Text(text), open, close);
      var cs := TextCandidates(text, open, close);
      NoDup(r) && (forall k :: k in r <==> k in cs)
      && forall i, j :: 0 <= i < j < |r| ==> FirstIndex(cs, r[i]) < FirstIndex(cs, r[j])
  {
    DedupSpec(TextCandidates(text, open, close));
    DedupOrder(TextCandidates(text, open, close));
  }

  /** The keywords pushed for each element of an array. */
  function PerItem(items: seq<string>, open: string, close: string): (r: seq<seq<string>>)
    requires |open| > 0
    ensures |r| == |items| && forall i :: 0 <= i < |items| ==> r[i] == TextCandidates(items[i], open, close)
  {
    seq(|items|, i requires 0 <= i < |items| => TextCandidates(items[i], open, close))
  }

  /** The keywords pushed for an array are those of its elements, in turn. */
  lemma {:induction false} ItemsCandidatesFlatten(items: seq<string>, open: string, close: string)
    requires |open| > 0
    ensures ItemsCandidates(items, open, close) == Flatten(PerItem(items, open, close))
    decreases |items|
  {
    if |items| > 0 {
      var n := |items| - 1;
      ItemsCandidatesFlatten(items[..n], open, close);
      assert PerItem(items, open, close)[..n] == PerItem(items[..n], open, close);
    }
  }

  /** On an array, the result holds every keyword of every element once. */
  lemma KeywordsOfArraySpec(items: seq<string>, open: string, close: string)
    requires |open| > 0
    ensures var r := KeywordsOf(Texts(items), open, close);
      NoDup(r) && forall k :: k in r <==> exists i :: 0 <= i < |items| && k in TextCandidates(items[i], open, close)
  {
    DedupSpec(ItemsCandidates(items, open, close));
    ItemsCandidatesFlatten(items, open, close);
    var gs := PerItem(items, open, close);
    forall k ensures k in ItemsCandidates(items, open, close) <==>
      exists i :: 0 <= i < |items| && k in TextCandidates(items[i], open, close)
    {
      FlattenMember(gs, k);
    }
  }

  /** An array of one string gives the keywords of that string. */
  lemma KeywordsOfSingleton(s: string, open: string, close: string)
    requires |open| > 0
    ensures KeywordsOf(Texts([s]), open, close) == KeywordsOf(Text(s), open, close)
  {
    assert [s][..0] == [];
    assert ItemsCandidates([s], open, close) == TextCandidates(s, open, close);
  }

  // ------------------------------------------------------------------
  // Well-formed tagged text

  /** Both tags start with the character c, hold it nowhere else, and
      neither is a prefix of the other. */
  predicate Delimiters(open: string, close: string, c: char)
  {
    |open| > 0 && |close| > 0 && open[0] == c && close[0] == c
    && (forall i :: 1 <= i < |open| ==> open[i] != c)
    && (forall i :: 1 <= i < |close| ==> close[i] != c)
    && open[..Min(|open|, |close|)] != close[..Min(|open|, |close|)]
  }

  lemma DefaultDelimiters()
    ensures Delimiters(DefaultOpen, DefaultClose, '<')
  {
    assert DefaultOpen[..7][1] == 's' && DefaultClose[..7][1] == '/';
  }

  /** `open + k + close` for every keyword k in turn. */
  function Tagged(open: string, close: string, ks: seq<string>): string
    decreases |ks|
  {
    if |ks| == 0 then "" else open + ks[0] + close + Tagged(open, close, ks[1..])
  }

  /** Where one tag occurs, the other does not. */
  lemma TagsExclusive(s: string, open: string, close: string, c: char, p: nat)
    requires Delimiters(open, close, c)
    ensures OccursAt(s, open, p) ==> !OccursAt(s, close, p)
    ensures OccursAt(s, close, p) ==> !OccursAt(s, open, p)
  {
    var m := Min(|open|, |close|);
    if OccursAt(s, open, p) && p + |close| <= |s| {
      assert s[p..p + |close|][..m] == s[p..p + |open|][..m];
    }
    if OccursAt(s, close, p) && p + |open| <= |s| {
      assert s[p..p + |close|][..m] == s[p..p + |open|][..m];
    }
  }

  /** A tag does not occur where the text does not hold c. */
  lemma NoCharNoTag(s: string, sub: string, c: char, lo: nat, hi: nat)
    requires |sub| > 0 && sub[0] == c && hi <= |s|
    requires forall i :: lo <= i < hi ==> s[i] != c
    ensures forall i :: lo <= i < hi ==> !OccursAt(s, sub, i)
  {
    forall i | lo <= i < hi ensures !OccursAt(s, sub, i) {
      if i + |sub| <= |s| {
        assert s[i..i + |sub|][0] == s[i];
      }
    }
  }

  /** The tags of one `open + w + close` at position y, and its keyword. */
  lemma TriplePieces(t: string, open: string, close: string, w: string, y: nat)
    requires y + |open| + |w| + |close| <= |t|
    requires t[y..y + |open| + |w| + |close|] == open + w + close
    ensures OccursAt(t, open, y) && OccursAt(t, close, y + |open| + |w|)
    ensures t[y + |open|..y + |open| + |w|] == w
  {
    var u := open + w + close;
    SubSlice(t, y, u, 0, |open|);
    assert u[0..|open|] == open;
    SubSlice(t, y, u, |open| + |w|, |u|);
    assert u[|open| + |w|..|u|] == close;
    TripleMiddle(t, y, open, w, close);
  }

  /** Inside one `open + w + close`, c stands only at the start of each tag. */
  lemma TripleNoChar(t: string, open: string, close: string, c: char, w: string, y: nat)
    requires Delimiters(open, close, c) && c !in w
    requires y + |open| + |w| + |close| <= |t|
    requires t[y..y + |open| + |w| + |close|] == open + w + close
    ensures forall i :: y + 1 <= i < y + |open| + |w| ==> t[i] != c
    ensures forall i :: y + |open| + |w| + 1 <= i < y + |open| + |w| + |close| ==> t[i] != c
  {
    var e := y + |open| + |w|;
    var u := open + w + close;
    forall i | y + 1 <= i < e ensures t[i] != c {
      assert t[i] == t[y..e + |close|][i - y] == u[i - y];
      if i < y + |open| {
        assert u[i - y] == open[i - y];
      } else {
        assert u[i - y] == w[i - y - |open|];
        assert w[i - y - |open|] in w;
      }
    }
    forall i | e + 1 <= i < e + |close| ensures t[i] != c {
      assert t[i] == t[y..e + |close|][i - y] == u[i - y] == close[i - e];
    }
  }

  /** After its own start, one `open + w + close` holds no open tag. */
  lemma TripleNoOpen(t: string, open: string, close: string, c: char, w: string, y: nat)
    requires Delimiters(open, close, c) && c !in w
    requires y + |open| + |w| + |close| <= |t|
    requires t[y..y + |open| + |w| + |close|] == open + w + close
    ensures forall i :: y + 1 <= i < y + |open| + |w| + |close| ==> !OccursAt(t, open, i)
  {
    var e := y + |open| + |w|;
    TripleNoChar(t, open, close, c, w, y);
    TriplePieces(t, open, close, w, y);
    TagsExclusive(t, open, close, c, e);
    NoCharNoTag(t, open, c, y + 1, e);
    NoCharNoTag(t, open, c, e + 1, e + |close|);
  }

  /** One `open + w + close` holds its close tag only after w. */
  lemma TripleNoClose(t: string, open: string, close: string, c: char, w: string, y: nat)
    requires Delimiters(open, close, c) && c !in w
    requires y + |open| + |w| + |close| <= |t|
    requires t[y..y + |open| + |w| + |close|] == open + w + close
    ensures forall i :: y <= i < y + |open| + |w| ==> !OccursAt(t, close, i)
    ensures forall i :: y + |open| + |w| + 1 <= i < y + |open| + |w| + |close| ==> !OccursAt(t, close, i)
  {
    var e := y + |open| + |w|;
    TripleNoChar(t, open, close, c, w, y);
    TriplePieces(t, open, close, w, y);
    TagsExclusive(t, open, close, c, y);
    NoCharNoTag(t, close, c, y + 1, e);
    NoCharNoTag(t, close, c, e + 1, e + |close|);
  }

  /** Keywords without c, between well-formed tags. */
  predicate PlainKeywords(ks: seq<string>, c: char)
  {
    forall k :: 0 <= k < |ks| ==> c !in ks[k]
  }

  /** After the open tag of a triple at y, the next open tag is the one of
      the triple `open + w' + close` that follows, if any. */
  lemma NextOpen(t: string, open: string, close: string, c: char, y: nat, w: string, w': string)
    requires Delimiters(open, close, c) && c !in w && c !in w'
    requires y + |open| + |w| + |close| <= |t|
    requires t[y..y + |open| + |w| + |close|] == open + w + close
    requires var z := y + |open| + |w| + |close|;
      z == |t| || (z + |open| + |w'| + |close| <= |t| && t[z..z + |open| + |w'| + |close|] == open + w' + close)
    ensures var z := y + |open| + |w| + |close|;
      IndexOf(t, open, y + 1) == if z == |t| then -1 else z
  {
    var z := y + |open| + |w| + |close|;
    TripleNoOpen(t, open, close, c, w, y);
    if z < |t| {
      TriplePieces(t, open, close, w', z);
    }
    IndexOfAfterGap(t, open, y + 1, z);
  }

  /** Past a stretch without sub, the search finds the occurrence at its
      end, or nothing when the stretch runs to the end of s. */
  lemma IndexOfAfterGap(s: string, sub: string, a: nat, b: nat)
    requires |sub| > 0 && a <= b <= |s|
    requires forall i :: a <= i < b ==> !OccursAt(s, sub, i)
    requires b == |s| || OccursAt(s, sub, b)
    ensures IndexOf(s, sub, a) == if b == |s| then -1 else b
  {
    FindFromGap(s, sub, a, b);
    if b < |s| {
      assert FindFrom(s, sub, b) == Some(b);
    } else {
      assert FindFrom(s, sub, b) == None;
    }
  }

  /** After the close tag of a triple at y, the next close tag is the one of
      the triple `open + w' + close` that follows, if any. */
  lemma NextClose(t: string, open: string, close: string, c: char, y: nat, w: string, w': string)
    requires Delimiters(open, close, c) && c !in w && c !in w'
    requires y + |open| + |w| + |close| <= |t|
    requires t[y..y + |open| + |w| + |close|] == open + w + close
    requires var z := y + |open| + |w| + |close|;
      z == |t| || (z + |open| + |w'| + |close| <= |t| && t[z..z + |open| + |w'| + |close|] == open + w' + close)
    ensures var z := y + |open| + |w| + |close|;
      IndexOf(t, close, y + |open| + |w| + 1) == if z == |t| then -1 else z + |open| + |w'|
  {
    var e := y + |open| + |w|;
    var z := e + |close|;
    TripleNoClose(t, open, close, c, w, y);
    if z == |t| {
      IndexOfAfterGap(t, close, e + 1, z);
    } else {
      var e' := z + |open| + |w'|;
      TripleNoClose(t, open, close, c, w', z);
      TriplePieces(t, open, close, w', z);
      IndexOfAfterGap(t, close, e + 1, e');
    }
  }

  /** One turn of the search loop. */
  lemma CandidatesStep(t: string, open: string, close: string, first: nat, last: int, first': int, last': int)
    requires |open| > 0 && last >= -1 && first <= |t|
    requires IndexOf(t, open, first + 1) == first' && IndexOf(t, close, last + 1) == last'
    ensures first' == -1 || 0 <= first' <= |t|
    ensures TagCandidates(t, open, close, first, last)
         == [Slice(t, first + |open|, last)] + TagCandidates(t, open, close, first', last')
  {
  }

  /** A turn of the loop that pushes ks[0] before the keywords ks[1..] of
      the turns after it. */
  lemma CandidatesCons(t: string, open: string, close: string, first: nat, last: int, first': int, last': int, ks: seq<string>)
    requires |open| > 0 && last >= -1 && first <= |t| && |ks| > 0
    requires IndexOf(t, open, first + 1) == first' && IndexOf(t, close, last + 1) == last'
    requires Slice(t, first + |open|, last) == ks[0]
    requires first' == -1 || 0 <= first' <= |t|
    requires TagCandidates(t, open, close, first', last') == ks[1..]
    ensures TagCandidates(t, open, close, first, last) == ks
  {
    CandidatesStep(t, open, close, first, last, first', last');
    assert ks == [ks[0]] + ks[1..];
  }

  /** The last turn of the loop pushes the last keyword. */
  lemma CandidatesLast(t: string, open: string, close: string, first: nat, last: int, ks: seq<string>)
    requires |open| > 0 && last >= -1 && first <= |t| && |ks| == 1
    requires IndexOf(t, open, first + 1) == -1
    requires Slice(t, first + |open|, last) == ks[0]
    ensures TagCandidates(t, open, close, first, last) == ks
  {
    CandidatesStep(t, open, close, first, last, -1, IndexOf(t, close, last + 1));
    assert ks == [ks[0]];
  }

  /** The first triple of a tagged text and the rest. */
  lemma TaggedHead(t: string, y: nat, open: string, close: string, ks: seq<string>)
    requires |ks| > 0 && y <= |t| && t[y..] == Tagged(open, close, ks)
    ensures var l := |open| + |ks[0]| + |close|;
      y + l <= |t| && t[y..y + l] == open + ks[0] + close && t[y + l..] == Tagged(open, close, ks[1..])
  {
    var u := open + ks[0] + close;
    assert t[y..] == u + Tagged(open, close, ks[1..]);
    assert t[y..y + |u|] == t[y..][..|u|];
    assert t[y + |u|..] == t[y..][|u|..];
  }

  /** The keyword of a triple, as the loop slices it. */
  lemma KeywordSlice(t: string, y: nat, open: string, w: string, close: string)
    requires y + |open| + |w| + |close| <= |t|
    requires t[y..y + |open| + |w| + |close|] == open + w + close
    ensures Slice(t, y + |open|, y + |open| + |w|) == w
  {
    TripleMiddle(t, y, open, w, close);
    SliceInRange(t, y + |open|, y + |open| + |w|);
  }

  /** The middle of a triple `open + w + close` at y is w. */
  lemma TripleMiddle(t: string, y: nat, open: string, w: string, close: string)
    requires y + |open| + |w| + |close| <= |t|
    requires t[y..y + |open| + |w| + |close|] == open + w + close
    ensures t[y + |open|..y + |open| + |w|] == w
  {
    var u := open + w + close;
    SubSlice(t, y, u, |open|, |open| + |w|);
    assert u[|open|..|open| + |w|] == w;
  }

  /** From position y on, t is made of one triple `open + k + close` per
      keyword k of ks. */
  predicate TriplesFrom(t: string, y: nat, open: string, close: string, ks: seq<string>)
    decreases |ks|
  {
    if |ks| == 0 then y == |t|
    else
      var l := |open| + |ks[0]| + |close|;
      y + l <= |t| && t[y..y + l] == open + ks[0] + close && TriplesFrom(t, y + l, open, close, ks[1..])
  }

  lemma {:induction false} TaggedTriples(t: string, y: nat, open: string, close: string, ks: seq<string>)
    requires y <= |t| && t[y..] == Tagged(open, close, ks)
    ensures TriplesFrom(t, y, open, close, ks)
    decreases |ks|
  {
    if |ks| > 0 {
      TaggedHead(t, y, open, close, ks);
      TaggedTriples(t, y + |open| + |ks[0]| + |close|, open, close, ks[1..]);
    }
  }

  /** The first two triples of a walk with more than one keyword. */
  lemma TriplesTwo(t: string, y: nat, z: nat, open: string, close: string, ks: seq<string>)
    requires |ks| > 1 && TriplesFrom(t, y, open, close, ks)
    requires z == y + |open| + |ks[0]| + |close|
    ensures z <= |t| && t[y..z] == open + ks[0] + close
    ensures TriplesFrom(t, z, open, close, ks[1..])
    ensures z + |open| + |ks[1]| + |close| <= |t| && t[z..z + |open| + |ks[1]| + |close|] == open + ks[1] + close
  {
    assert ks[1..][0] == ks[1];
  }

  /** A walk with one keyword is one triple running to the end of the text. */
  lemma TriplesOne(t: string, y: nat, open: string, close: string, ks: seq<string>)
    requires |ks| == 1 && TriplesFrom(t, y, open, close, ks)
    ensures y + |open| + |ks[0]| + |close| == |t| && t[y..|t|] == open + ks[0] + close
  {
    assert TriplesFrom(t, y + |open| + |ks[0]| + |close|, open, close, ks[1..]);
  }

  /** The last turn of the loop, over the last triple. */
  lemma WalkLast(t: string, y: nat, last: nat, open: string, close: string, c: char, w: string)
    requires Delimiters(open, close, c) && c !in w
    requires last == y + |open| + |w| && last + |close| == |t|
    requires t[y..|t|] == open + w + close
    ensures Slice(t, y + |open|, last) == w && IndexOf(t, open, y + 1) == -1
  {
    KeywordSlice(t, y, open, w, close);
    NextOpen(t, open, close, c, y, w, "");
  }

  /** A turn of the loop over a triple followed by another one. */
  lemma WalkMore(t: string, y: nat, last: nat, z: nat, open: string, close: string, c: char, w: string, w': string)
    requires Delimiters(open, close, c) && c !in w && c !in w'
    requires last == y + |open| + |w| && z == last + |close|
    requires z + |open| + |w'| + |close| <= |t|
    requires t[y..z] == open + w + close && t[z..z + |open| + |w'| + |close|] == open + w' + close
    ensures Slice(t, y + |open|, last) == w
    ensures IndexOf(t, open, y + 1) == z && IndexOf(t, close, last + 1) == z + |open| + |w'|
  {
    KeywordSlice(t, y, open, w, close);
    NextOpen(t, open, close, c, y, w, w');
    NextClose(t, open, close, c, y, w, w');
  }

  lemma {:induction false} TaggedWalk(t: string, y: nat, last: nat, open: string, close: string, c: char, ks: seq<string>)
    requires Delimiters(open, close, c) && |ks| > 0 && PlainKeywords(ks, c)
    requires TriplesFrom(t, y, open, close, ks) && last == y + |open| + |ks[0]|
    ensures TagCandidates(t, open, close, y, last) == ks
    decreases |ks|
  {
    var z := last + |close|;
    assert c !in ks[0];
    if |ks| > 1 {
      var rest := ks[1..];
      var last' := z + |open| + |ks[1]|;
      TriplesTwo(t, y, z, open, close, ks);
      assert rest[0] == ks[1] && c !in ks[1] && PlainKeywords(rest, c);
      WalkMore(t, y, last, z, open, close, c, ks[0], ks[1]);
      TaggedWalk(t, z, last', open, close, c, rest);
      CandidatesCons(t, open, close, y, last, z, last', ks);
    } else {
      TriplesOne(t, y, open, close, ks);
      WalkLast(t, y, last, open, close, c, ks[0]);
      CandidatesLast(t, open, close, y, last, ks);
    }
  }

  /** In a text made of `open + k + close` triples, with keywords that do
      not hold the tags' first character, the k-th keyword pushed is the
      text between the k-th open tag and the k-th close tag. */
  lemma TaggedRoundTrip(open: string, close: string, c: char, ks: seq<string>)
    requires Delimiters(open, close, c) && PlainKeywords(ks, c)
    ensures TextCandidates(Tagged(open, close, ks), open, close) == ks
  {
    var t := Tagged(open, close, ks);
    assert t[0..] == t;
    TaggedTriples(t, 0, open, close, ks);
    if |ks| > 0 {
      TriplesCandidates(t, open, close, c, ks);
    } else {
      IndexOfSpec(t, open, 0);
    }
  }

  /** A text of one or more triples yields their keywords. */
  lemma TriplesCandidates(t: string, open: string, close: string, c: char, ks: seq<string>)
    requires Delimiters(open, close, c) && |ks| > 0 && PlainKeywords(ks, c)
    requires TriplesFrom(t, 0, open, close, ks)
    ensures TextCandidates(t, open, close) == ks
  {
    var e := |open| + |ks[0]|;
    FirstTriple(t, open, close, c, ks);
    TaggedWalk(t, 0, e, open, close, c, ks);
  }

  /** The first searches find the first triple's tags. */
  lemma FirstTriple(t: string, open: string, close: string, c: char, ks: seq<string>)
    requires Delimiters(open, close, c) && |ks| > 0 && PlainKeywords(ks, c)
    requires TriplesFrom(t, 0, open, close, ks)
    ensures IndexOf(t, open, 0) == 0 && IndexOf(t, close, 0) == |open| + |ks[0]|
  {
    var e := |open| + |ks[0]|;
    assert c !in ks[0];
    TriplePieces(t, open, close, ks[0], 0);
    TripleNoClose(t, open, close, c, ks[0], 0);
    FindFromGap(t, close, 0, e);
    assert FindFrom(t, open, 0) == Some(0);
    assert FindFrom(t, close, e) == Some(e);
  }

  /** With distinct keywords, `filterTextTitleByTag` on tagged text returns
      exactly those keywords; the default tags qualify (DefaultDelimiters). */
  lemma FilterTaggedText(open: string, close: string, c: char, ks: seq<string>)
    requires Delimiters(open, close, c) && PlainKeywords(ks, c) && NoDup(ks)
    ensures KeywordsOf(Text(Tagged(open, close, ks)), open, close) == ks
  {
    TaggedRoundTrip(open, close, c, ks);
    DedupOfNoDup(ks);
  }

  /** With the close tag missing, the keyword runs from after the open tag to
      one before the end of the text: the last character is dropped. */
  lemma MissingCloseTag(w: string)
    requires |w| > 0 && '<' !in w
    ensures KeywordsOf(Text(DefaultOpen + w), DefaultOpen, DefaultClose) == [w[..|w| - 1]]
  {
    var t := DefaultOpen + w;
    DefaultDelimiters();
    assert t[..|DefaultOpen|] == DefaultOpen;
    assert OccursAt(t, DefaultOpen, 0);
    TagsExclusive(t, DefaultOpen, DefaultClose, '<', 0);
    forall i | 1 <= i < |t| ensures t[i] != '<' {
      if i < |DefaultOpen| {
        assert t[i] == DefaultOpen[i];
      } else {
        assert t[i] == w[i - |DefaultOpen|];
      }
    }
    NoCharNoTag(t, DefaultOpen, '<', 1, |t|);
    NoCharNoTag(t, DefaultClose, '<', 1, |t|);
    assert IndexOf(t, DefaultOpen, 0) == 0;
    assert IndexOf(t, DefaultOpen, 1) == -1;
    assert IndexOf(t, DefaultClose, 0) == -1;
    assert Slice(t, |DefaultOpen|, -1) == t[|DefaultOpen|..|t| - 1] == w[..|w| - 1];
    CandidatesStep(t, DefaultOpen, DefaultClose, 0, -1, -1, -1);
    assert TextCandidates(t, DefaultOpen, DefaultClose) == [w[..|w| - 1]];
    DedupOfNoDup([w[..|w| - 1]]);
  }

  /** For instance `<span class='hglt'>sugar` yields the keyword `suga`. */
  lemma MissingCloseTagSugar()
    ensures KeywordsOf(Text(DefaultOpen + "sugar"), DefaultOpen, DefaultClose) == ["suga"]
  {
    MissingCloseTag("sugar");
    assert "sugar"[..4] == "suga";
  }

  // ------------------------------------------------------------------
  // completeHTML

  /** The number of matches of `/<span[^>]*>/g` from position i on: an
      opening `<span` up to the next `>`. */
  function OpenSpanCount(s: string, i: nat): nat
    decreases |s| - i
  {
    if i >= |s| then 0
    else if OccursAt(s, "<span", i) then
      match FindFrom(s, ">", i + 5)
      case Some(j) => 1 + OpenSpanCount(s, j + 1)
      case None => OpenSpanCount(s, i + 1)
    else OpenSpanCount(s, i + 1)
  }

  /** The number of matches of `/<\/span>/g` from position i on. */
  function CloseSpanCount(s: string, i: nat): nat
    decreases |s| - i
  {
    if i >= |s| then 0
    else if OccursAt(s, DefaultClose, i) then 1 + CloseSpanCount(s, i + |DefaultClose|)
    else CloseSpanCount(s, i + 1)
  }

  /** `s.repeat(k)` for k >= 0. */
  function Repeat(s: string, k: nat): (r: string)
    ensures |r| == k * |s|
  {
    if k == 0 then "" else Repeat(s, k - 1) + s
  }

  /** `completeHTML`: close every unclosed `<span…>`; a count that is
      negative makes `repeat` throw. */
  function CompleteHTML(s: string): Result<string>
  {
    var k := OpenSpanCount(s, 0) - CloseSpanCount(s, 0);
    if k == 0 then Ok(s)
    else if k > 0 then Ok(s + Repeat(DefaultClose, k))
    else Err("RangeError: Invalid count value: " + IntToString(k))
  }

  /** One more close tag at the end adds one match and changes no other. */
  lemma {:induction false} CloseSpanCountAppend(x: string, i: nat)
    requires i <= |x|
    ensures CloseSpanCount(x + DefaultClose, i) == CloseSpanCount(x, i) + 1
    decreases |x| - i
  {
    var t := x + DefaultClose;
    var n := |DefaultClose|;
    if i == |x| {
      assert t[i..i + n] == DefaultClose;
      assert CloseSpanCount(t, i + n) == 0;
    } else if OccursAt(x, DefaultClose, i) {
      assert t[i..i + n] == x[i..i + n];
      CloseSpanCountAppend(x, i + n);
    } else {
      assert !OccursAt(t, DefaultClose, i) by {
        if i + n <= |x| {
          assert t[i..i + n] == x[i..i + n];
        } else {
          assert t[i..i + n][|x| - i] == t[|x|] == '<';
          assert DefaultClose[|x| - i] != '<';
        }
      }
      CloseSpanCountAppend(x, i + 1);
    }
  }

  lemma {:induction false} CloseSpanCountRepeat(s: string, k: nat)
    ensures CloseSpanCount(s + Repeat(DefaultClose, k), 0) == CloseSpanCount(s, 0) + k
  {
    if k > 0 {
      CloseSpanCountRepeat(s, k - 1);
      var p := s + Repeat(DefaultClose, k - 1);
      assert Repeat(DefaultClose, k) == Repeat(DefaultClose, k - 1) + DefaultClose;
      assert s + Repeat(DefaultClose, k) == p + DefaultClose;
      CloseSpanCountAppend(p, 0);
    } else {
      assert s + Repeat(DefaultClose, 0) == s;
    }
  }

  /** `completeHTML` succeeds exactly when the input has no more close tags
      than open ones; it then appends the missing close tags, after which the
      result has as many close tags as the input has open ones. */
  lemma CompleteHTMLSpec(s: string)
    ensures CompleteHTML(s).Ok? <==> OpenSpanCount(s, 0) >= CloseSpanCount(s, 0)
    ensures CompleteHTML(s).Ok? ==>
      var k := OpenSpanCount(s, 0) - CloseSpanCount(s, 0);
      CompleteHTML(s).value == s + Repeat(DefaultClose, k)
      && CloseSpanCount(CompleteHTML(s).value, 0) == OpenSpanCount(s, 0)
    ensures OpenSpanCount(s, 0) == CloseSpanCount(s, 0) ==> CompleteHTML(s) == Ok(s)
  {
    var k := OpenSpanCount(s, 0) - CloseSpanCount(s, 0);
    if k >= 0 {
      CloseSpanCountRepeat(s, k);
      assert s + Repeat(DefaultClose, 0) == s;
    }
  }

  /** Too near the end for an opening `<span`, nothing more is matched. */
  lemma {:induction false} OpenSpanCountTail(s: string, i: nat)
    requires i + 5 > |s|
    ensures OpenSpanCount(s, i) == 0
    decreases |s| - i
  {
    if i < |s| {
      OpenSpanCountTail(s, i + 1);
    }
  }

  /** A stretch without `</span>` is skipped. */
  lemma {:induction false} CloseSpanCountGap(s: string, a: nat, b: nat)
    requires a <= b <= |s|
    requires forall i :: a <= i < b ==> !OccursAt(s, DefaultClose, i)
    ensures CloseSpanCount(s, a) == CloseSpanCount(s, b)
    decreases b - a
  {
    if a < b {
      CloseSpanCountGap(s, a + 1, b);
    }
  }

  /** A text without '/' holds no `</span>`. */
  lemma NoSlashNoClose(s: string)
    requires '/' !in s
    ensures CloseSpanCount(s, 0) == 0
  {
    forall i | 0 <= i < |s| ensures !OccursAt(s, DefaultClose, i) {
      if i + 7 <= |s| {
        assert s[i..i + 7][1] == s[i + 1];
        assert s[i + 1] in s;
      }
    }
    CloseSpanCountGap(s, 0, |s|);
  }

  /** `<span><span`: one complete opening tag, a dangling one, no close tag. */
  lemma DanglingInput()
    ensures OpenSpanCount("<span>" + "<span", 0) == 1 && CloseSpanCount("<span>" + "<span", 0) == 0
  {
    var s := "<span>" + "<span";
    DanglingInputOpen(s);
    assert '/' !in s;
    NoSlashNoClose(s);
  }

  /** The complete opening tag of `<span><span` is counted and the dangling
      one is not. */
  lemma DanglingInputOpen(s: string)
    requires s == "<span>" + "<span"
    ensures OpenSpanCount(s, 0) == 1
  {
    assert s[0..5] == "<span" && s[5..6] == ">";
    assert OccursAt(s, "<span", 0) && FindFrom(s, ">", 5) == Some(5);
    OpenSpanStep(s, 0, 5);
    assert s[6..11] == "<span";
    assert OccursAt(s, "<span", 6) && FindFrom(s, ">", 11) == None;
    OpenSpanDangling(s, 6);
    OpenSpanCountTail(s, 7);
  }

  /** A complete opening tag is counted, and the count goes on after its `>`. */
  lemma OpenSpanStep(s: string, i: nat, j: nat)
    requires OccursAt(s, "<span", i) && FindFrom(s, ">", i + 5) == Some(j)
    ensures OpenSpanCount(s, i) == 1 + OpenSpanCount(s, j + 1)
  {
  }

  /** A `<span` without a later `>` is not counted. */
  lemma OpenSpanDangling(s: string, i: nat)
    requires OccursAt(s, "<span", i) && FindFrom(s, ">", i + 5) == None
    ensures OpenSpanCount(s, i) == OpenSpanCount(s, i + 1)
  {
  }

  /** `<span><span</span>`: the appended `>` completes the dangling tag. */
  lemma DanglingOutput()
    ensures OpenSpanCount("<span>" + "<span" + DefaultClose, 0) == 2
    ensures CloseSpanCount("<span>" + "<span" + DefaultClose, 0) == 1
  {
    DanglingOutputOpen("<span>" + "<span" + DefaultClose);
    var a := "<span>" + "<span";
    assert '/' !in a;
    NoSlashNoClose(a);
    CloseSpanCountAppend(a, 0);
  }

  /** The two opening tags of `<span><span</span>`, the second closed by the
      `>` of the close tag. */
  lemma DanglingOutputOpen(t: string)
    requires t == "<span>" + "<span" + DefaultClose
    ensures OpenSpanCount(t, 0) == 2
  {
    assert t[0..5] == "<span" && t[5..6] == ">";
    assert OccursAt(t, "<span", 0) && FindFrom(t, ">", 5) == Some(5);
    OpenSpanStep(t, 0, 5);
    DanglingOutputSecond(t);
  }

  /** The second `<span` of `<span><span</span>` ends at the close tag's `>`. */
  lemma DanglingOutputSecond(t: string)
    requires t == "<span>" + "<span" + DefaultClose
    ensures OpenSpanCount(t, 6) == 1
  {
    assert t[6..11] == "<span" && t[11..] == DefaultClose;
    CloseTagGap(t, 11);
    FindFromGap(t, ">", 11, 17);
    assert t[17..18] == ">";
    assert OccursAt(t, "<span", 6) && FindFrom(t, ">", 11) == Some(17);
    OpenSpanStep(t, 6, 17);
    OpenSpanCountTail(t, 18);
  }

  /** Before its last character, a close tag holds no '>'. */
  lemma CloseTagGap(t: string, k: nat)
    requires k + |DefaultClose| <= |t| && t[k..k + |DefaultClose|] == DefaultClose
    ensures forall i :: k <= i < k + |DefaultClose| - 1 ==> !OccursAt(t, ">", i)
  {
    forall i | k <= i < k + |DefaultClose| - 1 ensures !OccursAt(t, ">", i) {
      assert t[i..i + 1][0] == t[i] == DefaultClose[i - k];
    }
  }

  /** A trailing `<span` without its `>` is counted once the appended close
      tag supplies one, so completion can leave the text unbalanced. */
  lemma CompleteHTMLDanglingTag()
    ensures CompleteHTML("<span><span") == Ok("<span><span</span>")
    ensures OpenSpanCount("<span><span</span>", 0) == 2 && CloseSpanCount("<span><span</span>", 0) == 1
  {
    assert "<span><span" == "<span>" + "<span";
    assert "<span><span</span>" == "<span>" + "<span" + DefaultClose;
    DanglingInput();
    DanglingOutput();
    assert Repeat(DefaultClose, 1) == DefaultClose;
  }

  // ------------------------------------------------------------------
  // renderCitations

  /** The citation count of an article: a number, or a value `isNaN` holds. */
  datatype Citation = Count(n: int) | NotANumber

  const Unknown := "Number of citations unknown"

  function DigitChar(d: nat): char
    requires d < 10
  {
    ('0' as int + d) as char
  }

  /** The decimal digits of n, without leading zeros. */
  function NatToString(n: nat): (r: string)
    ensures |r| > 0 && forall i :: 0 <= i < |r| ==> '0' <= r[i] <= '9'
    decreases n
  {
    if n < 10 then [DigitChar(n)] else NatToString(n / 10) + [DigitChar(n % 10)]
  }

  /** A number in a template literal. */
  function IntToString(n: int): (r: string)
    ensures |r| > 0
  {
    if n < 0 then "-" + NatToString(-n) else NatToString(n)
  }

  /** The value of a string of decimal digits. */
  function ParseNat(s: string): nat
    requires forall i :: 0 <= i < |s| ==> '0' <= s[i] <= '9'
    decreases |s|
  {
    if |s| == 0 then 0 else 10 * ParseNat(s[..|s| - 1]) + (s[|s| - 1] as int - '0' as int)
  }

  function ParseInt(s: string): int
    requires |s| > 0
    requires forall i :: 0 < i < |s| ==> '0' <= s[i] <= '9'
    requires s[0] == '-' || '0' <= s[0] <= '9'
  {
    if s[0] == '-' then -(ParseNat(s[1..]) as int) else ParseNat(s) as int
  }

  lemma {:induction false} NatToStringRoundTrip(n: nat)
    ensures ParseNat(NatToString(n)) == n
    decreases n
  {
    if n >= 10 {
      NatToStringRoundTrip(n / 10);
      var r := NatToString(n);
      assert r[..|r| - 1] == NatToString(n / 10);
    }
  }

  lemma IntToStringRoundTrip(n: int)
    ensures var r := IntToString(n);
      (r[0] == '-' <==> n < 0)
      && (forall i :: 0 < i < |r| ==> '0' <= r[i] <= '9')
      && (r[0] == '-' || '0' <= r[0] <= '9')
      && ParseInt(r) == n
  {
    if n < 0 {
      NegativeRoundTrip(n);
    } else {
      NatToStringRoundTrip(n);
      assert IntToString(n)[0] in NatToString(n);
    }
  }

  /** A negative number is written as '-' and the digits of its magnitude. */
  lemma NegativeRoundTrip(n: int)
    requires n < 0
    ensures var r := IntToString(n);
      r[0] == '-' && (forall i :: 0 < i < |r| ==> '0' <= r[i] <= '9') && ParseInt(r) == n
  {
    var d := NatToString(-n);
    var r := IntToString(n);
    NatToStringRoundTrip(-n);
    assert r == "-" + d && r[1..] == d;
    forall i | 0 < i < |r| ensures '0' <= r[i] <= '9' {
      assert r[i] == d[i - 1];
    }
  }

  /** `renderCitations`. */
  function RenderCitations(c: Citation): string
  {
    match c
    case NotANumber => Unknown
    case Count(n) => if n == -1 then Unknown else IntToString(n) + " Citations"
  }

  /** The label says "unknown" exactly for a value that is not a number or
      is -1; otherwise it is the count, which reads back as the number, then
      " Citations". */
  lemma RenderCitationsSpec(c: Citation)
    ensures RenderCitations(c) == Unknown <==> c.NotANumber? || c == Count(-1)
    ensures c.Count? && c.n != -1 ==>
      var r := RenderCitations(c);
      |r| > 10 && r[|r| - 10..] == " Citations" && ParseInt(r[..|r| - 10]) == c.n
  {
    if c.Count? && c.n != -1 {
      var r := RenderCitations(c);
      var d := IntToString(c.n);
      IntToStringRoundTrip(c.n);
      assert r[..|r| - 10] == d;
      assert r[|r| - 1] == 's' != Unknown[|Unknown| - 1];
    }
  }
}
