// The ScienceQA entry points of the API: the highlight pattern, the article
// table built by `instanciate`, the per-article result records of
// `predict_sqa` and the pagination of `main_sqa`.

module ApiScienceQA {
  import opened PyLib
  import opened Aggregation
  import opened ApiSampler

  // ------------------------------------------------------------------
  // highlight

  /** The regex metacharacters `highlight` escapes. */
  predicate IsMeta(c: char)
  {
    c == '.' || c == '(' || c == ')'
  }

  /** `re.sub(r'([.()])', r'\\\1', x)`: a backslash before every '.', '('
      and ')'. */
  function Escape(x: string): string
  {
    if |x| == 0 then ""
    else (if IsMeta(x[0]) then ['\\', x[0]] else [x[0]]) + Escape(x[1..])
  }

  /** Reading an escaped term back: a backslash followed by a metacharacter
      stands for that metacharacter. */
  function Unescape(s: string): string
  {
    if |s| == 0 then ""
    else if |s| >= 2 && s[0] == '\\' && IsMeta(s[1]) then [s[1]] + Unescape(s[2..])
    else [s[0]] + Unescape(s[1..])
  }

  lemma EscapeHead(x: string)
    ensures |Escape(x)| > 0 ==> !IsMeta(Escape(x)[0])
  {
  }

  /** Escaping loses nothing: the escaped term reads back as the term. */
  lemma {:induction false} UnescapeEscape(x: string)
    ensures Unescape(Escape(x)) == x
    decreases |x|
  {
    if |x| > 0 {
      var rest := Escape(x[1..]);
      UnescapeEscape(x[1..]);
      if IsMeta(x[0]) {
        assert Escape(x) == ['\\', x[0]] + rest;
        assert Escape(x)[2..] == rest;
      } else {
        assert Escape(x) == [x[0]] + rest;
        EscapeHead(x[1..]);
        assert Escape(x)[1..] == rest;
      }
      assert x == [x[0]] + x[1..];
    }
  }

  /** Every metacharacter left in an escaped term is preceded by a
      backslash, so the pattern matches it literally. */
  lemma {:induction false} EscapeMarksMeta(x: string)
    ensures forall i :: 0 <= i < |Escape(x)| && IsMeta(Escape(x)[i]) ==>
      i > 0 && Escape(x)[i - 1] == '\\'
    decreases |x|
  {
    if |x| > 0 {
      EscapeMarksMeta(x[1..]);
      var h := if IsMeta(x[0]) then ['\\', x[0]] else [x[0]];
      var rest := Escape(x[1..]);
      assert Escape(x) == h + rest;
      EscapeHead(x[1..]);
      forall i | 0 <= i < |Escape(x)| && IsMeta(Escape(x)[i])
        ensures i > 0 && Escape(x)[i - 1] == '\\'
      {
        if i >= |h| {
          assert Escape(x)[i] == rest[i - |h|];
        }
      }
    }
  }

  /** Escaping adds only backslashes. */
  lemma {:induction false} EscapeAbsent(x: string, d: char)
    requires d != '\\' && d !in x
    ensures d !in Escape(x)
    decreases |x|
  {
    if |x| > 0 {
      EscapeAbsent(x[1..], d);
    }
  }

  /** What `highlight` puts in place of a space: optional white space. */
  const Gap: string := "(?:\\s*)?"

  /** One term of the pattern: escaped, then `'(?:\s*)?'.join(x.split(' '))`. */
  function TermPattern(x: string): string
  {
    Join(Gap, Split(Escape(x), " "))
  }

  /** Every space of the escaped term becomes `(?:\s*)?`, so no literal
      space is left, and no '|' is introduced. */
  lemma TermPatternSpec(x: string)
    ensures TermPattern(x) == ReplaceChar(Escape(x), ' ', Gap)
    ensures ' ' !in TermPattern(x)
    ensures '|' !in x ==> '|' !in TermPattern(x)
  {
    JoinSplitChar(Escape(x), ' ', Gap);
    ReplaceCharRemoves(Escape(x), ' ', Gap, ' ');
    if '|' !in x {
      EscapeAbsent(x, '|');
      ReplaceCharRemoves(Escape(x), ' ', Gap, '|');
    }
  }

  function TermPatterns(terms: seq<string>): (r: seq<string>)
    ensures |r| == |terms|
  {
    seq(|terms|, k requires 0 <= k < |terms| => TermPattern(terms[k]))
  }

  /** `rf'({"|".join(terms)})'`: all terms as alternatives of one group. */
  function Pattern(terms: seq<string>): string
  {
    "(" + Join("|", TermPatterns(terms)) + ")"
  }

  /** The pattern is one capture group whose alternatives, split at '|',
      are exactly the term patterns, one per term and in order. */
  lemma PatternSpec(terms: seq<string>)
    requires |terms| > 0
    requires forall k :: 0 <= k < |terms| ==> '|' !in terms[k]
    ensures var p := Pattern(terms);
      2 <= |p| && p[0] == '(' && p[|p| - 1] == ')'
      && Split(p[1..|p| - 1], "|") == TermPatterns(terms)
  {
    var ts := TermPatterns(terms);
    forall k | 0 <= k < |ts| ensures '|' !in ts[k] {
      TermPatternSpec(terms[k]);
    }
    SplitJoinChar(ts, '|');
    var p := Pattern(terms);
    assert p[1..|p| - 1] == Join("|", ts);
  }

  /** `highlight(terms, text)` with `re.sub(pattern, '<span class="hg">\1</span>',
      text, flags=re.I)` given as `sub`; None stands for the substitution
      raising. */
  function Highlight(terms: seq<string>, text: string, sub: (string, string) -> Option<string>): (r: string)
  {
    match sub(Pattern(terms), text)
    case None => text
    case Some(h) => h
  }

  // ------------------------------------------------------------------
  // instanciate

  /** The question asked about every article. */
  function Question(first: string, second: string, relation: string): string
  {
    "Does " + first + " " + relation + " " + second + "?"
  }

  /** An article as the search returns it. */
  datatype RawArticle = RawArticle(
    title: string, abstractText: string, id: string, doi: string,
    authors: string, date: string, url: string)

  /** One row of the article table, `abstract` renamed to `context`. */
  datatype Row = Row(
    title: string, context: string, id: string, doi: string,
    authors: string, date: string, url: string)

  function ToRow(a: RawArticle): Row
  {
    Row(a.title, a.abstractText, a.id, a.doi, a.authors, a.date, a.url)
  }

  function ToRows(raws: seq<RawArticle>): (r: seq<Row>)
    ensures |r| == |raws|
    ensures forall i :: 0 <= i < |raws| ==> r[i] == ToRow(raws[i])
  {
    seq(|raws|, i requires 0 <= i < |raws| => ToRow(raws[i]))
  }

  function TitleOf(a: RawArticle): string
  {
    a.title
  }

  /** `if not articles`: a missing or empty list is replaced by the search
      results. */
  function Chosen(given: Option<seq<RawArticle>>, fetched: seq<RawArticle>): seq<RawArticle>
  {
    if given.None? || |given.value| == 0 then fetched else given.value
  }

  /** The table rows: the first article of every title, in order. */
  function InstanciateRows(given: Option<seq<RawArticle>>, fetched: seq<RawArticle>): seq<Row>
  {
    ToRows(DedupBy(Chosen(given, fetched), TitleOf))
  }

  /** No two rows share a title. */
  lemma InstanciateDistinctTitles(given: Option<seq<RawArticle>>, fetched: seq<RawArticle>)
    ensures var rows := InstanciateRows(given, fetched);
      forall i, j :: 0 <= i < j < |rows| ==> rows[i].title != rows[j].title
  {
    var src := Chosen(given, fetched);
    var d := DedupBy(src, TitleOf);
    var rows := ToRows(d);
    DedupByDistinct(src, TitleOf);
    forall i, j | 0 <= i < j < |rows| ensures rows[i].title != rows[j].title {
      assert TitleOf(d[i]) != TitleOf(d[j]);
    }
  }

  /** Every row is the row of the first article with its title. */
  lemma InstanciateKeepsFirst(given: Option<seq<RawArticle>>, fetched: seq<RawArticle>, i: nat)
    requires i < |InstanciateRows(given, fetched)|
    ensures var src := Chosen(given, fetched);
      exists j :: 0 <= j < |src| && ToRow(src[j]) == InstanciateRows(given, fetched)[i]
        && forall k :: 0 <= k < j ==> src[k].title != src[j].title
  {
    var src := Chosen(given, fetched);
    var d := DedupBy(src, TitleOf);
    DedupByFirst(src, TitleOf);
    assert d[i] in d;
    assert FirstWithKey(src, TitleOf, d[i]);
    var j :| 0 <= j < |src| && src[j] == d[i] && forall k :: 0 <= k < j ==> TitleOf(src[k]) != TitleOf(d[i]);
    assert ToRow(src[j]) == InstanciateRows(given, fetched)[i];
    assert forall k :: 0 <= k < j ==> src[k].title != src[j].title by {
      forall k | 0 <= k < j ensures src[k].title != src[j].title {
        assert TitleOf(src[k]) != TitleOf(d[i]);
      }
    }
  }

  /** The rows keep the original order: row i is the row of the article at
      position idx[i], the positions increase, and each is the first
      position of its title. */
  lemma InstanciateOrder(given: Option<seq<RawArticle>>, fetched: seq<RawArticle>)
    ensures var src := Chosen(given, fetched);
      var rows := InstanciateRows(given, fetched);
      exists idx: seq<nat> ::
        && |idx| == |rows|
        && (forall i :: 0 <= i < |idx| ==> idx[i] < |src| && rows[i] == ToRow(src[idx[i]]))
        && (forall i, j :: 0 <= i < j < |idx| ==> idx[i] < idx[j])
        && (forall i, k :: 0 <= i < |idx| && 0 <= k < idx[i] < |src| ==> src[k].title != src[idx[i]].title)
  {
    var src := Chosen(given, fetched);
    var d := DedupBy(src, TitleOf);
    DedupByOrder(src, TitleOf);
    var idx: seq<nat> :| IsSubseqAt(d, src, idx) && FirstKeyPositions(src, TitleOf, idx);
    var rows := InstanciateRows(given, fetched);
    assert forall i :: 0 <= i < |idx| ==> idx[i] < |src| && rows[i] == ToRow(src[idx[i]]);
    assert forall i, k :: 0 <= i < |idx| && 0 <= k < idx[i] < |src| ==> src[k].title != src[idx[i]].title by {
      forall i, k | 0 <= i < |idx| && 0 <= k < idx[i] < |src| ensures src[k].title != src[idx[i]].title {
        assert TitleOf(src[k]) != TitleOf(src[idx[i]]);
      }
    }
  }

  /** No title is lost: every article's title has a row. */
  lemma InstanciateKeepsTitles(given: Option<seq<RawArticle>>, fetched: seq<RawArticle>, j: nat)
    requires j < |Chosen(given, fetched)|
    ensures var rows := InstanciateRows(given, fetched);
      exists i :: 0 <= i < |rows| && rows[i].title == Chosen(given, fetched)[j].title
  {
    var src := Chosen(given, fetched);
    var d := DedupBy(src, TitleOf);
    var rows := ToRows(d);
    DedupByKeys(src, TitleOf);
    assert TitleOf(src[j]) in KeysOf(src, TitleOf);
    assert TitleOf(src[j]) in KeysOf(d, TitleOf);
    var i :| 0 <= i < |d| && TitleOf(d[i]) == TitleOf(src[j]);
    assert rows[i] == ToRow(d[i]);
    assert rows[i].title == src[j].title;
    assert InstanciateRows(given, fetched) == rows;
  }

  /** The columns of a non-empty table, before `question` is added. */
  const ArticleColumns: seq<string> := ["title", "context", "id", "DOI", "authors", "publication_date", "URL"]

  /** The columns of the empty table: `question` sits before `URL`. */
  const EmptyColumns: seq<string> := ["title", "context", "id", "DOI", "authors", "publication_date", "question", "URL"]

  /** A row of the table joined with its question: the input of the sampler. */
  function AsArticle(r: Row, question: string): Article
  {
    Article(question, r.context, r.id, r.title, r.doi, r.authors, r.date, r.url)
  }

  function WithQuestion(rows: seq<Row>, q: string): (r: seq<Article>)
    ensures |r| == |rows|
    ensures forall i :: 0 <= i < |rows| ==> r[i] == AsArticle(rows[i], q)
  {
    seq(|rows|, i requires 0 <= i < |rows| => AsArticle(rows[i], q))
  }

  /** The article table `predict_sqa` works on: the rows with their index
      labels, and the `question` and `terms` columns, which are assigned in
      place. */
  class Articles {
    var columns: seq<string>
    var labels: seq<int>
    var rows: seq<Row>
    var question: seq<string>
    var terms: seq<seq<string>>

    predicate Valid()
      reads this
    {
      |labels| == |rows|
      && ("question" in columns ==> |question| == |rows|)
      && ("terms" in columns ==> |terms| == |rows|)
    }

    /** The sampler's view of the table: one article per row. */
    function Contents(): (r: seq<Article>)
      reads this
      requires Valid() && "question" in columns
      ensures |r| == |rows|
    {
      seq(|rows|, i requires 0 <= i < |rows| && Valid() && "question" in columns reads this =>
        AsArticle(rows[i], question[i]))
    }

    /** A table with a fresh index 0, 1, ... and no assigned columns. */
    constructor(columns: seq<string>, rows: seq<Row>)
      requires "question" !in columns && "terms" !in columns
      ensures Valid()
      ensures this.columns == columns && this.rows == rows
      ensures |labels| == |rows| && forall p :: 0 <= p < |rows| ==> labels[p] == p
      ensures question == [] && terms == []
    {
      this.columns := columns;
      this.rows := rows;
      this.labels := seq(|rows|, p requires 0 <= p < |rows| => p);
      this.question := [];
      this.terms := [];
    }

    /** `articles['question'] = question`: every row gets the question. */
    method SetQuestion(q: string)
      requires Valid()
      modifies this
      ensures Valid() && "question" in columns
      ensures columns == if "question" in old(columns) then old(columns) else old(columns) + ["question"]
      ensures |question| == |rows| && forall i :: 0 <= i < |rows| ==> question[i] == q
      ensures rows == old(rows) && labels == old(labels) && terms == old(terms)
    {
      if "question" !in columns {
        columns := columns + ["question"];
      }
      var n := |rows|;
      question := seq(n, i requires 0 <= i < n => q);
    }

    /** `articles['terms'] = terms`: one list of terms per row. */
    method SetTerms(ts: seq<seq<string>>)
      requires Valid() && |ts| == |rows|
      modifies this
      ensures Valid() && "terms" in columns
      ensures columns == if "terms" in old(columns) then old(columns) else old(columns) + ["terms"]
      ensures terms == ts
      ensures rows == old(rows) && labels == old(labels) && question == old(question)
    {
      if "terms" !in columns {
        columns := columns + ["terms"];
      }
      terms := ts;
    }

    /** `articles.iloc[lo:hi]`: the rows at positions lo..hi, keeping their
        index labels. */
    method ILoc(lo: int, hi: int) returns (t: Articles)
      requires Valid()
      ensures fresh(t) && t.Valid()
      ensures t.columns == columns && t.rows == Slice(rows, lo, hi) && t.labels == Slice(labels, lo, hi)
      ensures "question" in columns ==> t.question == Slice(question, lo, hi)
      ensures "terms" in columns ==> t.terms == Slice(terms, lo, hi)
    {
      t := new Articles.Copy(columns, Slice(labels, lo, hi), Slice(rows, lo, hi),
        if "question" in columns then Slice(question, lo, hi) else [],
        if "terms" in columns then Slice(terms, lo, hi) else []);
    }

    constructor Copy(columns: seq<string>, labels: seq<int>, rows: seq<Row>, question: seq<string>, terms: seq<seq<string>>)
      requires |labels| == |rows|
      requires "question" in columns ==> |question| == |rows|
      requires "terms" in columns ==> |terms| == |rows|
      ensures Valid()
      ensures this.columns == columns && this.labels == labels && this.rows == rows
      ensures this.question == question && this.terms == terms
    {
      this.columns := columns;
      this.labels := labels;
      this.rows := rows;
      this.question := question;
      this.terms := terms;
    }
  }

  /** `instanciate`: the deduplicated table with the question column, or
      the empty table with its fixed columns. */
  method Instanciate(first: string, second: string, relation: string,
                     given: Option<seq<RawArticle>>, fetched: seq<RawArticle>)
    returns (a: Articles)
    ensures fresh(a) && a.Valid() && "question" in a.columns
    ensures a.rows == InstanciateRows(given, fetched)
    ensures forall p :: 0 <= p < |a.labels| ==> a.labels[p] == p
    ensures forall i :: 0 <= i < |a.rows| ==> a.question[i] == Question(first, second, relation)
    ensures a.columns == if |a.rows| > 0 then ArticleColumns + ["question"] else EmptyColumns
    ensures "terms" !in a.columns
  {
    var question := Question(first, second, relation);
    var articles := Chosen(given, fetched);
    if |articles| > 0 {
      a := new Articles(ArticleColumns, ToRows(DedupBy(articles, TitleOf)));
      a.SetQuestion(question);
      assert |a.rows| > 0 by {
        assert articles[0] in articles;
        DedupByKeys(articles, TitleOf);
        assert TitleOf(articles[0]) in KeysOf(articles, TitleOf);
      }
    } else {
      a := new Articles.Copy(EmptyColumns, [], [], [], []);
    }
  }

  // ------------------------------------------------------------------
  // predict_sqa

  /** The kind of `puller` handed to `predict_sqa`. */
  datatype Puller = ExtractivePuller | InterpretPuller | AbstractivePuller | NoPuller

  datatype Extractor = Eqa | Bqa | NoExtractor

  /** `'eqa'` for an extractive or quantised puller, `'bqa'` for an
      abstractive one, None without a puller. */
  function ExtractorOf(p: Puller): (r: Extractor)
    ensures r == Eqa <==> p == ExtractivePuller || p == InterpretPuller
    ensures r == NoExtractor <==> p == NoPuller
  {
    match p
    case ExtractivePuller => Eqa
    case InterpretPuller => Eqa
    case AbstractivePuller => Bqa
    case NoPuller => NoExtractor
  }

  /** The models `predict_sqa` calls, as functions: sentence splitting,
      the extractive tokenizer, the extractive model's argmax start and end
      per window, the boolean classifier and the highlight substitution. */
  datatype Models = Models(
    sentTokenize: string -> seq<string>,
    encodeExt: string -> seq<int>,
    decodeExt: seq<int> -> string,
    extract: seq<seq<int>> -> seq<(int, int)>,
    classify: seq<string> -> seq<Probs>,
    sub: (string, string) -> Option<string>)

  /** One readable result. Boolean-only records have no URL and a None
      response; their answer is None where the mean over no windows is NaN. */
  datatype Record = Record(
    question: string, id: string, doi: string, title: string, authors: string,
    date: string, url: Option<string>, response: Option<string>, answer: Option<Percent>)

  /** The extractive path up to the classifier: the decoded spans of all
      windows, `end_context`, and the classifier's answers. */
  datatype EqaData = EqaData(decoded: seq<string>, ends: seq<nat>, answers: seq<Probs>)

  /** Extractive windows, the spans the extractive model selects in them,
      the classifier run on the from_ext regrouping. */
  function EqaRun(s: Sampler, question: string, arts: seq<Article>, m: Models): (r: Result<EqaData>)
    requires s.windowStride != 0
    ensures r.Ok? ==> |r.value.ends| == |arts|
  {
    match PredictDataset(s, arts, m.sentTokenize, Mode("extractive"))
    case Err(e) => Err(e)
    case Ok(p) =>
      PredictDatasetSpec(s, arts, m.sentTokenize, Mode("extractive"));
      var encoded := Map(m.encodeExt, p.windows);
      var decoded := Map(m.decodeExt, SelectSpans(encoded, m.extract(encoded)));
      match FromExt(s, question, decoded, p.endContext)
      case Err(e) => Err(e)
      case Ok(inputs) => Ok(EqaData(decoded, p.endContext, m.classify(inputs)))
  }

  /** The highlight terms of every article: `unique_sent(decoded[start:end])`
      with an exclusive end. */
  function Terms(decoded: seq<string>, ends: seq<int>): (r: seq<seq<string>>)
    ensures |r| == |ends|
  {
    var gs := Groups(decoded, ends);
    seq(|gs|, i requires 0 <= i < |gs| => UniqueSent(gs[i]))
  }

  /** With `end_context` the cumulative window counts, the terms of article
      i are drawn from its own spans only, duplicates and spans contained in
      other spans removed. */
  lemma TermsSpec(decoded: seq<string>, counts: seq<nat>, i: nat)
    requires |decoded| == Sum(counts) && i < |counts|
    ensures Sum(counts[..i]) + counts[i] <= |decoded|
    ensures var lo := Sum(counts[..i]);
      var own := decoded[lo..lo + counts[i]];
      var t := Terms(decoded, Cumsum(counts))[i];
      NoDup(t)
      && forall x :: x in t <==> x in own && !ContainedInOther(x, own)
  {
    GroupsOfCumsum(decoded, counts, i);
  }

  /** Record i of the extractive path; the terms column holds `terms`. */
  function EqaRecord(question: string, a: Article, terms: seq<string>, answer: Probs, sub: (string, string) -> Option<string>): Record
  {
    Record(question, a.id, a.doi, a.title, a.authors, a.date, Some(a.url),
      Some(Highlight(terms, a.context, sub)), Some(ToPercent(answer)))
  }

  /** The readable records of the extractive path, one per article; fewer
      answers than articles raise an IndexError. */
  function EqaRecords(question: string, arts: seq<Article>, terms: seq<seq<string>>, answers: seq<Probs>, sub: (string, string) -> Option<string>): (r: Result<seq<Record>>)
    requires |terms| == |arts|
    ensures r.Ok? <==> |answers| >= |arts|
    ensures r.Ok? ==> |r.value| == |arts|
    ensures r.Ok? ==>
      forall i :: 0 <= i < |arts| ==> r.value[i] == EqaRecord(question, arts[i], terms[i], answers[i], sub)
  {
    if |answers| < |arts| then Err("IndexError: list index out of range")
    else Ok(seq(|arts|, i requires 0 <= i < |arts| => EqaRecord(question, arts[i], terms[i], answers[i], sub)))
  }

  /** Record i of the boolean-only path, read by position. */
  function BooleanRecord(question: string, a: Article, answer: Option<Percent>): Record
  {
    Record(question, a.id, a.doi, a.title, a.authors, a.date, None, None, answer)
  }

  /** The records of the boolean-only path, each article paired with its
      own averaged answer. */
  function BooleanRecords(question: string, arts: seq<Article>, answers: seq<Option<Percent>>): (r: seq<Record>)
    requires |answers| == |arts|
    ensures |r| == |arts|
    ensures forall i :: 0 <= i < |arts| ==> r[i].id == arts[i].id && r[i].title == arts[i].title && r[i].answer == answers[i]
  {
    seq(|arts|, i requires 0 <= i < |arts| => BooleanRecord(question, arts[i], answers[i]))
  }

  /** The boolean-only records as the source writes them: `articles.id[i]`
      and the other columns are looked up by index label i, which raises a
      KeyError when no row carries label i. */
  function BooleanRecordsAsWritten(question: string, arts: seq<Article>, labels: seq<int>, answers: seq<Option<Percent>>): (r: Result<seq<Record>>)
    requires |answers| == |arts| && |labels| == |arts|
    ensures r.Ok? <==> forall i :: 0 <= i < |arts| ==> i in labels
    decreases |arts|
  {
    BooleanRecordsFrom(question, arts, labels, answers, 0)
  }

  function BooleanRecordsFrom(question: string, arts: seq<Article>, labels: seq<int>, answers: seq<Option<Percent>>, i: nat): (r: Result<seq<Record>>)
    requires |answers| == |arts| && |labels| == |arts| && i <= |arts|
    ensures r.Ok? <==> forall k :: i <= k < |arts| ==> k in labels
    ensures r.Ok? ==> |r.value| == |arts| - i
    ensures r.Ok? ==>
      forall k :: i <= k < |arts| ==>
           LabelLookup(labels, arts, k).Some?
           && r.value[k - i] == BooleanRecord(question, LabelLookup(labels, arts, k).value, answers[k])
    decreases |arts| - i
  {
    if i == |arts| then Ok([])
    else
      match LabelLookup(labels, arts, i)
      case None => Err("KeyError")
      case Some(a) =>
        match BooleanRecordsFrom(question, arts, labels, answers, i + 1)
        case Err(e) => Err(e)
        case Ok(rest) => Ok([BooleanRecord(question, a, answers[i])] + rest)
  }

  /** With the labels of a slice starting at position lo (those of
      `iloc[lo:hi]` of a table indexed 0, 1, ...), the label lookup succeeds
      exactly when lo is 0, and then agrees with the positional records. */
  lemma BooleanRecordsByLabel(question: string, arts: seq<Article>, labels: seq<int>, answers: seq<Option<Percent>>, lo: nat)
    requires |answers| == |arts| && |labels| == |arts| && |arts| > 0
    requires forall p :: 0 <= p < |labels| ==> labels[p] == lo + p
    ensures BooleanRecordsAsWritten(question, arts, labels, answers).Ok? <==> lo == 0
    ensures lo == 0 ==> BooleanRecordsAsWritten(question, arts, labels, answers) == Ok(BooleanRecords(question, arts, answers))
  {
    var r := BooleanRecordsAsWritten(question, arts, labels, answers);
    if lo == 0 {
      forall k | 0 <= k < |arts| ensures k in labels && LabelLookup(labels, arts, k) == Some(arts[k]) {
        assert labels[k] == k;
        LabelLookupAt(labels, arts, k, k);
      }
      assert r.Ok?;
      assert r.value == BooleanRecords(question, arts, answers);
    } else {
      assert 0 !in labels;
    }
  }

  /** The second page of a two-article search, one article per page: the
      boolean-only path raises a KeyError on label 0. */
  lemma BooleanSecondPageFails(question: string, a: Article, answer: Option<Percent>)
    ensures BooleanRecordsAsWritten(question, [a], [1], [answer]).Err?
  {
    assert 0 !in [1];
  }

  /** The lookup of a label held at exactly one position. */
  lemma LabelLookupAt<T>(labels: seq<int>, values: seq<T>, key: int, p: nat)
    requires |labels| == |values| && p < |labels| && labels[p] == key
    requires forall q :: 0 <= q < |labels| && labels[q] == key ==> q == p
    ensures LabelLookup(labels, values, key) == Some(values[p])
  {
  }

  /** The boolean-only path: the boolean windows of every article, the
      classifier run on them, and the mean answer of each article's own
      windows. */
  function BooleanPath(s: Sampler, question: string, arts: seq<Article>, m: Models): (r: Result<seq<Record>>)
    requires s.windowStride != 0
  {
    match PredictDataset(s, arts, m.sentTokenize, Mode("boolean"))
    case Err(e) => Err(e)
    case Ok(p) =>
      PredictDatasetSpec(s, arts, m.sentTokenize, Mode("boolean"));
      Ok(BooleanRecords(question, arts, GroupAnswers(m.classify(p.windows), p.endContext)))
  }

  /** The boolean-only path emits one record per article, carrying that
      article's own fields. */
  lemma BooleanPathRecords(s: Sampler, question: string, arts: seq<Article>, m: Models, p: PredictInput)
    requires s.windowStride != 0
    requires PredictDataset(s, arts, m.sentTokenize, Mode("boolean")) == Ok(p)
    ensures var r := BooleanPath(s, question, arts, m);
      r.Ok? && |r.value| == |arts|
      && forall i :: 0 <= i < |arts| ==>
           r.value[i].id == arts[i].id && r.value[i].title == arts[i].title && r.value[i].question == question
  {
    BooleanPathValue(s, question, arts, m, p);
  }

  /** When the classifier answers every window, article i gets the mean of
      the answers of exactly its own windows. */
  lemma BooleanPathAnswer(s: Sampler, question: string, arts: seq<Article>, m: Models,
                          p: PredictInput, cs: seq<seq<string>>, i: nat)
    requires s.windowStride != 0 && i < |arts|
    requires ContextsOf(s, arts, m.sentTokenize, Mode("boolean")) == Ok(cs)
    requires PredictDataset(s, arts, m.sentTokenize, Mode("boolean")) == Ok(p)
    requires |m.classify(p.windows)| == |p.windows|
    ensures Sum(Lengths(cs)[..i]) + |cs[i]| <= |p.windows|
    ensures var lo := Sum(Lengths(cs)[..i]);
      BooleanPath(s, question, arts, m).value[i].answer == MeanPercent(m.classify(p.windows)[lo..lo + |cs[i]|])
  {
    var answers := m.classify(p.windows);
    assert p.windows == Flatten(cs) && p.endContext == Cumsum(Lengths(cs));
    BooleanPathValue(s, question, arts, m, p);
    GroupAnswersOfFlatten(answers, cs, i);
  }

  /** The records of the boolean-only path, for a dataset that was built. */
  lemma BooleanPathValue(s: Sampler, question: string, arts: seq<Article>, m: Models, p: PredictInput)
    requires s.windowStride != 0
    requires PredictDataset(s, arts, m.sentTokenize, Mode("boolean")) == Ok(p)
    ensures |GroupAnswers(m.classify(p.windows), p.endContext)| == |arts|
    ensures BooleanPath(s, question, arts, m)
         == Ok(BooleanRecords(question, arts, GroupAnswers(m.classify(p.windows), p.endContext)))
  {
    PredictDatasetSpec(s, arts, m.sentTokenize, Mode("boolean"));
  }

  /** Answers for the flattened windows of several articles, grouped by the
      running window counts: group i is the mean of article i's own answers. */
  lemma GroupAnswersOfFlatten(answers: seq<Probs>, cs: seq<seq<string>>, i: nat)
    requires |answers| == |Flatten(cs)| && i < |cs|
    ensures Sum(Lengths(cs)[..i]) + |cs[i]| <= |answers|
    ensures var lo := Sum(Lengths(cs)[..i]);
      GroupAnswers(answers, Cumsum(Lengths(cs)))[i] == MeanPercent(answers[lo..lo + |cs[i]|])
  {
    FlattenLength(cs);
    assert |cs[i]| == Lengths(cs)[i];
    GroupsOfCumsum(answers, Lengths(cs), i);
    GroupAnswersAt(answers, Cumsum(Lengths(cs)), i);
  }

  /** The result of `predict_sqa` on the rows of a table: IndexError-like
      failure on an empty table, the extractive path for `'eqa'`, and the
      boolean-only path otherwise. */
  function PredictSqaResult(s: Sampler, m: Models, extractor: Extractor, arts: seq<Article>): (r: Result<seq<Record>>)
    requires s.windowStride != 0
  {
    if |arts| == 0 then Err("KeyError: 0")
    else if extractor == Eqa then
      match EqaRun(s, arts[0].question, arts, m)
      case Err(e) => Err(e)
      case Ok(d) => EqaRecords(arts[0].question, arts, Terms(d.decoded, d.ends), d.answers, m.sub)
    else BooleanPath(s, arts[0].question, arts, m)
  }

  /** An abstractive puller does not reach the unreachable `'aqa'` branch:
      it gives exactly the boolean-only records, as no puller does. */
  lemma AbstractivePullerIsBooleanOnly(s: Sampler, m: Models, arts: seq<Article>)
    requires s.windowStride != 0 && |arts| > 0
    ensures PredictSqaResult(s, m, ExtractorOf(AbstractivePuller), arts)
         == BooleanPath(s, arts[0].question, arts, m)
    ensures PredictSqaResult(s, m, ExtractorOf(NoPuller), arts)
         == PredictSqaResult(s, m, ExtractorOf(AbstractivePuller), arts)
  {
  }

  /** On the extractive path every article gets one record: its own fields,
      the context highlighted with its own terms, and the percent of its
      classifier answer. */
  lemma EqaPathSpec(s: Sampler, m: Models, arts: seq<Article>, i: nat)
    requires s.windowStride != 0 && i < |arts|
    requires EqaRun(s, arts[0].question, arts, m).Ok?
    ensures var d := EqaRun(s, arts[0].question, arts, m).value;
      var r := PredictSqaResult(s, m, Eqa, arts);
      (r.Ok? <==> |d.answers| >= |arts|)
      && (r.Ok? ==>
            |r.value| == |arts|
            && r.value[i].id == arts[i].id && r.value[i].title == arts[i].title
            && r.value[i].url == Some(arts[i].url)
            && r.value[i].response == Some(Highlight(Terms(d.decoded, d.ends)[i], arts[i].context, m.sub))
            && r.value[i].answer == Some(ToPercent(d.answers[i])))
  {
  }

  /** `predict_sqa`: the extractive path also assigns the `terms` column of
      the table before the records are built. */
  method PredictSqa(a: Articles, s: Sampler, m: Models, extractor: Extractor) returns (r: Result<seq<Record>>)
    requires a.Valid() && "question" in a.columns && s.windowStride != 0
    modifies a
    ensures r == PredictSqaResult(s, m, extractor, old(a.Contents()))
    ensures a.Valid() && a.rows == old(a.rows) && a.labels == old(a.labels) && a.question == old(a.question)
    ensures extractor != Eqa ==> a.columns == old(a.columns) && a.terms == old(a.terms)
    ensures extractor == Eqa && |old(a.rows)| > 0
            && EqaRun(s, old(a.Contents())[0].question, old(a.Contents()), m).Ok? ==>
              var d := EqaRun(s, old(a.Contents())[0].question, old(a.Contents()), m).value;
              a.terms == Terms(d.decoded, d.ends)
              && a.columns == if "terms" in old(a.columns) then old(a.columns) else old(a.columns) + ["terms"]
    ensures extractor == Eqa
            && (|old(a.rows)| == 0 || EqaRun(s, old(a.Contents())[0].question, old(a.Contents()), m).Err?) ==>
              a.columns == old(a.columns) && a.terms == old(a.terms)
  {
    ghost var arts := a.Contents();
    if |a.rows| == 0 {
      return Err("KeyError: 0");
    }
    var question := a.question[0];
    if extractor == Eqa {
      var run := EqaRun(s, question, a.Contents(), m);
      if run.Err? {
        return Err(run.message);
      }
      var terms := Terms(run.value.decoded, run.value.ends);
      a.SetTerms(terms);
      assert a.Contents() == arts;
      r := EqaRecords(question, a.Contents(), terms, run.value.answers, m.sub);
    } else {
      r := BooleanPath(s, question, a.Contents(), m);
    }
  }

  // ------------------------------------------------------------------
  // main_sqa

  /** The rows `iloc[limit*(page-1):limit*page]` keeps. */
  function Page<T>(xs: seq<T>, limit: int, page: int): (r: seq<T>)
  {
    Slice(xs, limit * (page - 1), limit * page)
  }

  /** For a positive limit, page p (from 1) holds the rows at positions
      limit*(p-1) up to limit*p, cut at the end of the table; page 0 and
      the pages past the end are empty. */
  lemma PageSpec<T>(xs: seq<T>, limit: nat, page: nat)
    requires limit > 0
    ensures page >= 1 ==>
      Page(xs, limit, page) == xs[Min(limit * (page - 1), |xs|)..Min(limit * page, |xs|)]
    ensures page == 0 || limit * (page - 1) >= |xs| ==> Page(xs, limit, page) == []
  {
    if page >= 1 {
      var lo, hi := Min(limit * (page - 1), |xs|), Min(limit * page, |xs|);
      assert limit * (page - 1) <= limit * page by {
        assert limit * page == limit * (page - 1) + limit;
      }
      assert SliceBound(limit * (page - 1), |xs|) == lo;
      assert SliceBound(limit * page, |xs|) == hi;
      SliceInRange(xs, lo, hi);
    }
  }

  /** Consecutive pages follow each other: page p followed by page p + 1 is
      the run of rows from the start of page p to the end of page p + 1. */
  lemma PagesAdjacent<T>(xs: seq<T>, limit: nat, page: nat)
    requires limit > 0 && page >= 1
    ensures Page(xs, limit, page) + Page(xs, limit, page + 1)
         == xs[Min(limit * (page - 1), |xs|)..Min(limit * (page + 1), |xs|)]
  {
    PageSpec(xs, limit, page);
    PageSpec(xs, limit, page + 1);
    assert limit * (page + 1 - 1) == limit * page;
    assert limit * (page - 1) <= limit * page <= limit * (page + 1) by {
      assert limit * page == limit * (page - 1) + limit;
      assert limit * (page + 1) == limit * page + limit;
    }
    var a, b, c := Min(limit * (page - 1), |xs|), Min(limit * page, |xs|), Min(limit * (page + 1), |xs|);
    assert xs[a..b] + xs[b..c] == xs[a..c];
  }

  /** `main_sqa`: the search results, page `page` of `limit` rows (1 and
      100 by default), and no prediction at all for an empty page. */
  method MainSqa(kwargs: Kwargs, first: string, second: string, relation: string,
                 fetched: seq<RawArticle>, s: Sampler, m: Models, puller: Puller)
    returns (results: Result<seq<Record>>)
    requires s.windowStride != 0
    ensures var limit := Get(kwargs, "limit", 100);
      var page := Get(kwargs, "page", 1);
      var rows := Page(InstanciateRows(None, fetched), limit, page);
      var q := Question(first, second, relation);
      results == if |rows| == 0 then Ok([]) else PredictSqaResult(s, m, ExtractorOf(puller), WithQuestion(rows, q))
  {
    var limit := Get(kwargs, "limit", 100);
    var page := Get(kwargs, "page", 1);
    var articles := Instanciate(first, second, relation, None, fetched);
    var sliced := articles.ILoc(limit * (page - 1), limit * page);
    if |sliced.rows| == 0 {
      return Ok([]);
    }
    ghost var q := Question(first, second, relation);
    ghost var rows := sliced.rows;
    assert forall i :: 0 <= i < |rows| ==> sliced.question[i] == q;
    assert sliced.Contents() == WithQuestion(rows, q);
    results := PredictSqa(sliced, s, m, ExtractorOf(puller));
  }
}
