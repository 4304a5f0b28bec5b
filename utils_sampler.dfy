/** The older sampler of the command-line pipeline. It shares the window
    arithmetic of the served one and differs in its defaults, in a fixed
    `</s>` separator, in the training answer format, in a span search
    with no minimum offset and no length guard, and in joining the
    regrouped outputs with spaces (the extractive branch keeps only the text
    after the last `</s>`). */
module UtilsSampler {
  import opened PyLib
  import opened Aggregation
  import opened ApiSampler

  /** `Sampler.__init__`: lengths 512/80/512/300; 5 sentences every 2 with
      an extractive tokenizer, 10 every 10 otherwise; overridable by keyword. */
  function InitUtils(tokBool: Tokenizer, tokAbs: Option<Tokenizer>, tokExt: Option<Tokenizer>, kwargs: Kwargs): (s: Sampler)
  {
    Sampler(
      Get(kwargs, "encoder_length", 512),
      Get(kwargs, "decoder_length", 80),
      Get(kwargs, "boolean_length", 512),
      Get(kwargs, "extract_length", 300),
      Get(kwargs, "window_size", if tokExt.Some? then 5 else 10),
      Get(kwargs, "window_stride", if tokExt.Some? then 2 else 10),
      tokBool, tokAbs, tokExt)
  }

  /** The defaults of this copy: 5/2 with an extractive tokenizer, 10/10
      without, so an article of N sentences gives ceil(N / 2) or
      ceil(N / 10) windows. */
  lemma InitUtilsDefaults(tokBool: Tokenizer, tokAbs: Option<Tokenizer>, tokExt: Option<Tokenizer>, sentences: seq<string>)
    ensures var s := InitUtils(tokBool, tokAbs, tokExt, map[]);
      s.windowSize == (if tokExt.Some? then 5 else 10)
      && s.windowStride == (if tokExt.Some? then 2 else 10)
      && s.encoderLength == 512 && s.decoderLength == 80 && s.booleanLength == 512 && s.extractLength == 300
      && |Window(sentences, s.windowSize, s.windowStride)| == CeilDiv(|sentences|, if tokExt.Some? then 2 else 10)
  {
    var s := InitUtils(tokBool, tokAbs, tokExt, map[]);
    WindowCount(sentences, s.windowSize, s.windowStride);
  }

  /** The rendered window of this copy: `"question: Q </s> context: S </s>"`. */
  function UtilsLine(question: string, window: seq<string>): string
  {
    "question: " + question + " </s> context: " + Join(" ", window) + " </s>"
  }

  /** `to_context`: one string per window, always in the fixed template. */
  function UtilsToContext(s: Sampler, question: string, sentences: seq<string>): (r: seq<string>)
    requires s.windowStride != 0
  {
    var w := Window(sentences, s.windowSize, s.windowStride);
    seq(|w|, k requires 0 <= k < |w| => UtilsLine(question, w[k]))
  }

  /** One string per window, window k's sentences joined by spaces between
      "context: " and the closing " </s>"; the template is the abstractive
      one of the served sampler with `</s>` as separator, plus a closing
      separator. */
  lemma UtilsToContextSpec(s: Sampler, question: string, sentences: seq<string>)
    requires s.windowStride != 0
    ensures var w := Window(sentences, s.windowSize, s.windowStride);
      var r := UtilsToContext(s, question, sentences);
      |r| == |w|
      && forall k :: 0 <= k < |r| ==>
           r[k] == ContextLine(true, question, "</s>", w[k]) + " </s>"
           && EndsWith(r[k], " </s>")
  {
    var w := Window(sentences, s.windowSize, s.windowStride);
    var r := UtilsToContext(s, question, sentences);
    forall k | 0 <= k < |r|
      ensures r[k] == ContextLine(true, question, "</s>", w[k]) + " </s>" && EndsWith(r[k], " </s>")
    {
      assert ContextLine(true, question, "</s>", w[k])
          == "question: " + question + " " + "</s>" + " " + "context: " + Join(" ", w[k]);
    }
  }

  /** The training context: `"question: q </s> context: c </s>"`. */
  function UtilsTrainContext(question: string, context: string): string
  {
    "question: " + question + " </s> context: " + context + " </s>"
  }

  /** At training time the context is laid out exactly like a one-window
      context at prediction time. */
  lemma UtilsTrainMatchesPredict(question: string, context: string)
    ensures UtilsTrainContext(question, context) == UtilsLine(question, [context])
  {
  }

  /** The extractive training answer: `' ' + a + ' </s>'`. */
  function UtilsExtractiveAnswer(a: string): string
  {
    " " + a + " </s>"
  }

  /** `x[1:-1]`: the answer's token ids without the first and the last
      (the special tokens the encoder adds). */
  function StripEnds(ids: seq<int>): (r: seq<int>)
  {
    Slice(ids, 1, -1)
  }

  lemma StripEndsSpec(ids: seq<int>)
    ensures |StripEnds(ids)| == if |ids| <= 2 then 0 else |ids| - 2
    ensures |ids| >= 2 ==> [ids[0]] + StripEnds(ids) + [ids[|ids| - 1]] == ids
  {
    if |ids| >= 2 {
      SliceInRange(ids, 1, |ids| - 1);
      assert ids == [ids[0]] + ids[1..|ids| - 1] + [ids[|ids| - 1]];
    }
  }

  /** The row of this copy's loop body: the first index where all answer
      tokens match, with no minimum offset, and end = start + len(a). NumPy
      refuses the window view (negative dimension) when the answer is
      longer than its context by more than one token. */
  function UtilsRowFor(f: string, c: seq<int>, a: seq<int>): (r: Result<Option<SpanRow>>)
  {
    if |a| > |c| + 1 then Err("negative dimensions are not allowed")
    else
      match FindSpan(c, a, 0)
      case None => Ok(None)
      case Some(st) => Ok(Some(SpanRow(f, st, st + |a|)))
  }

  /** A row is kept exactly when the answer occurs somewhere in the context;
      a kept row starts at the first occurrence and spans the answer. */
  lemma UtilsRowForSpec(f: string, c: seq<int>, a: seq<int>)
    ensures UtilsRowFor(f, c, a).Err? <==> |a| > |c| + 1
    ensures UtilsRowFor(f, c, a).Ok? ==>
      (UtilsRowFor(f, c, a).value.Some? <==> exists i :: 0 <= i && OccursAt(c, a, i))
    ensures UtilsRowFor(f, c, a).Ok? && UtilsRowFor(f, c, a).value.Some? ==>
      var row := UtilsRowFor(f, c, a).value.value;
      row.fContext == f && 0 <= row.start && row.end == row.start + |a| <= |c|
      && c[row.start..row.end] == a
      && forall i :: 0 <= i < row.start ==> !OccursAt(c, a, i)
  {
  }

  /** Without the minimum offset, an answer at the very start of the
      context is found, where the served sampler drops the row. */
  lemma MinimumOffsetDiffers()
    ensures UtilsRowFor("x", [9, 3, 1, 1, 1, 1, 1], [9, 3]) == Ok(Some(SpanRow("x", 0, 2)))
    ensures RowFor("x", [9, 3, 1, 1, 1, 1, 1], [9, 3]).None?
  {
    RowForExamples();
    assert [9, 3, 1, 1, 1, 1, 1][0..2] == [9, 3];
    assert OccursAt([9, 3, 1, 1, 1, 1, 1], [9, 3], 0);
  }

  /** The per-row loop of `to_train_extractive_dataset` over the encoded
      contexts and the stripped answer ids, stopping at the first row NumPy
      refuses. */
  method UtilsSpanSearch(fContext: seq<string>, contexts: seq<seq<int>>, answers: seq<seq<int>>)
    returns (r: Result<seq<SpanRow>>)
    requires |contexts| == |fContext|
    ensures r == UtilsRows(fContext, contexts, answers, Min(|contexts|, |answers|))
  {
    var n := Min(|contexts|, |answers|);
    var indexes: seq<SpanRow> := [];
    var idx := 0;
    while idx < n
      invariant 0 <= idx <= n
      invariant UtilsRows(fContext, contexts, answers, idx) == Ok(indexes)
    {
      var c, a := contexts[idx], answers[idx];
      if |a| > |c| + 1 {
        UtilsRowsErrStays(fContext, contexts, answers, idx + 1, n);
        return Err("negative dimensions are not allowed");
      }
      var start := FindFrom(c, a, 0);
      if start.Some? {
        indexes := indexes + [SpanRow(fContext[idx], start.value, start.value + |a|)];
      }
      idx := idx + 1;
    }
    r := Ok(indexes);
  }

  /** The rows of the first n pairs, or the error of the first refused row. */
  function UtilsRows(fContext: seq<string>, contexts: seq<seq<int>>, answers: seq<seq<int>>, n: nat): (r: Result<seq<SpanRow>>)
    requires |contexts| == |fContext|
    requires n <= |contexts| && n <= |answers|
  {
    if n == 0 then Ok([])
    else
      match UtilsRows(fContext, contexts, answers, n - 1)
      case Err(e) => Err(e)
      case Ok(rows) =>
        match UtilsRowFor(fContext[n - 1], contexts[n - 1], answers[n - 1])
        case Err(e) => Err(e)
        case Ok(None) => Ok(rows)
        case Ok(Some(row)) => Ok(rows + [row])
  }

  /** Once a row is refused, every longer prefix is refused with the same error. */
  lemma {:induction false} UtilsRowsErrStays(fContext: seq<string>, contexts: seq<seq<int>>, answers: seq<seq<int>>, m: nat, n: nat)
    requires |contexts| == |fContext|
    requires 0 < m <= n <= |contexts| && n <= |answers|
    requires |answers[m - 1]| > |contexts[m - 1]| + 1
    requires UtilsRows(fContext, contexts, answers, m - 1).Ok?
    ensures UtilsRows(fContext, contexts, answers, n) == Err("negative dimensions are not allowed")
    decreases n
  {
    if n > m {
      UtilsRowsErrStays(fContext, contexts, answers, m, n - 1);
    }
  }

  /** The search succeeds exactly when no answer is longer than its context
      by more than one token; then the rows are those of the kept pairs. */
  lemma {:induction false} UtilsRowsSpec(fContext: seq<string>, contexts: seq<seq<int>>, answers: seq<seq<int>>, n: nat)
    requires |contexts| == |fContext|
    requires n <= |contexts| && n <= |answers|
    ensures UtilsRows(fContext, contexts, answers, n).Ok? <==>
      forall i :: 0 <= i < n ==> |answers[i]| <= |contexts[i]| + 1
    ensures UtilsRows(fContext, contexts, answers, n).Ok? ==>
      |UtilsRows(fContext, contexts, answers, n).value| <= n
    decreases n
  {
    if n > 0 {
      UtilsRowsSpec(fContext, contexts, answers, n - 1);
      UtilsRowForSpec(fContext[n - 1], contexts[n - 1], answers[n - 1]);
    }
  }

  // ------------------------------------------------------------------
  // to_predict_boolean_dataset on model outputs

  /** The from_abs branch of this copy: `q </s> ` followed by the decoded
      generations of `decoded[start:end + 1]` joined by spaces. */
  function UtilsFromAbs(question: string, decoded: seq<string>, endContext: seq<int>): (r: Result<seq<string>>)
  {
    if |question| == 0 then Err("question argument needed if from_abs is True")
    else if |endContext| == 0 then Err("end_context list needed if from_abs")
    else
      var gs := GroupsInclusive(decoded, endContext);
      Ok(seq(|gs|, i requires 0 <= i < |gs| => question + " </s> " + Join(" ", gs[i])))
  }

  /** The from_ext branch of this copy: `q </s> ` followed by the text after
      the last `</s>` of the group's decoded spans joined by spaces. */
  function UtilsFromExt(question: string, decoded: seq<string>, endContext: seq<int>): (r: Result<seq<string>>)
  {
    if |question| == 0 then Err("question argument needed if from_ext is True")
    else if |endContext| == 0 then Err("end_context list needed if from_ext")
    else
      var gs := GroupsInclusive(decoded, endContext);
      Ok(seq(|gs|, i requires 0 <= i < |gs| => question + " </s> " + LastPiece(Join(" ", gs[i]), "</s>")))
  }

  /** from_abs: input i joins group `decoded[start:end + 1]` with spaces, the
      group starting where the previous article's windows end. */
  lemma UtilsFromAbsSpec(question: string, decoded: seq<string>, endContext: seq<int>, i: nat)
    requires |question| > 0 && i < |endContext|
    ensures var r := UtilsFromAbs(question, decoded, endContext);
      var start := if i == 0 then 0 else endContext[i - 1];
      r.Ok? && |r.value| == |endContext|
      && r.value[i] == question + " </s> " + Join(" ", Slice(decoded, start, endContext[i] + 1))
  {
    StartsSpec(endContext, i);
  }

  /** from_ext: input i is `"q </s> "` followed by the text after the last
      `</s>` of group `decoded[start:end + 1]` joined by spaces, so after the
      prefix it holds no `</s>`. */
  lemma UtilsFromExtSpec(question: string, decoded: seq<string>, endContext: seq<int>, i: nat)
    requires |question| > 0 && i < |endContext|
    ensures var r := UtilsFromExt(question, decoded, endContext);
      var start := if i == 0 then 0 else endContext[i - 1];
      r.Ok? && |r.value| == |endContext|
      && r.value[i] == question + " </s> " + LastPiece(Join(" ", Slice(decoded, start, endContext[i] + 1)), "</s>")
      && |r.value[i]| >= |question| + 6
      && r.value[i][..|question| + 6] == question + " </s> "
      && !IsSubstring("</s>", r.value[i][|question| + 6..])
  {
    StartsSpec(endContext, i);
    var gs := GroupsInclusive(decoded, endContext);
    var tail := LastPiece(Join(" ", gs[i]), "</s>");
    LastPieceHasNoSeparator(Join(" ", gs[i]), "</s>");
    var line := question + " </s> " + tail;
    assert line[..|question| + 6] == question + " </s> ";
    assert line[|question| + 6..] == tail;
  }

  /** With the running window counts as `end_context`, from_ext input i is
      read off article i's own decoded spans and, for every article but the
      last, the first span of the next article. */
  lemma UtilsFromExtOwn(question: string, decoded: seq<string>, counts: seq<nat>, i: nat)
    requires |decoded| == Sum(counts)
    requires |question| > 0 && i < |counts|
    ensures Sum(counts[..i]) + counts[i] <= |decoded|
    ensures var r := UtilsFromExt(question, decoded, Cumsum(counts));
      var e := Cumsum(counts);
      var own := decoded[Sum(counts[..i])..Sum(counts[..i]) + counts[i]];
      r.Ok? && |r.value| == |counts|
      && r.value[i] == question + " </s> "
           + LastPiece(Join(" ", if e[i] < |decoded| then own + [decoded[e[i]]] else own), "</s>")
  {
    var e := Cumsum(counts);
    GroupsOfCumsum(decoded, counts, i);
    CumsumSpec(counts);
    if e[i] < |decoded| {
      GroupsInclusiveOverlap(decoded, e, i);
    } else {
      GroupsInclusiveAtEnd(decoded, e, i);
    }
  }

  /** The rendered windows of every article, in the fixed template. */
  function ArticleContexts(s: Sampler, rows: seq<Article>, sentTokenize: string -> seq<string>): (r: seq<seq<string>>)
    requires s.windowStride != 0
    ensures |r| == |rows|
    ensures forall i :: 0 <= i < |rows| ==> r[i] == UtilsToContext(s, rows[i].question, sentTokenize(rows[i].context))
  {
    seq(|rows|, i requires 0 <= i < |rows| => UtilsToContext(s, rows[i].question, sentTokenize(rows[i].context)))
  }

  /** The table branch of this copy: every article's windows in the fixed
      template, flattened, and the cumulative window counts. */
  function UtilsPredictDataset(s: Sampler, rows: seq<Article>, sentTokenize: string -> seq<string>): (r: PredictInput)
    requires s.windowStride != 0
  {
    var cs := ArticleContexts(s, rows, sentTokenize);
    PredictInput(Flatten(cs), Cumsum(Lengths(cs)))
  }

  /** `end_context` is the cumulative window count: one entry per article,
      the last equal to the total number of windows, and article i's
      windows are the slice between consecutive entries. */
  lemma UtilsPredictDatasetSpec(s: Sampler, rows: seq<Article>, sentTokenize: string -> seq<string>, i: nat)
    requires s.windowStride != 0
    requires i < |rows|
    ensures var p := UtilsPredictDataset(s, rows, sentTokenize);
      |p.endContext| == |rows|
      && p.endContext[|rows| - 1] == |p.windows|
      && Groups(p.windows, p.endContext)[i] == UtilsToContext(s, rows[i].question, sentTokenize(rows[i].context))
  {
    var cs := ArticleContexts(s, rows, sentTokenize);
    FlattenLength(cs);
    CumsumSpec(Lengths(cs));
    GroupsOfFlatten(cs);
  }

  /** Unknown answers map to 2 (neutral) with the default labels of this
      copy, which are those of the served sampler. */
  lemma UtilsUnknownAnswerNeutral(answer: string)
    requires answer != "no" && answer != "yes" && answer != "neutral"
    ensures BooleanLabels(None).Ok? && Label(BooleanLabels(None).value, answer) == 2
  {
  }
}
