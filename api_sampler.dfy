/** The sampler of the served pipeline: it cuts each article's sentences
    into overlapping windows, renders one "question SEP window" string per
    window, formats the training data, finds the answer span in the token
    ids of the extractive training contexts, and cuts the flat list of model
    outputs back into per-article groups to build the boolean classifier's
    input. Tokenizers and the sentence splitter are opaque: their outputs
    are given as sequences. */
module ApiSampler {
  import opened PyLib
  import opened Aggregation

  // ------------------------------------------------------------------
  // configuration

  /** The keyword arguments of the constructor; every value used is an int. */
  type Kwargs = map<string, int>

  /** `kwargs.get(key, default)`. */
  function Get(kwargs: Kwargs, key: string, default: int): (r: int)
    ensures key in kwargs ==> r == kwargs[key]
    ensures key !in kwargs ==> r == default
  {
    if key in kwargs then kwargs[key] else default
  }

  /** What the pipeline uses of a tokenizer: its `special_tokens_map`
      entry 'sep_token', which may be missing (a KeyError). */
  datatype Tokenizer = Tokenizer(sepToken: Option<string>)

  datatype Sampler = Sampler(
    encoderLength: int,
    decoderLength: int,
    booleanLength: int,
    extractLength: int,
    windowSize: int,
    windowStride: int,
    tokBool: Tokenizer,
    tokAbs: Option<Tokenizer>,
    tokExt: Option<Tokenizer>)

  /** `Sampler.__init__`: the model lengths default to 300/80/250/250; the
      window is 7 sentences every 3 when an extractive tokenizer is given,
      10 every 10 otherwise; every default may be overridden by keyword. */
  function Init(tokBool: Tokenizer, tokAbs: Option<Tokenizer>, tokExt: Option<Tokenizer>, kwargs: Kwargs): (s: Sampler)
  {
    Sampler(
      Get(kwargs, "encoder_length", 300),
      Get(kwargs, "decoder_length", 80),
      Get(kwargs, "boolean_length", 250),
      Get(kwargs, "extract_length", 250),
      Get(kwargs, "window_size", if tokExt.Some? then 7 else 10),
      Get(kwargs, "window_stride", if tokExt.Some? then 3 else 10),
      tokBool, tokAbs, tokExt)
  }

  /** The window defaults: 7/3 with an extractive tokenizer, 10/10 without;
      an explicit keyword always wins. */
  lemma InitDefaults(tokBool: Tokenizer, tokAbs: Option<Tokenizer>, tokExt: Option<Tokenizer>, kwargs: Kwargs)
    ensures var s := Init(tokBool, tokAbs, tokExt, kwargs);
      ("window_size" !in kwargs ==> s.windowSize == if tokExt.Some? then 7 else 10)
      && ("window_stride" !in kwargs ==> s.windowStride == if tokExt.Some? then 3 else 10)
      && ("window_size" in kwargs ==> s.windowSize == kwargs["window_size"])
      && ("window_stride" in kwargs ==> s.windowStride == kwargs["window_stride"])
      && (kwargs == map[] ==>
            s.encoderLength == 300 && s.decoderLength == 80 && s.booleanLength == 250 && s.extractLength == 250)
      && s.tokBool == tokBool && s.tokAbs == tokAbs && s.tokExt == tokExt
  {
  }

  // ------------------------------------------------------------------
  // windows

  /** `[sentences[w:w + size] for w in range(0, len(sentences), stride)]`;
      `range` raises for a zero stride. */
  function Window<T>(sentences: seq<T>, size: int, stride: int): (r: seq<seq<T>>)
    requires stride != 0
  {
    var starts := Range(0, |sentences|, stride);
    seq(|starts|, k requires 0 <= k < |starts| => Slice(sentences, starts[k], starts[k] + size))
  }

  /** Window k is the slice starting at k * stride, clamped at the end of
      the list; with a positive size it is non-empty and holds at most
      `size` sentences. */
  lemma WindowAt<T>(sentences: seq<T>, size: int, stride: int, k: nat)
    requires stride > 0
    requires k < |Window(sentences, size, stride)|
    ensures k * stride < |sentences|
    ensures var n := |sentences|;
      size >= 0 ==>
        Window(sentences, size, stride)[k] == sentences[k * stride..if k * stride + size <= n then k * stride + size else n]
    ensures size >= 1 ==> 1 <= |Window(sentences, size, stride)[k]| <= size
  {
    var n := |sentences|;
    var st := Range(0, n, stride)[k];
    assert st == k * stride;
    if size >= 0 {
      var hi := if st + size <= n then st + size else n;
      SliceInRange(sentences, st, hi);
    }
  }

  /** N sentences give ceil(N / stride) windows, none for N = 0, and each
      window starts one stride after the previous one. */
  lemma WindowCount<T>(sentences: seq<T>, size: int, stride: int)
    requires stride > 0
    ensures |Window(sentences, size, stride)| == CeilDiv(|sentences|, stride)
    ensures |sentences| == 0 ==> Window(sentences, size, stride) == []
  {
    RangeLength(0, |sentences|, stride);
  }

  /** A negative stride makes `range(0, N, stride)` empty: no window. */
  lemma WindowNegativeStride<T>(sentences: seq<T>, size: int, stride: int)
    requires stride < 0
    ensures Window(sentences, size, stride) == []
  {
  }

  lemma DivFloor(j: nat, d: nat)
    requires d > 0
    ensures (j / d) * d <= j < (j / d) * d + d
  {
    assert j == (j / d) * d + j % d;
  }

  /** When windows overlap or touch (stride <= size), every sentence
      falls in some window. */
  lemma WindowCovers<T>(sentences: seq<T>, size: int, stride: int, j: nat)
    requires 0 < stride <= size
    requires j < |sentences|
    ensures exists k ::
              0 <= k < |Window(sentences, size, stride)|
              && 0 <= j - k * stride < |Window(sentences, size, stride)[k]|
              && Window(sentences, size, stride)[k][j - k * stride] == sentences[j]
  {
    var n := |sentences|;
    var k := j / stride;
    DivFloor(j, stride);
    assert k * stride <= j < k * stride + size;
    WindowCount(sentences, size, stride);
    CeilDivBounds(n, stride);
    assert k < CeilDiv(n, stride) by {
      if k >= CeilDiv(n, stride) {
        MulMonotone(CeilDiv(n, stride), k, stride);
      }
    }
    WindowHolds(sentences, size, stride, k, k * stride, j);
  }

  /** Window k holds every sentence from its start up to `size` after it. */
  lemma WindowHolds<T>(sentences: seq<T>, size: int, stride: int, k: nat, st: int, j: nat)
    requires 0 < stride && st == k * stride
    requires k < |Window(sentences, size, stride)|
    requires st <= j < st + size && j < |sentences|
    ensures 0 <= j - st < |Window(sentences, size, stride)[k]|
    ensures Window(sentences, size, stride)[k][j - st] == sentences[j]
  {
    WindowAt(sentences, size, stride, k);
  }

  // ------------------------------------------------------------------
  // rendering windows

  /** The `passing` argument: a mode name, or the boolean `True` that
      `to_predict_abstractive_dataset` passes in its place. */
  datatype Passing = Mode(name: string) | Flag(value: bool)

  predicate IsAbstractive(passing: Passing)
  {
    passing == Mode("abstractive")
  }

  /** The separator token of the tokenizer that `passing` selects: the
      abstractive one for "abstractive", the extractive one for
      "extractive", the boolean one for anything else. A tokenizer that was
      not given (None) or lacks a 'sep_token' raises. */
  function Separator(s: Sampler, passing: Passing): (r: Result<string>)
  {
    var tok :=
      if passing == Mode("abstractive") then s.tokAbs
      else if passing == Mode("extractive") then s.tokExt
      else Some(s.tokBool);
    match tok
    case None => Err("'NoneType' object has no attribute 'special_tokens_map'")
    case Some(t) =>
      match t.sepToken
      case None => Err("KeyError: 'sep_token'")
      case Some(sep) => Ok(sep)
  }

  /** The separator comes from the tokenizer chosen by the mode; the flag
      `True` behaves exactly like "boolean". */
  lemma SeparatorSpec(s: Sampler, passing: Passing)
    ensures passing == Mode("abstractive") ==>
      (Separator(s, passing).Ok? <==> s.tokAbs.Some? && s.tokAbs.value.sepToken.Some?)
      && (Separator(s, passing).Ok? ==> Separator(s, passing).value == s.tokAbs.value.sepToken.value)
    ensures passing == Mode("extractive") && s.tokExt.Some? && s.tokExt.value.sepToken.Some? ==>
      Separator(s, passing) == Ok(s.tokExt.value.sepToken.value)
    ensures passing != Mode("abstractive") && passing != Mode("extractive") ==>
      Separator(s, passing) == (if s.tokBool.sepToken.Some? then Ok(s.tokBool.sepToken.value) else Err("KeyError: 'sep_token'"))
    ensures Separator(s, Flag(true)) == Separator(s, Mode("boolean"))
  {
  }

  /** One rendered window: `"question: Q SEP context: S"` in abstractive
      mode, `"Q SEP S"` otherwise, with S the window's sentences joined by
      single spaces. */
  function ContextLine(isAbs: bool, question: string, sep: string, window: seq<string>): string
  {
    (if isAbs then "question: " else "") + question + " " + sep + " "
      + (if isAbs then "context: " else "") + Join(" ", window)
  }

  /** `to_context`: one rendered string per window of the article's
      sentences. */
  function ToContext(s: Sampler, question: string, sentences: seq<string>, passing: Passing): (r: Result<seq<string>>)
    requires s.windowStride != 0
  {
    match Separator(s, passing)
    case Err(e) => Err(e)
    case Ok(sep) =>
      var w := Window(sentences, s.windowSize, s.windowStride);
      Ok(seq(|w|, k requires 0 <= k < |w| => ContextLine(IsAbstractive(passing), question, sep, w[k])))
  }

  /** There is one string per window; string k is the question, the
      separator and window k, with the "question: "/"context: " prefixes in
      abstractive mode only. */
  lemma ToContextSpec(s: Sampler, question: string, sentences: seq<string>, passing: Passing)
    requires s.windowStride != 0
    ensures Separator(s, passing).Ok? <==> ToContext(s, question, sentences, passing).Ok?
    ensures Separator(s, passing).Ok? ==>
      var sep := Separator(s, passing).value;
      var w := Window(sentences, s.windowSize, s.windowStride);
      var r := ToContext(s, question, sentences, passing).value;
      |r| == |w|
      && forall k :: 0 <= k < |r| ==>
           r[k] == (if passing == Mode("abstractive")
                    then "question: " + question + " " + sep + " context: " + Join(" ", w[k])
                    else question + " " + sep + " " + Join(" ", w[k]))
  {
    if Separator(s, passing).Ok? {
      var sep := Separator(s, passing).value;
      var w := Window(sentences, s.windowSize, s.windowStride);
      var r := ToContext(s, question, sentences, passing).value;
      forall k | 0 <= k < |r|
        ensures r[k] == (if passing == Mode("abstractive")
                    then "question: " + question + " " + sep + " context: " + Join(" ", w[k])
                    else question + " " + sep + " " + Join(" ", w[k]))
      {
        if passing == Mode("abstractive") {
          assert r[k] == "question: " + question + " " + sep + " " + "context: " + Join(" ", w[k]);
        } else {
          assert r[k] == "" + question + " " + sep + " " + "" + Join(" ", w[k]);
        }
      }
    }
  }

  /** `to_predict_abstractive_dataset` passes `True`, which renders the
      windows in boolean form with the boolean tokenizer's separator. */
  lemma AbstractivePredictUsesBooleanFormat(s: Sampler, question: string, sentences: seq<string>)
    requires s.windowStride != 0
    ensures ToContext(s, question, sentences, Flag(true)) == ToContext(s, question, sentences, Mode("boolean"))
  {
    SeparatorSpec(s, Mode("boolean"));
    assert !IsAbstractive(Flag(true)) && !IsAbstractive(Mode("boolean"));
    if Separator(s, Flag(true)).Ok? {
      var a := ToContext(s, question, sentences, Flag(true)).value;
      var b := ToContext(s, question, sentences, Mode("boolean")).value;
      assert |a| == |b|;
      assert forall k :: 0 <= k < |a| ==> a[k] == b[k];
    }
  }

  // ------------------------------------------------------------------
  // unique_sent

  /** s is contained in some other string of the list. */
  predicate ContainedInOther(s: string, xs: seq<string>)
  {
    exists j :: 0 <= j < |xs| && xs[j] != s && IsSubstring(s, xs[j])
  }

  function Keep(xs: seq<string>, all: seq<string>): (r: seq<string>)
    ensures forall x :: x in r <==> x in xs && !ContainedInOther(x, all)
  {
    if |xs| == 0 then []
    else (if ContainedInOther(xs[0], all) then [] else [xs[0]]) + Keep(xs[1..], all)
  }

  /** `unique_sent`: the strings of the list that are not a substring of a
      different string of the list, each once. */
  function UniqueSent(xs: seq<string>): (r: seq<string>)
    ensures NoDup(r)
    ensures forall x :: x in r <==> x in xs && !ContainedInOther(x, xs)
  {
    var k := Keep(xs, xs);
    DedupSpec(k);
    Dedup(k)
  }

  /** The strings of the `unique_sent` example. */
  const SentExample: seq<string> := ["diabetes", "type 2 diabetes", "sugar"]

  /** "diabetes" lies inside "type 2 diabetes" and disappears; the other two
      strings stay. */
  lemma UniqueSentExample()
    ensures var r := UniqueSent(SentExample);
      "diabetes" !in r && "type 2 diabetes" in r && "sugar" in r
  {
    ExampleDiabetesContained();
    ExampleTypeTwoKept();
    ExampleSugarKept();
    assert SentExample[0] == "diabetes" && SentExample[1] == "type 2 diabetes" && SentExample[2] == "sugar";
  }

  lemma ExampleDiabetesContained()
    ensures ContainedInOther("diabetes", SentExample)
  {
    var xs := SentExample;
    assert OccursAt(xs[1], xs[0], 7);
    IsSubstringWitness(xs[0], xs[1], 7);
  }

  lemma ExampleTypeTwoKept()
    ensures !ContainedInOther("type 2 diabetes", SentExample)
  {
    var xs := SentExample;
    LongerNotSubstring(xs[1], xs[0]);
    LongerNotSubstring(xs[1], xs[2]);
    KeptAmongThree(xs[0], xs[2], xs[1]);
    assert [xs[0], xs[1], xs[2]] == xs;
  }

  lemma ExampleSugarKept()
    ensures !ContainedInOther("sugar", SentExample)
  {
    var xs := SentExample;
    assert xs[2][2] == 'g';
    CharAbsent(xs[2], xs[0], 2);
    CharAbsent(xs[2], xs[1], 2);
    KeptAmongThree(xs[0], xs[1], xs[2]);
    assert [xs[0], xs[1], xs[2]] == xs;
  }

  /** A string lying in neither of two others is kept from a list of the
      three, wherever it stands. */
  lemma KeptAmongThree(a: string, b: string, c: string)
    requires !IsSubstring(c, a) && !IsSubstring(c, b)
    ensures !ContainedInOther(c, [a, b, c]) && !ContainedInOther(c, [a, c, b])
  {
  }

  /** A string holding a character that b lacks is not a substring of b. */
  lemma CharAbsent(a: string, b: string, k: nat)
    requires k < |a| && a[k] !in b
    ensures !IsSubstring(a, b)
  {
    forall i | 0 <= i ensures !OccursAt(b, a, i) {
      if i + |a| <= |b| {
        assert b[i + k] in b;
        assert b[i..i + |a|][k] == b[i + k];
      }
    }
  }

  lemma LongerNotSubstring(a: string, b: string)
    requires |a| > |b|
    ensures !IsSubstring(a, b)
  {
  }


  // ------------------------------------------------------------------
  // training-time formatting and labels

  /** The training context of `to_train_dataset`: the rendered window with a
      final "." and separator, after `re.sub('\.+', '.', ...)`. */
  function TrainContext(isAbs: bool, sep: string, question: string, context: string): (r: string)
  {
    CollapseRuns(ContextLine(isAbs, question, sep, [context]) + "." + sep, '.')
  }

  lemma NoDoubledNoSubstring(s: string, c: char)
    requires NoDoubled(s, c)
    ensures !IsSubstring([c, c], s)
  {
    forall i | 0 <= i ensures !OccursAt(s, [c, c], i) {
      if i + 2 <= |s| {
        assert s[i..i + 2][0] == s[i] && s[i..i + 2][1] == s[i + 1];
        assert !(s[i] == c && s[i + 1] == c);
      }
    }
  }

  /** The training context contains no "..". */
  lemma TrainContextNoDoubleDot(isAbs: bool, sep: string, question: string, context: string)
    ensures !IsSubstring("..", TrainContext(isAbs, sep, question, context))
  {
    var raw := ContextLine(isAbs, question, sep, [context]) + "." + sep;
    CollapseRunsNoDoubled(raw, '.');
    NoDoubledNoSubstring(TrainContext(isAbs, sep, question, context), '.');
    assert ".." == ['.', '.'];
  }

  /** Collapsing the dots keeps every other character of the rendered
      window and separator, in order. */
  lemma TrainContextKeepsText(isAbs: bool, sep: string, question: string, context: string)
    ensures Without(TrainContext(isAbs, sep, question, context), '.')
         == Without(ContextLine(isAbs, question, sep, [context]) + sep, '.')
  {
    DotKeepsText(ContextLine(isAbs, question, sep, [context]), sep);
  }

  /** Appending a dot and collapsing runs of dots keeps every other
      character. */
  lemma DotKeepsText(line: string, sep: string)
    ensures Without(CollapseRuns(line + "." + sep, '.'), '.') == Without(line + sep, '.')
  {
    var d := "." + sep;
    var raw := line + d;
    assert line + "." + sep == raw;
    CollapseRunsKeepsOthers(raw, '.');
    WithoutAppend(line, d, '.');
    WithoutLeadingDot(d, sep);
    WithoutAppend(line, sep, '.');
  }

  /** A leading dot is dropped by `Without`. */
  lemma WithoutLeadingDot(d: string, sep: string)
    requires d == "." + sep
    ensures Without(d, '.') == Without(sep, '.')
  {
    assert d[0] == '.' && d[1..] == sep;
  }

  /** When the separator holds no '.', the training context ends with
      exactly "." followed by the separator. */
  lemma TrainContextEnding(isAbs: bool, sep: string, question: string, context: string)
    requires '.' !in sep
    ensures EndsWith(TrainContext(isAbs, sep, question, context), "." + sep)
  {
    var line := ContextLine(isAbs, question, sep, [context]);
    CollapseRunsEndsWith(line, sep, '.');
    assert line + ['.'] + sep == line + "." + sep;
    assert ['.'] + sep == "." + sep;
  }

  lemma {:induction false} WithoutAppend(a: string, b: string, c: char)
    ensures Without(a + b, c) == Without(a, c) + Without(b, c)
    decreases |a|
  {
    if |a| == 0 {
      assert a + b == b;
    } else {
      assert (a + b)[1..] == a[1..] + b;
      WithoutAppend(a[1..], b, c);
    }
  }

  /** The training answer of `to_train_extractive_dataset`:
      `re.sub(' +', ' ', ' ' + a)`. */
  function ExtractiveAnswer(a: string): (r: string)
  {
    CollapseRuns(" " + a, ' ')
  }

  /** The extractive answer starts with one space, has no two consecutive
      spaces, and keeps every other character of the answer in order. */
  lemma ExtractiveAnswerSpec(a: string)
    ensures var r := ExtractiveAnswer(a);
      |r| > 0 && r[0] == ' ' && NoDoubled(r, ' ') && Without(r, ' ') == Without(a, ' ')
  {
    CollapseRunsHead(" " + a, ' ');
    CollapseRunsNoDoubled(" " + a, ' ');
    CollapseRunsKeepsOthers(" " + a, ' ');
    assert (" " + a)[1..] == a;
  }

  /** The labels of `to_train_boolean_dataset`: a caller's non-empty dict
      must have exactly three entries; absent or empty, the default
      {'no': 0, 'yes': 1, 'neutral': 2} is used. */
  function BooleanLabels(labels: Option<map<string, int>>): (r: Result<map<string, int>>)
  {
    if labels.Some? && |labels.value| > 0 then
      if |labels.value| == 3 then Ok(labels.value)
      else Err("Labels must have no/yes/neutral keys")
    else Ok(map["no" := 0, "yes" := 1, "neutral" := 2])
  }

  /** `labels.get(answer, 2)`. */
  function Label(labels: map<string, int>, answer: string): (r: int)
  {
    if answer in labels then labels[answer] else 2
  }

  /** A given dict is refused unless it has three entries; the default maps
      no/yes/neutral to 0/1/2 and every other answer to 2. */
  lemma BooleanLabelsSpec(labels: Option<map<string, int>>, answer: string)
    ensures labels.Some? && |labels.value| > 0 ==>
      (BooleanLabels(labels).Ok? <==> |labels.value| == 3)
      && (BooleanLabels(labels).Ok? ==> BooleanLabels(labels).value == labels.value)
    ensures (labels.None? || |labels.value| == 0) ==>
      var l := BooleanLabels(labels).value;
      Label(l, "no") == 0 && Label(l, "yes") == 1 && Label(l, "neutral") == 2
      && (answer != "no" && answer != "yes" && answer != "neutral" ==> Label(l, answer) == 2)
    ensures BooleanLabels(labels).Ok? && answer !in BooleanLabels(labels).value ==>
      Label(BooleanLabels(labels).value, answer) == 2
  {
  }

  /** The `f_context` column for the given question and context columns. */
  function TrainContexts(isAbs: bool, sep: string, question: seq<string>, context: seq<string>): (r: seq<string>)
    requires |context| == |question|
    ensures |r| == |question|
  {
    seq(|question|, i requires 0 <= i < |question| => TrainContext(isAbs, sep, question[i], context[i]))
  }

  /** The boolean `f_answer` column. */
  function Labels(labels: map<string, int>, answer: seq<string>): (r: seq<int>)
    ensures |r| == |answer|
  {
    seq(|answer|, i requires 0 <= i < |answer| => Label(labels, answer[i]))
  }

  /** The extractive `f_answer` column. */
  function ExtractiveAnswers(answer: seq<string>): (r: seq<string>)
    ensures |r| == |answer|
  {
    seq(|answer|, i requires 0 <= i < |answer| => ExtractiveAnswer(answer[i]))
  }

  /** The training table the formatting steps add columns to: the given
      question, context and answer columns, and the `f_context` /
      `f_answer` columns that `to_train_*_dataset` assigns. */
  class TrainingData {
    var question: seq<string>
    var context: seq<string>
    var answer: seq<string>
    var fContext: seq<string>
    var fAnswer: seq<string>
    var fLabel: seq<int>

    predicate Valid()
      reads this
    {
      |context| == |question| && |answer| == |question|
    }

    constructor(question: seq<string>, context: seq<string>, answer: seq<string>)
      requires |context| == |question| && |answer| == |question|
      ensures Valid()
      ensures this.question == question && this.context == context && this.answer == answer
      ensures fContext == [] && fAnswer == [] && fLabel == []
    {
      this.question := question;
      this.context := context;
      this.answer := answer;
      fContext := [];
      fAnswer := [];
      fLabel := [];
    }

    /** `to_train_dataset`: the `f_context` column, one training context
        per row, with the separator of the tokenizer the mode selects. */
    method ToTrainDataset(s: Sampler, passing: Passing) returns (r: Result<()>)
      requires Valid()
      modifies this
      ensures Valid()
      ensures r.Ok? <==> Separator(s, passing).Ok?
      ensures r.Ok? ==> fContext == TrainContexts(IsAbstractive(passing), Separator(s, passing).value, question, context)
      ensures r.Err? ==> fContext == old(fContext)
      ensures question == old(question) && context == old(context) && answer == old(answer)
      ensures fAnswer == old(fAnswer) && fLabel == old(fLabel)
    {
      match Separator(s, passing)
      case Err(e) =>
        r := Err(e);
      case Ok(sep) =>
        fContext := TrainContexts(IsAbstractive(passing), sep, question, context);
        r := Ok(());
    }

    /** `to_train_boolean_dataset`: the `f_answer` column holds the label of
        each row's answer. */
    method SetBooleanAnswers(labels: Option<map<string, int>>) returns (r: Result<()>)
      requires Valid()
      modifies this
      ensures Valid()
      ensures r.Ok? <==> BooleanLabels(labels).Ok?
      ensures r.Ok? ==> fLabel == Labels(BooleanLabels(labels).value, answer)
      ensures r.Err? ==> fLabel == old(fLabel)
      ensures question == old(question) && context == old(context) && answer == old(answer)
      ensures fContext == old(fContext) && fAnswer == old(fAnswer)
    {
      match BooleanLabels(labels)
      case Err(e) =>
        r := Err(e);
      case Ok(l) =>
        fLabel := Labels(l, answer);
        r := Ok(());
    }

    /** `to_train_extractive_dataset`: the `f_answer` column holds each
        answer with one leading space and single spaces. */
    method SetExtractiveAnswers()
      requires Valid()
      modifies this
      ensures Valid()
      ensures fAnswer == ExtractiveAnswers(answer)
      ensures question == old(question) && context == old(context) && answer == old(answer)
      ensures fContext == old(fContext) && fLabel == old(fLabel)
    {
      fAnswer := ExtractiveAnswers(answer);
    }
  }

  // ------------------------------------------------------------------
  // answer-span search of to_train_extractive_dataset

  /** One kept training row: the context string and the answer's token
      start and end. */
  datatype SpanRow = SpanRow(fContext: string, start: int, end: int)

  /** The first index at or after `minStart` where the answer's token ids
      occur in the context's token ids. */
  function FindSpan(c: seq<int>, a: seq<int>, minStart: nat): (r: Option<nat>)
  {
    FindFrom(c, a, minStart)
  }

  /** The row the loop body appends for context c and answer a, if any: an
      answer longer than its context is skipped, and so is one that does not
      occur at index 5 or later; the end is `start + len(a)` when that fits
      in the context and `len(c) - start - 1` otherwise. */
  function RowFor(f: string, c: seq<int>, a: seq<int>): (r: Option<SpanRow>)
  {
    if |a| > |c| then None
    else
      match FindSpan(c, a, 5)
      case None => None
      case Some(st) =>
        var max := st + |a|;
        Some(SpanRow(f, st, if max <= |c| then max else |c| - st - 1))
  }

  /** A row is kept exactly when the answer occurs in the context at index
      5 or later; a kept row starts at the first such index, ends at
      start + len(a) (the `len(c) - start - 1` branch is never taken) and
      the tokens between start and end are the answer's. */
  lemma RowForSpec(f: string, c: seq<int>, a: seq<int>)
    ensures RowFor(f, c, a).Some? <==> exists i :: 5 <= i && OccursAt(c, a, i)
    ensures RowFor(f, c, a).Some? ==>
      var row := RowFor(f, c, a).value;
      row.fContext == f && 5 <= row.start && row.end == row.start + |a| <= |c|
      && c[row.start..row.end] == a
      && forall i :: 5 <= i < row.start ==> !OccursAt(c, a, i)
  {
    if |a| > |c| {
      forall i | 5 <= i ensures !OccursAt(c, a, i) {
      }
    }
  }

  /** Two concrete rows: [9, 3] is found at index 5 of
      [1, 1, 1, 1, 1, 9, 3, 0], while a match at index 0 only is too early. */
  lemma RowForExamples()
    ensures RowFor("x", [1, 1, 1, 1, 1, 9, 3, 0], [9, 3]) == Some(SpanRow("x", 5, 7))
    ensures RowFor("y", [9, 3, 1, 1, 1, 1, 1], [9, 3]).None?
  {
    var c := [1, 1, 1, 1, 1, 9, 3, 0];
    assert c[5..7] == [9, 3];
    assert OccursAt(c, [9, 3], 5);
    var d := [9, 3, 1, 1, 1, 1, 1];
    forall i | 5 <= i ensures !OccursAt(d, [9, 3], i) {
      if i + 2 <= |d| {
        assert d[i..i + 2][0] == d[i] == 1;
      }
    }
  }

  /** The values of the present entries, in order. */
  function Somes<T>(xs: seq<Option<T>>): (r: seq<T>)
    ensures |r| <= |xs|
  {
    if |xs| == 0 then []
    else Somes(xs[..|xs| - 1]) + (if xs[|xs| - 1].Some? then [xs[|xs| - 1].value] else [])
  }

  /** Every present entry is kept and every kept value was present. */
  lemma {:induction false} SomesSpec<T>(xs: seq<Option<T>>)
    ensures forall y :: y in Somes(xs) <==> Some(y) in xs
    decreases |xs|
  {
    if |xs| > 0 {
      SomesSpec(xs[..|xs| - 1]);
      var p := xs[..|xs| - 1];
      assert xs == p + [xs[|xs| - 1]];
      forall y ensures Some(y) in xs <==> Some(y) in p || Some(y) == xs[|xs| - 1] {
      }
    }
  }

  /** The row of every pair of `zip(context, answer)`, kept or not. */
  function Rows(fContext: seq<string>, contexts: seq<seq<int>>, answers: seq<seq<int>>): (r: seq<Option<SpanRow>>)
    requires |contexts| == |fContext|
    ensures |r| == Min(|contexts|, |answers|)
  {
    var n := Min(|contexts|, |answers|);
    seq(n, i requires 0 <= i < n => RowFor(fContext[i], contexts[i], answers[i]))
  }

  /** The loop over `enumerate(zip(context, answer))` that collects the kept
      rows in `indexes`; row i's context string is `f_context` of row i. */
  method SpanSearch(fContext: seq<string>, contexts: seq<seq<int>>, answers: seq<seq<int>>)
    returns (indexes: seq<SpanRow>)
    requires |contexts| == |fContext|
    ensures indexes == Somes(Rows(fContext, contexts, answers))
  {
    var n := Min(|contexts|, |answers|);
    ghost var rows := Rows(fContext, contexts, answers);
    indexes := [];
    var idx := 0;
    while idx < n
      invariant 0 <= idx <= n
      invariant indexes == Somes(rows[..idx])
    {
      var c, a := contexts[idx], answers[idx];
      assert rows[..idx + 1][..idx] == rows[..idx];
      if |a| <= |c| {
        var start := FindFrom(c, a, 5);
        if start.Some? {
          var st := start.value;
          var max := st + |a|;
          indexes := indexes + [SpanRow(fContext[idx], st, if max <= |c| then max else |c| - st - 1)];
        }
      }
      idx := idx + 1;
    }
    assert rows[..n] == rows;
  }

  // ------------------------------------------------------------------
  // prediction-time datasets

  /** One article row of a prediction table. */
  datatype Article = Article(
    question: string, context: string, id: string, title: string,
    doi: string, authors: string, date: string, url: string)

  function Lengths<T>(xss: seq<seq<T>>): (r: seq<nat>)
    ensures |r| == |xss|
    ensures forall i :: 0 <= i < |xss| ==> r[i] == |xss[i]|
  {
    seq(|xss|, i requires 0 <= i < |xss| => |xss[i]|)
  }

  /** The per-article rendered windows of a table, or the first error. */
  function ContextsOf(s: Sampler, rows: seq<Article>, sentTokenize: string -> seq<string>, passing: Passing): (r: Result<seq<seq<string>>>)
    requires s.windowStride != 0
    ensures r.Ok? ==> |r.value| == |rows|
    ensures r.Ok? ==> forall i :: 0 <= i < |rows| ==>
      ToContext(s, rows[i].question, sentTokenize(rows[i].context), passing) == Ok(r.value[i])
  {
    if |rows| == 0 then Ok([])
    else
      match (ToContext(s, rows[0].question, sentTokenize(rows[0].context), passing), ContextsOf(s, rows[1..], sentTokenize, passing))
      case (Err(e), _) => Err(e)
      case (_, Err(e)) => Err(e)
      case (Ok(c), Ok(cs)) => Ok([c] + cs)
  }

  /** What `to_predict_*_dataset` hands to the tokenizer and the caller: the
      exploded list of window strings and `end_context`. */
  datatype PredictInput = PredictInput(windows: seq<string>, endContext: seq<nat>)

  /** The table branch of the prediction datasets: every article's windows
      rendered with `passing`, flattened, and the cumulative window counts. */
  function PredictDataset(s: Sampler, rows: seq<Article>, sentTokenize: string -> seq<string>, passing: Passing): (r: Result<PredictInput>)
    requires s.windowStride != 0
  {
    match ContextsOf(s, rows, sentTokenize, passing)
    case Err(e) => Err(e)
    case Ok(cs) => Ok(PredictInput(Flatten(cs), Cumsum(Lengths(cs))))
  }

  /** `end_context` has one entry per article, ends at the total number of
      windows, and cutting the flat window list by it gives back exactly
      each article's own windows. */
  lemma PredictDatasetSpec(s: Sampler, rows: seq<Article>, sentTokenize: string -> seq<string>, passing: Passing)
    requires s.windowStride != 0
    ensures PredictDataset(s, rows, sentTokenize, passing).Ok? <==> ContextsOf(s, rows, sentTokenize, passing).Ok?
    ensures PredictDataset(s, rows, sentTokenize, passing).Ok? ==>
      var p := PredictDataset(s, rows, sentTokenize, passing).value;
      var cs := ContextsOf(s, rows, sentTokenize, passing).value;
      |p.endContext| == |rows|
      && (|rows| > 0 ==> p.endContext[|rows| - 1] == |p.windows|)
      && Groups(p.windows, p.endContext) == cs
  {
    if ContextsOf(s, rows, sentTokenize, passing).Ok? {
      var cs := ContextsOf(s, rows, sentTokenize, passing).value;
      FlattenLength(cs);
      CumsumSpec(Lengths(cs));
      GroupsOfFlatten(cs);
    }
  }

  // ------------------------------------------------------------------
  // flattening

  lemma {:induction false} FlattenAppend<T>(a: seq<seq<T>>, b: seq<seq<T>>)
    ensures Flatten(a + b) == Flatten(a) + Flatten(b)
    decreases |b|
  {
    if |b| == 0 {
      assert a + b == a;
    } else {
      var b0 := b[..|b| - 1];
      FlattenAppend(a, b0);
      assert (a + b)[..|a + b| - 1] == a + b0;
    }
  }

  lemma {:induction false} FlattenLength<T>(xss: seq<seq<T>>)
    ensures |Flatten(xss)| == Sum(Lengths(xss))
    decreases |xss|
  {
    if |xss| > 0 {
      var p := xss[..|xss| - 1];
      FlattenLength(p);
      assert Lengths(xss) == Lengths(p) + [|xss[|xss| - 1]|];
      SumAppend(Lengths(p), [|xss[|xss| - 1]|]);
      assert Sum([|xss[|xss| - 1]|]) == |xss[|xss| - 1]| + Sum([]);
    }
  }

  /** The element of the flat list at offset Sum(lengths before i) +
      |xss[i]| marks the end of list i: list i sits there. */
  lemma FlattenAt<T>(xss: seq<seq<T>>, i: nat)
    requires i < |xss|
    ensures Sum(Lengths(xss)[..i]) + |xss[i]| <= |Flatten(xss)|
    ensures Flatten(xss)[Sum(Lengths(xss)[..i])..Sum(Lengths(xss)[..i]) + |xss[i]|] == xss[i]
  {
    var a, b := xss[..i], xss[i + 1..];
    assert xss == a + [xss[i]] + b;
    FlattenAppend(a + [xss[i]], b);
    FlattenAppend(a, [xss[i]]);
    assert Flatten([xss[i]]) == Flatten([]) + xss[i];
    FlattenLength(a);
    assert Lengths(xss)[..i] == Lengths(a);
    var lo := |Flatten(a)|;
    assert Flatten(xss) == Flatten(a) + xss[i] + Flatten(b);
  }

  /** Cutting a flattened list of lists at the running sums of their
      lengths gives the lists back. */
  lemma GroupsOfFlatten<T>(xss: seq<seq<T>>)
    ensures Groups(Flatten(xss), Cumsum(Lengths(xss))) == xss
  {
    var xs := Flatten(xss);
    var counts := Lengths(xss);
    FlattenLength(xss);
    var gs := Groups(xs, Cumsum(counts));
    forall i | 0 <= i < |xss| ensures gs[i] == xss[i] {
      GroupsOfCumsum(xs, counts, i);
      FlattenAt(xss, i);
    }
  }

  // ------------------------------------------------------------------
  // to_predict_boolean_dataset on model outputs

  /** The from_abs branch: one boolean-classifier input per article, the
      question, the abstractive separator and the decoded generations of
      `decoded[start:end + 1]` joined by ". ". The question and
      `end_context` must be non-empty. */
  function FromAbs(s: Sampler, question: string, decoded: seq<string>, endContext: seq<int>): (r: Result<seq<string>>)
    ensures r.Ok? <==> s.tokAbs.Some? && s.tokAbs.value.sepToken.Some? && |question| > 0 && |endContext| > 0
  {
    if s.tokAbs.None? then Err("'NoneType' object has no attribute 'special_tokens_map'")
    else if s.tokAbs.value.sepToken.None? then Err("KeyError: 'sep_token'")
    else if |question| == 0 then Err("question argument needed if from_abs is True")
    else if |endContext| == 0 then Err("end_context list needed if from_abs")
    else
      var sep := s.tokAbs.value.sepToken.value;
      var gs := GroupsInclusive(decoded, endContext);
      Ok(seq(|gs|, i requires 0 <= i < |gs| => question + " " + sep + " " + Join(". ", gs[i])))
  }

  /** The from_ext branch: as from_abs with the extractive separator, the
      decoded spans of each inclusive group reduced by `unique_sent`. */
  function FromExt(s: Sampler, question: string, decoded: seq<string>, endContext: seq<int>): (r: Result<seq<string>>)
    ensures r.Ok? <==> s.tokExt.Some? && s.tokExt.value.sepToken.Some? && |question| > 0 && |endContext| > 0
  {
    if |question| == 0 then Err("question argument needed if from_ext is True")
    else if |endContext| == 0 then Err("end_context list needed if from_ext")
    else if s.tokExt.None? then Err("'NoneType' object has no attribute 'special_tokens_map'")
    else if s.tokExt.value.sepToken.None? then Err("KeyError: 'sep_token'")
    else
      var sep := s.tokExt.value.sepToken.value;
      var gs := GroupsInclusive(decoded, endContext);
      Ok(seq(|gs|, i requires 0 <= i < |gs| => question + " " + sep + " " + Join(". ", UniqueSent(gs[i]))))
  }

  /** After from_abs / from_ext, `end_context` becomes `range(1, len(context))`. */
  function EndAfterRegroup(n: nat): (r: seq<int>)
  {
    Range(1, n, 1)
  }

  /** Input i of from_abs is the question, the separator and group i of
      the inclusive regrouping joined by ". ". */
  lemma FromAbsAt(s: Sampler, question: string, decoded: seq<string>, ends: seq<int>, i: nat)
    requires s.tokAbs.Some? && s.tokAbs.value.sepToken.Some? && |question| > 0
    requires i < |ends|
    ensures var r := FromAbs(s, question, decoded, ends);
      r.Ok? && |r.value| == |ends|
      && r.value[i] == question + " " + s.tokAbs.value.sepToken.value + " " + Join(". ", GroupsInclusive(decoded, ends)[i])
  {
  }

  /** One input per article; with `end_context` the cumulative window counts
      of the articles, article i's input joins the generations of its own
      windows and, for every article but the last, also the first
      generation of the next article. */
  lemma FromAbsSpec(s: Sampler, question: string, decoded: seq<string>, counts: seq<nat>, i: nat)
    requires |decoded| == Sum(counts)
    requires s.tokAbs.Some? && s.tokAbs.value.sepToken.Some? && |question| > 0
    requires i < |counts|
    ensures Sum(counts[..i]) + counts[i] <= |decoded|
    ensures var r := FromAbs(s, question, decoded, Cumsum(counts));
      var sep := s.tokAbs.value.sepToken.value;
      var e := Cumsum(counts);
      var own := decoded[Sum(counts[..i])..Sum(counts[..i]) + counts[i]];
      r.Ok? && |r.value| == |counts|
      && r.value[i] == question + " " + sep + " "
           + Join(". ", if e[i] < |decoded| then own + [decoded[e[i]]] else own)
  {
    var e := Cumsum(counts);
    GroupsOfCumsum(decoded, counts, i);
    FromAbsAt(s, question, decoded, e, i);
    CumsumSpec(counts);
    if e[i] < |decoded| {
      GroupsInclusiveOverlap(decoded, e, i);
    } else {
      GroupsInclusiveAtEnd(decoded, e, i);
    }
  }

  /** The from_ext input of article i: with `end_context` the cumulative
      window counts, `unique_sent` of article i's own spans and, for every
      article but the last, the first span of the next article. */
  lemma FromExtSpec(s: Sampler, question: string, decoded: seq<string>, counts: seq<nat>, i: nat)
    requires |decoded| == Sum(counts)
    requires s.tokExt.Some? && s.tokExt.value.sepToken.Some? && |question| > 0
    requires i < |counts|
    ensures Sum(counts[..i]) + counts[i] <= |decoded|
    ensures var r := FromExt(s, question, decoded, Cumsum(counts));
      var sep := s.tokExt.value.sepToken.value;
      var e := Cumsum(counts);
      var own := decoded[Sum(counts[..i])..Sum(counts[..i]) + counts[i]];
      r.Ok? && |r.value| == |counts|
      && r.value[i] == question + " " + sep + " "
           + Join(". ", UniqueSent(if e[i] < |decoded| then own + [decoded[e[i]]] else own))
  {
    var e := Cumsum(counts);
    GroupsOfCumsum(decoded, counts, i);
    CumsumSpec(counts);
    if e[i] < |decoded| {
      GroupsInclusiveOverlap(decoded, e, i);
    } else {
      GroupsInclusiveAtEnd(decoded, e, i);
    }
  }

  /** The regrouped `end_context` counts 1, 2, ..., n - 1: one entry fewer
      than there are inputs. */
  lemma EndAfterRegroupSpec(n: nat)
    ensures var r := EndAfterRegroup(n);
      |r| == (if n == 0 then 0 else n - 1) && forall k :: 0 <= k < |r| ==> r[k] == k + 1
  {
    RangeLength(1, n, 1);
    if n > 1 {
      assert CeilDiv(n - 1, 1) == n - 1;
    }
  }

  /** The extractive `selected` of row i: `x[start:end]` for the argmax
      start and end the extractive model predicts. */
  function SelectSpans(contexts: seq<seq<int>>, idx: seq<(int, int)>): (r: seq<seq<int>>)
    ensures |r| == Min(|contexts|, |idx|)
  {
    seq(Min(|contexts|, |idx|), i requires 0 <= i < Min(|contexts|, |idx|) =>
      Slice(contexts[i], idx[i].0, idx[i].1))
  }

  /** A predicted span is the tokens between its start and end when both lie
      in the context, and empty whenever the end is not after the start. */
  lemma SelectSpansSpec(contexts: seq<seq<int>>, idx: seq<(int, int)>, i: nat)
    requires i < |contexts| && i < |idx|
    ensures 0 <= idx[i].0 <= idx[i].1 <= |contexts[i]| ==>
      SelectSpans(contexts, idx)[i] == contexts[i][idx[i].0..idx[i].1]
    ensures 0 <= idx[i].1 <= idx[i].0 ==> SelectSpans(contexts, idx)[i] == []
  {
    if 0 <= idx[i].0 <= idx[i].1 <= |contexts[i]| {
      SliceInRange(contexts[i], idx[i].0, idx[i].1);
    }
    if 0 <= idx[i].1 <= idx[i].0 {
      SliceEmpty(contexts[i], idx[i].0, idx[i].1);
    }
  }
}
