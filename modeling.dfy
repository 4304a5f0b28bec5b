// The non-neural parts of the model wrappers: `AbstractiveQA.batch_generate`
// (the same loop in the served and the research copy), the list wrapping of
// `BaseInterpret.predict` and the path normalisation of
// `BaseInterpret.from_pretrained`.

module Modeling {
  import opened PyLib
  import opened Aggregation

  /** One row of token ids. */
  type Ids = seq<int>

  // ------------------------------------------------------------------
  // batch_generate

  /** The chunks `inputs[i:i+batch_size]` for i in `range(0, stop, batch_size)`. */
  function Chunks(inputs: seq<Ids>, bs: int, stop: int): (r: seq<seq<Ids>>)
    requires bs != 0
    ensures |r| == |Range(0, stop, bs)|
    ensures forall k :: 0 <= k < |r| ==> r[k] == Slice(inputs, k * bs, k * bs + bs)
  {
    var offsets := Range(0, stop, bs);
    seq(|offsets|, k requires 0 <= k < |offsets| => Slice(inputs, offsets[k], offsets[k] + bs))
  }

  /** The generation of every chunk, in chunk order. */
  function GenerateEach(gen: seq<Ids> -> seq<Ids>, chunks: seq<seq<Ids>>): (r: seq<seq<Ids>>)
    ensures |r| == |chunks|
    ensures forall k :: 0 <= k < |chunks| ==> r[k] == gen(chunks[k])
  {
    seq(|chunks|, k requires 0 <= k < |chunks| => gen(chunks[k]))
  }

  /** Generating one more chunk appends its generation. */
  lemma GenerateEachSnoc(gen: seq<Ids> -> seq<Ids>, chunks: seq<seq<Ids>>, k: nat)
    requires k < |chunks|
    ensures GenerateEach(gen, chunks[..k + 1]) == GenerateEach(gen, chunks[..k]) + [gen(chunks[k])]
  {
    assert chunks[..k + 1][k] == chunks[k];
  }

  /** The concatenated generations of the chunks up to `stop`. */
  function Generated(inputs: seq<Ids>, bs: int, stop: int, gen: seq<Ids> -> seq<Ids>): seq<Ids>
    requires bs != 0
  {
    Flatten(GenerateEach(gen, Chunks(inputs, bs, stop)))
  }

  /** `batch_generate` as written: chunk offsets run up to `len(inputs) - 1`,
      every chunk's generation is appended to `generated`, and the lists are
      concatenated in order. */
  method BatchGenerate(inputs: seq<Ids>, bs: int, gen: seq<Ids> -> seq<Ids>) returns (tensor: seq<Ids>)
    requires bs != 0
    ensures tensor == Generated(inputs, bs, |inputs| - 1, gen)
  {
    var generated: seq<seq<Ids>> := [];
    var size := |inputs| - 1;
    var offsets := Range(0, size, bs);
    ghost var chunks := Chunks(inputs, bs, size);
    var k := 0;
    while k < |offsets|
      invariant 0 <= k <= |offsets|
      invariant generated == GenerateEach(gen, chunks[..k])
    {
      var i := offsets[k];
      var y := gen(Slice(inputs, i, i + bs));
      assert y == gen(chunks[k]);
      GenerateEachSnoc(gen, chunks, k);
      generated := generated + [y];
      k := k + 1;
    }
    assert chunks[..k] == chunks;
    tensor := Flatten(generated);
  }

  /** The intended `batch_generate`: chunk offsets run up to `len(inputs)`. */
  function GenerateAll(inputs: seq<Ids>, bs: int, gen: seq<Ids> -> seq<Ids>): seq<Ids>
    requires bs != 0
  {
    Generated(inputs, bs, |inputs|, gen)
  }

  /** With a positive batch size, every chunk holds at most `batch_size`
      rows, none is empty when `stop <= len(inputs)`, and chunk k starts at
      row k * batch_size. */
  lemma ChunksSpec(inputs: seq<Ids>, bs: nat, stop: int, k: nat)
    requires bs > 0 && stop <= |inputs| && k < |Chunks(inputs, bs, stop)|
    ensures var c := Chunks(inputs, bs, stop)[k];
      0 < |c| <= bs && k * bs < |inputs|
      && c == inputs[k * bs..Min(k * bs + bs, |inputs|)]
  {
    assert k * bs < stop;
    assert 0 <= k * bs;
  }

  /** The bounds of the chunks: chunk k ends where chunk k + 1 starts. */
  function ChunkBound(n: nat, bs: nat, k: nat): nat
  {
    Min(k * bs, n)
  }

  /** The chunks up to `stop` concatenate to the first
      min(n, bs * ceil(stop / bs)) rows of the input. */
  lemma FlattenChunks(inputs: seq<Ids>, bs: nat, stop: nat)
    requires bs > 0
    ensures Flatten(Chunks(inputs, bs, stop)) == inputs[..Min(|inputs|, bs * CeilDiv(stop, bs))]
  {
    var n := |inputs|;
    var cs := Chunks(inputs, bs, stop);
    RangeLength(0, stop, bs);
    assert |cs| == CeilDiv(stop, bs);
    var bounds := seq(|cs| + 1, k requires 0 <= k <= |cs| => ChunkBound(n, bs, k));
    forall i, j | 0 <= i <= j < |bounds| ensures bounds[i] <= bounds[j] {
      MulMonotone(i, j, bs);
    }
    forall k | 0 <= k < |cs| ensures cs[k] == inputs[bounds[k]..bounds[k + 1]] {
      ChunkIsSlice(inputs, bs, k);
    }
    FlattenContiguous(cs, inputs, bounds);
    assert bounds[|cs|] == Min(n, bs * CeilDiv(stop, bs)) by {
      assert CeilDiv(stop, bs) * bs == bs * CeilDiv(stop, bs);
    }
  }

  /** Chunk k is the stretch between the k-th and the next chunk bound. */
  lemma ChunkIsSlice(inputs: seq<Ids>, bs: nat, k: nat)
    requires bs > 0
    ensures var n := |inputs|;
      ChunkBound(n, bs, k) <= ChunkBound(n, bs, k + 1)
      && Slice(inputs, k * bs, k * bs + bs) == inputs[ChunkBound(n, bs, k)..ChunkBound(n, bs, k + 1)]
  {
    var lo := k * bs;
    assert (k + 1) * bs == lo + bs;
    assert 0 <= lo;
  }

  /** A generator that treats every row on its own. */
  ghost predicate RowWise(gen: seq<Ids> -> seq<Ids>, g: Ids -> Ids)
  {
    forall xs :: gen(xs) == Map(g, xs)
  }

  /** Generating chunk by chunk and concatenating is generating the
      concatenation. */
  lemma {:induction false} FlattenGenerateEach(gen: seq<Ids> -> seq<Ids>, g: Ids -> Ids, cs: seq<seq<Ids>>)
    requires RowWise(gen, g)
    ensures Flatten(GenerateEach(gen, cs)) == Map(g, Flatten(cs))
    decreases |cs|
  {
    if |cs| > 0 {
      var n := |cs| - 1;
      FlattenGenerateEach(gen, g, cs[..n]);
      assert GenerateEach(gen, cs)[..n] == GenerateEach(gen, cs[..n]);
      assert gen(cs[n]) == Map(g, cs[n]);
      assert Map(g, Flatten(cs[..n]) + cs[n]) == Map(g, Flatten(cs[..n])) + Map(g, cs[n]);
    }
  }

  /** For a row-wise generator, `batch_generate` as written returns the
      generations of the first min(n, bs * ceil((n - 1) / bs)) rows: nothing
      for one row, and all rows but the last whenever n - 1 is a multiple of
      the batch size. */
  lemma BatchGenerateCoverage(inputs: seq<Ids>, bs: nat, gen: seq<Ids> -> seq<Ids>, g: Ids -> Ids)
    requires bs > 0 && |inputs| > 0 && RowWise(gen, g)
    ensures var covered := Min(|inputs|, bs * CeilDiv(|inputs| - 1, bs));
      Generated(inputs, bs, |inputs| - 1, gen) == Map(g, inputs[..covered])
      && covered == (if (|inputs| - 1) % bs == 0 then |inputs| - 1 else |inputs|)
  {
    var stop := |inputs| - 1;
    var cs := Chunks(inputs, bs, stop);
    var covered := Min(|inputs|, bs * CeilDiv(stop, bs));
    FlattenChunks(inputs, bs, stop);
    FlattenGenerateEach(gen, g, cs);
    assert Generated(inputs, bs, stop, gen) == Map(g, Flatten(cs));
    assert Flatten(cs) == inputs[..covered];
    CoveredCount(|inputs|, bs);
  }

  lemma CoveredCount(n: nat, bs: nat)
    requires bs > 0 && n > 0
    ensures Min(n, bs * CeilDiv(n - 1, bs)) == (if (n - 1) % bs == 0 then n - 1 else n)
  {
    CeilDivMultiple(n - 1, bs);
  }

  /** One input row: no chunk, no generation call, an empty result. */
  lemma BatchGenerateOneRow(inputs: seq<Ids>, bs: nat, gen: seq<Ids> -> seq<Ids>)
    requires bs > 0 && |inputs| == 1
    ensures Chunks(inputs, bs, |inputs| - 1) == []
    ensures Generated(inputs, bs, |inputs| - 1, gen) == []
  {
  }

  /** Three rows in batches of two: the third row is never generated. */
  lemma BatchGenerateDropsLast(a: Ids, b: Ids, c: Ids, gen: seq<Ids> -> seq<Ids>, g: Ids -> Ids)
    requires RowWise(gen, g)
    ensures Generated([a, b, c], 2, 2, gen) == [g(a), g(b)]
  {
    assert Range(0, 2, 2) == [0];
    var cs := Chunks([a, b, c], 2, 2);
    assert |cs| == 1 && cs[0] == Slice([a, b, c], 0, 2);
    assert [a, b, c][0..2] == [a, b];
    assert cs == [[a, b]];
    assert GenerateEach(gen, cs) == [gen([a, b])];
    assert Flatten([gen([a, b])]) == gen([a, b]);
  }

  /** The intended `batch_generate` generates every row, in order. */
  lemma GenerateAllSpec(inputs: seq<Ids>, bs: nat, gen: seq<Ids> -> seq<Ids>, g: Ids -> Ids)
    requires bs > 0 && RowWise(gen, g)
    ensures GenerateAll(inputs, bs, gen) == Map(g, inputs)
  {
    var n := |inputs|;
    FlattenChunks(inputs, bs, n);
    FlattenGenerateEach(gen, g, Chunks(inputs, bs, n));
    CeilDivBounds(n, bs);
    assert bs * CeilDiv(n, bs) == CeilDiv(n, bs) * bs;
    assert inputs[..n] == inputs;
  }

  // ------------------------------------------------------------------
  // BaseInterpret

  /** What `predict` is given: one input or a list of them. */
  datatype Batch<T> = One(x: T) | Many(xs: seq<T>)

  /** `X if isinstance(X, list) else [X]`. */
  function Items<T>(b: Batch<T>): (r: seq<T>)
    ensures b.One? ==> r == [b.x]
    ensures b.Many? ==> r == b.xs
  {
    match b
    case One(x) => [x]
    case Many(xs) => xs
  }

  /** `BaseInterpret.predict`: `_predict` on every item, in order. */
  function InterpretPredict<T, U>(b: Batch<T>, predictOne: T -> U): (r: seq<U>)
    ensures |r| == |Items(b)|
  {
    var xs := Items(b);
    seq(|xs|, i requires 0 <= i < |xs| => predictOne(xs[i]))
  }

  /** A single input is predicted as the one-element list holding it, and a
      list gets one output per item, in order. */
  lemma InterpretPredictSpec<T, U>(b: Batch<T>, predictOne: T -> U)
    ensures b.One? ==> InterpretPredict(b, predictOne) == [predictOne(b.x)]
    ensures b.One? ==> InterpretPredict(b, predictOne) == InterpretPredict(Many([b.x]), predictOne)
    ensures b.Many? ==> forall i :: 0 <= i < |b.xs| ==> InterpretPredict(b, predictOne)[i] == predictOne(b.xs[i])
  {
  }

  /** `path += '/' if path[-1] != '/' else ''`; `path[-1]` raises on an
      empty path. */
  function NormalizePath(path: string): (r: Result<string>)
    ensures r.Ok? <==> |path| > 0
    ensures r.Ok? ==> EndsWith(r.value, "/")
  {
    if |path| == 0 then Err("IndexError: string index out of range")
    else if path[|path| - 1] != '/' then Ok(path + "/")
    else Ok(path)
  }

  /** The normalised path is the path itself, or the path followed by one
      '/'; normalising again changes nothing. */
  lemma NormalizePathSpec(path: string)
    requires |path| > 0
    ensures var p := NormalizePath(path).value;
      (p == path || p == path + "/") && NormalizePath(p) == Ok(p)
      && (path[|path| - 1] == '/' <==> p == path)
  {
  }

  /** The name of the model file inside the model directory. */
  const ModelFileName := "tf_model.tflite"

  /** The file the interpreter loads. */
  function ModelFile(path: string): (r: Result<string>)
    ensures r.Ok? <==> |path| > 0
    ensures r.Ok? ==> EndsWith(r.value, "/" + ModelFileName)
  {
    match NormalizePath(path)
    case Err(e) => Err(e)
    case Ok(p) =>
      SuffixAppend(p, "/", ModelFileName);
      Ok(p + ModelFileName)
  }
}
