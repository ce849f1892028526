/** The front half of `classify` in node-ocr and python-ocr: argument checks,
    defaults, the page count, and the choice between one backend call and a
    chunked fan-out whose results are merged. Backends are a function parameter:
    given the configuration and a page range, a backend returns a result or fails. */
module Classify {
  import opened Wrappers
  import opened Text
  import opened ClassifyTypes
  import opened Chunking
  import opened MergeRules
  import opened Merge
  import Config

  const ClassifyProviders: seq<string> := ["mistral", "openai", "gemini"]
  const DefaultChunkSize: int := 75
  const DefaultMaxConcurrent: int := 5
  /** The page count assumed when the PDF cannot be parsed. */
  const FallbackPageCount: nat := 100

  /** The configuration handed to every backend call. */
  datatype ClassifyConfig = ClassifyConfig(
    filePath: string, apiKey: string, provider: string, model: Option<string>,
    categories: seq<Category>, chunkSize: Option<int>, maxConcurrent: Option<int>)

  /** What probing the PDF for its page count gives: a count, a read error
      (`readFileSync` throws), or a parse error (pdf-parse / pypdf fails). */
  datatype PageProbe = Counted(pages: nat) | ReadFailed(message: string) | ParseFailed

  /** `x || d` (JavaScript) and `x or d` (Python) on an optional number: a missing
      or zero value falls back to `d`. */
  function OrDefault(x: Option<int>, d: int): int {
    if x.None? || x.value == 0 then d else x.value
  }

  // ----- Argument checks -----

  /** node-ocr: the checks of `classify`, in order, each with its own message. */
  function ValidateClassifyTs(filePath: Option<string>, categories: Option<seq<Category>>,
                              apiKey: Option<string>, provider: string): Outcome
  {
    if IsBlank(Node, apiKey) then Fail("Valid API key is required")
    else if IsBlank(Node, filePath) then Fail("Valid file path is required")
    else if categories.None? || |categories.value| == 0 then Fail("At least one category is required")
    else if provider !in ClassifyProviders then Fail("Provider " + provider + " not supported for classification")
    else Pass
  }

  /** python-ocr: the same checks, with Python's whitespace and without the
      category check (an empty category list asks for auto-detection). */
  function ValidateClassifyPy(filePath: Option<string>, apiKey: Option<string>, provider: string): Outcome {
    if IsBlank(Python, apiKey) then Fail("Valid API key is required")
    else if IsBlank(Python, filePath) then Fail("Valid file path is required")
    else if provider !in ClassifyProviders then Fail("Provider " + provider + " not supported for classification")
    else Pass
  }

  /** node-ocr's checks run in a fixed order and the first failing one decides the
      message; all of them pass exactly when the key and path hold some
      non-whitespace character, the category list is non-empty and the provider is
      one of mistral, openai and gemini. */
  lemma ValidateClassifyTsSpec(filePath: Option<string>, categories: Option<seq<Category>>,
                               apiKey: Option<string>, provider: string)
    ensures var v := ValidateClassifyTs(filePath, categories, apiKey, provider);
      && (!HasContent(Node, apiKey) ==> v == Fail("Valid API key is required"))
      && (HasContent(Node, apiKey) && !HasContent(Node, filePath) ==> v == Fail("Valid file path is required"))
      && ((HasContent(Node, apiKey) && HasContent(Node, filePath) && (categories.None? || categories.value == []))
            ==> v == Fail("At least one category is required"))
      && ((HasContent(Node, apiKey) && HasContent(Node, filePath) && categories.Some? && categories.value != []
           && provider !in ClassifyProviders)
            ==> v == Fail("Provider " + provider + " not supported for classification"))
      && (v == Pass <==> HasContent(Node, apiKey) && HasContent(Node, filePath)
                         && categories.Some? && categories.value != [] && provider in ClassifyProviders)
  {
    BlankIffNoContent(Node, apiKey);
    BlankIffNoContent(Node, filePath);
  }

  /** python-ocr's checks: key first, then path, then provider; an empty category
      list passes. */
  lemma ValidateClassifyPySpec(filePath: Option<string>, apiKey: Option<string>, provider: string)
    ensures var v := ValidateClassifyPy(filePath, apiKey, provider);
      && (!HasContent(Python, apiKey) ==> v == Fail("Valid API key is required"))
      && (HasContent(Python, apiKey) && !HasContent(Python, filePath) ==> v == Fail("Valid file path is required"))
      && ((HasContent(Python, apiKey) && HasContent(Python, filePath) && provider !in ClassifyProviders)
            ==> v == Fail("Provider " + provider + " not supported for classification"))
      && (v == Pass <==> HasContent(Python, apiKey) && HasContent(Python, filePath) && provider in ClassifyProviders)
  {
    BlankIffNoContent(Python, apiKey);
    BlankIffNoContent(Python, filePath);
  }

  /** The two front ends disagree on an empty category list: node-ocr rejects it,
      python-ocr accepts it. */
  lemma EmptyCategoriesOnlyRejectedByNode()
    ensures ValidateClassifyTs(Some("doc.pdf"), Some([]), Some("key"), "mistral")
            == Fail("At least one category is required")
    ensures ValidateClassifyPy(Some("doc.pdf"), Some("key"), "mistral") == Pass
  {
    assert !IsSpace(Node, "key"[0]) && !IsSpace(Node, "doc.pdf"[0]);
    assert !IsSpace(Python, "key"[0]) && !IsSpace(Python, "doc.pdf"[0]);
    BlankIffNoContent(Node, Some("key"));
    BlankIffNoContent(Node, Some("doc.pdf"));
    BlankIffNoContent(Python, Some("key"));
    BlankIffNoContent(Python, Some("doc.pdf"));
  }

  /** `local` is an OCR provider but not a classification provider: the same key,
      path and provider pass `validateConfig` and fail `classify`'s check. */
  lemma LocalProviderOnlyForOcr(categories: seq<Category>)
    requires categories != []
    ensures Config.ValidateConfig(Config.OcrConfig(Some("doc.pdf"), Some("local"), None, Some("key"))) == Pass
    ensures ValidateClassifyTs(Some("doc.pdf"), Some(categories), Some("key"), "local")
            == Fail("Provider " + "local" + " not supported for classification")
  {
    assert !IsSpace(Node, "key"[0]) && !IsSpace(Node, "doc.pdf"[0]);
    BlankIffNoContent(Node, Some("key"));
    BlankIffNoContent(Node, Some("doc.pdf"));
    assert "local" in Config.OcrProviders;
    assert "local" !in ClassifyProviders by {
      assert "local"[0] != "mistral"[0] && "local"[0] != "openai"[0] && "local"[0] != "gemini"[0];
    }
  }

  // ----- Page count -----

  /** node-ocr: `readFileSync` runs inside the promise executor, so a read error
      rejects the whole call; only a pdf-parse failure falls back to 100 pages. */
  function PageCountTs(probe: PageProbe): (r: Result<nat>)
    ensures r.Err? <==> probe.ReadFailed?
    ensures r.Ok? ==> r.value == PageCountPy(probe)
  {
    match probe
    case Counted(n) => Ok(n)
    case ReadFailed(m) => Err(m)
    case ParseFailed => Ok(FallbackPageCount)
  }

  /** python-ocr: any exception while opening or parsing falls back to 100 pages. */
  function PageCountPy(probe: PageProbe): nat {
    match probe
    case Counted(n) => n
    case _ => FallbackPageCount
  }

  // ----- The chunked fan-out -----

  /** One backend call per range, in order. */
  function CallAll(backend: (ClassifyConfig, PageRange) -> Result<ClassifyResult>,
                   config: ClassifyConfig, ranges: seq<PageRange>): seq<Result<ClassifyResult>>
  {
    seq(|ranges|, i requires 0 <= i < |ranges| => backend(config, ranges[i]))
  }

  /** `Promise.all` / `asyncio.gather`: every value, or a failure. */
  function Gather(rs: seq<Result<ClassifyResult>>): Result<seq<ClassifyResult>> {
    if rs == [] then Ok([])
    else match rs[0]
      case Err(m) => Err(m)
      case Ok(v) =>
        match Gather(rs[1..])
        case Err(m) => Err(m)
        case Ok(vs) => Ok([v] + vs)
  }

  /** All or nothing: the gather succeeds exactly when every call succeeded, and
      then holds every value in order; otherwise it reports the first failure. */
  lemma {:induction false} GatherAllOrNothing(rs: seq<Result<ClassifyResult>>)
    ensures Gather(rs).Ok? <==> forall i :: 0 <= i < |rs| ==> rs[i].Ok?
    ensures Gather(rs).Ok? ==>
      |Gather(rs).value| == |rs| && forall i :: 0 <= i < |rs| ==> Gather(rs).value[i] == rs[i].value
    ensures Gather(rs).Err? ==>
      exists i :: 0 <= i < |rs| && rs[i] == Err(Gather(rs).message) && forall j :: 0 <= j < i ==> rs[j].Ok?
  {
    if rs != [] {
      GatherAllOrNothing(rs[1..]);
      if rs[0].Ok? && Gather(rs[1..]).Err? {
        var i :| 0 <= i < |rs[1..]| && rs[1..][i] == Err(Gather(rs[1..]).message)
                 && forall j :: 0 <= j < i ==> rs[1..][j].Ok?;
        assert rs[i + 1] == Err(Gather(rs).message);
        assert forall j :: 0 <= j < i + 1 ==> rs[j].Ok? by {
          forall j | 0 <= j < i + 1 ensures rs[j].Ok? {
            if j > 0 { assert rs[j] == rs[1..][j - 1]; }
          }
        }
      }
      if Gather(rs).Ok? {
        forall i | 0 <= i < |rs| ensures Gather(rs).value[i] == rs[i].value {
          if i > 0 { assert rs[i] == rs[1..][i - 1]; }
        }
      }
    }
  }

  /** The result of the chunked strategy: the merge of every chunk's result, or a
      failure as soon as one chunk fails. */
  function ChunkedOutcome(backend: (ClassifyConfig, PageRange) -> Result<ClassifyResult>,
                          config: ClassifyConfig, ranges: seq<PageRange>): Result<ClassifyResult>
  {
    match Gather(CallAll(backend, config, ranges))
    case Err(m) => Err(m)
    case Ok(vs) => Ok(ClassifyResult(Merged(AllSplits(vs))))
  }

  /** One failed chunk fails the whole classification, whatever the others return. */
  lemma ChunkedAllOrNothing(backend: (ClassifyConfig, PageRange) -> Result<ClassifyResult>,
                            config: ClassifyConfig, ranges: seq<PageRange>)
    ensures ChunkedOutcome(backend, config, ranges).Ok? <==>
      forall i :: 0 <= i < |ranges| ==> backend(config, ranges[i]).Ok?
  {
    var rs := CallAll(backend, config, ranges);
    GatherAllOrNothing(rs);
    assert forall i :: 0 <= i < |ranges| ==> rs[i] == backend(config, ranges[i]);
  }

  /** The chunked loop: call the backend on every range (all are dispatched, even
      after one fails), keep the values, remember the first failure, and merge
      when none failed. */
  method RunChunks(backend: (ClassifyConfig, PageRange) -> Result<ClassifyResult>,
                   config: ClassifyConfig, chunks: seq<PageRange>)
    returns (r: Result<ClassifyResult>, calls: seq<PageRange>)
    ensures calls == chunks
    ensures r == ChunkedOutcome(backend, config, chunks)
  {
    ghost var rs := CallAll(backend, config, chunks);
    GatherAllOrNothing(rs);
    calls := [];
    var results: seq<ClassifyResult> := [];
    var failure: Option<string> := None;
    for i := 0 to |chunks|
      invariant calls == chunks[..i]
      invariant failure.None? ==> (forall j :: 0 <= j < i ==> rs[j].Ok?) && Gather(rs[..i]) == Ok(results)
      invariant failure.Some? ==> exists j :: 0 <= j < i && rs[j] == Err(failure.value) && forall l :: 0 <= l < j ==> rs[l].Ok?
    {
      var res := backend(config, chunks[i]);
      assert rs[i] == res;
      calls := calls + [chunks[i]];
      if res.Ok? {
        if failure.None? {
          GatherSnoc(rs[..i], res);
          assert rs[..i + 1] == rs[..i] + [res];
        }
        results := results + [res.value];
      } else if failure.None? {
        failure := Some(res.message);
      }
    }
    assert rs[..|chunks|] == rs;
    if failure.Some? {
      FirstFailure(rs, failure.value);
      r := Err(failure.value);
    } else {
      var merged := MergeSplits(results);
      r := Ok(merged);
    }
  }

  lemma {:induction false} GatherSnoc(rs: seq<Result<ClassifyResult>>, x: Result<ClassifyResult>)
    requires Gather(rs).Ok? && x.Ok?
    ensures Gather(rs + [x]) == Ok(Gather(rs).value + [x.value])
  {
    if rs != [] {
      assert (rs + [x])[0] == rs[0] && (rs + [x])[1..] == rs[1..] + [x];
      assert rs[0].Ok? && Gather(rs[1..]).Ok?;
      assert Gather(rs).value == [rs[0].value] + Gather(rs[1..]).value;
      GatherSnoc(rs[1..], x);
      var v0, tail := rs[0].value, Gather(rs[1..]).value;
      assert Gather(rs + [x]).value == [v0] + (tail + [x.value]) == ([v0] + tail) + [x.value];
    } else {
      assert rs + [x] == [x] && [x][1..] == [];
      assert Gather([x]) == Ok([x.value] + Gather([]).value);
      assert Gather(rs) == Ok([]);
      assert [x.value] + [] == [] + [x.value];
    }
  }

  /** The failure a gather reports is the first one in order. */
  lemma {:induction false} FirstFailure(rs: seq<Result<ClassifyResult>>, m: string)
    requires exists j :: 0 <= j < |rs| && rs[j] == Err(m) && forall l :: 0 <= l < j ==> rs[l].Ok?
    ensures Gather(rs) == Err(m)
  {
    var j :| 0 <= j < |rs| && rs[j] == Err(m) && forall l :: 0 <= l < j ==> rs[l].Ok?;
    if j > 0 {
      assert rs[1..][j - 1] == Err(m);
      FirstFailure(rs[1..], m);
    }
  }

  // ----- The two entry points -----

  /** node-ocr's configuration: `chunkSize` and `maxConcurrent` are defaulted
      before the backends see them. */
  function ConfigTs(filePath: string, categories: seq<Category>, apiKey: string, provider: string,
                    model: Option<string>, chunkSize: Option<int>, maxConcurrent: Option<int>): ClassifyConfig
  {
    ClassifyConfig(filePath, apiKey, provider, model, categories,
                   Some(OrDefault(chunkSize, DefaultChunkSize)), Some(OrDefault(maxConcurrent, DefaultMaxConcurrent)))
  }

  /** python-ocr's configuration carries the arguments as given. */
  function ConfigPy(filePath: string, categories: seq<Category>, apiKey: string, provider: string,
                    model: Option<string>, chunkSize: Option<int>, maxConcurrent: Option<int>): ClassifyConfig
  {
    ClassifyConfig(filePath, apiKey, provider, model, categories, chunkSize, maxConcurrent)
  }

  /** The ranges the chunked strategy fans out over: the plan for a positive size
      and none otherwise (python-ocr's `range` with a negative step is empty, and
      node-ocr's loop ends at once on an empty document). */
  function ChunkRanges(totalPages: nat, chunkSize: int): seq<PageRange> {
    if chunkSize >= 1 then PlannedChunks(totalPages, chunkSize) else []
  }

  /** A fan-out over no ranges calls nothing and merges to no splits. */
  lemma NoChunksNoSplits(backend: (ClassifyConfig, PageRange) -> Result<ClassifyResult>, config: ClassifyConfig)
    ensures ChunkedOutcome(backend, config, []) == Ok(ClassifyResult([]))
  {
    assert CallAll(backend, config, []) == [];
    assert Merged(AllSplits([])) == [];
  }

  /** node-ocr's `classify`. A failed check rejects before the file is touched or any
      backend is called; a file that cannot be read rejects; a document of at most
      `chunkSize` pages (75 when missing or 0) is one backend call on `[1, totalPages]`
      whose result is returned as is; a longer one is one call per planned chunk,
      merged, and fails if any chunk fails. `calls` lists the ranges the backend was
      called on, in dispatch order. A negative `chunkSize` on an empty document plans
      no chunks and gives no splits; on a non-empty document that gets past the
      checks, it makes the chunk loop run forever, so callers must not reach it. */
  method ClassifyTs(filePath: Option<string>, categories: Option<seq<Category>>, apiKey: Option<string>,
                    provider: Option<string>, model: Option<string>, chunkSize: Option<int>,
                    maxConcurrent: Option<int>, probe: PageProbe,
                    backend: (ClassifyConfig, PageRange) -> Result<ClassifyResult>)
    returns (r: Result<ClassifyResult>, calls: seq<PageRange>)
    requires chunkSize.Some? && chunkSize.value < 0 ==>
      || ValidateClassifyTs(filePath, categories, apiKey, provider.GetOr("mistral")).Fail?
      || PageCountTs(probe).Err?
      || PageCountTs(probe) == Ok(0)
    ensures var v := ValidateClassifyTs(filePath, categories, apiKey, provider.GetOr("mistral"));
      v.Fail? ==> r == Err(v.message) && calls == []
    ensures ValidateClassifyTs(filePath, categories, apiKey, provider.GetOr("mistral")).Pass? && PageCountTs(probe).Err?
      ==> r == Err(PageCountTs(probe).message) && calls == []
    ensures ValidateClassifyTs(filePath, categories, apiKey, provider.GetOr("mistral")).Pass? && PageCountTs(probe).Ok?
      ==> var n, size := PageCountTs(probe).value, OrDefault(chunkSize, DefaultChunkSize);
          var config := ConfigTs(filePath.value, categories.value, apiKey.value, provider.GetOr("mistral"),
                                 model, chunkSize, maxConcurrent);
          && (n <= size ==> calls == [(1, n)] && r == backend(config, (1, n)))
          && (n > size ==> calls == ChunkRanges(n, size) && r == ChunkedOutcome(backend, config, calls))
          && (n > size && size < 1 ==> calls == [] && r == Ok(ClassifyResult([])))
  {
    var p := provider.GetOr("mistral");
    var v := ValidateClassifyTs(filePath, categories, apiKey, p);
    if v.Fail? {
      return Err(v.message), [];
    }
    var config := ConfigTs(filePath.value, categories.value, apiKey.value, p, model, chunkSize, maxConcurrent);
    var total := PageCountTs(probe);
    if total.Err? {
      return Err(total.message), [];
    }
    var totalPages := total.value;
    var size := OrDefault(config.chunkSize, DefaultChunkSize);
    if totalPages <= size {
      r := backend(config, (1, totalPages));
      calls := [(1, totalPages)];
    } else {
      var chunks := ChunkPages(totalPages, size);
      r, calls := RunChunks(backend, config, chunks);
      if size < 1 {
        NoChunksNoSplits(backend, config);
      }
    }
  }

  /** python-ocr's `classify`. A failed check raises before the file is touched; an
      unreadable or unparsable file counts as 100 pages; a document of at most
      `chunk_size` pages (75 when missing or 0) is one backend call on
      `(1, total_pages)`; a longer one plans its chunks, then builds the semaphore,
      which raises for a negative `max_concurrent` (after defaulting) before any call;
      otherwise every chunk is called and the results merged, failing if any fails.
      A negative `chunk_size` plans no chunks and yields an empty result. */
  method ClassifyPy(filePath: Option<string>, categories: seq<Category>, apiKey: Option<string>,
                    provider: string, model: Option<string>, chunkSize: Option<int>,
                    maxConcurrent: Option<int>, probe: PageProbe,
                    backend: (ClassifyConfig, PageRange) -> Result<ClassifyResult>)
    returns (r: Result<ClassifyResult>, calls: seq<PageRange>)
    ensures var v := ValidateClassifyPy(filePath, apiKey, provider);
      v.Fail? ==> r == Err(v.message) && calls == []
    ensures ValidateClassifyPy(filePath, apiKey, provider).Pass?
      ==> var n, size := PageCountPy(probe), OrDefault(chunkSize, DefaultChunkSize);
          var config := ConfigPy(filePath.value, categories, apiKey.value, provider, model, chunkSize, maxConcurrent);
          && (n <= size ==> calls == [(1, n)] && r == backend(config, (1, n)))
          && (n > size && OrDefault(maxConcurrent, DefaultMaxConcurrent) < 0 ==>
                calls == [] && r == Err("Semaphore initial value must be >= 0"))
          && (n > size && OrDefault(maxConcurrent, DefaultMaxConcurrent) >= 0 ==>
                calls == ChunkRanges(n, size) && r == ChunkedOutcome(backend, config, calls))
  {
    var v := ValidateClassifyPy(filePath, apiKey, provider);
    if v.Fail? {
      return Err(v.message), [];
    }
    var config := ConfigPy(filePath.value, categories, apiKey.value, provider, model, chunkSize, maxConcurrent);
    var totalPages := PageCountPy(probe);
    var size := OrDefault(chunkSize, DefaultChunkSize);
    if totalPages <= size {
      r := backend(config, (1, totalPages));
      calls := [(1, totalPages)];
    } else {
      var planned := ChunkPagesPy(totalPages, size);
      assert planned.Ok?;
      var limit := OrDefault(config.maxConcurrent, DefaultMaxConcurrent);
      if limit < 0 {
        return Err("Semaphore initial value must be >= 0"), [];
      }
      r, calls := RunChunks(backend, config, planned.value);
    }
  }
}
