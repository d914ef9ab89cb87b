/**
  The advanced converter hook: the input is optionally cleaned by the SVG cleaner, optionally
  optimized, and then converted either by a background worker (large inputs) or locally by a
  simpler template than the basic converter's: no CSS extraction, no style objects, no formatting.
  The worker's reply, the memory probe and the timers are parameters or left out; the decisions
  between them are modelled exactly.
*/
module AdvancedConverter {
  import opened Wrappers
  import opened Text
  import opened Dom
  import opened ExtractCss
  import opened UseConverter
  import opened SvgCleaner
  import SvgUtils
  import SvgToJsx

  datatype AdvancedConverterConfig = AdvancedConverterConfig(
    enableWebWorkers: bool,
    enableStreaming: bool,
    maxFileSize: nat,
    chunkSize: nat)

  /** Workers on, streaming off, a 10 MiB file limit and 100 KiB chunks. */
  const DefaultConfig := AdvancedConverterConfig(true, false, 10 * 1024 * 1024, 100 * 1024)

  /** Every cleaning pass is on by default except path merging. */
  const DefaultCleaning := CleaningOptions(true, true, true, true, true, true, true, false)

  const AllOptions := ConverterOptions(true, true, true, true, true, true, true, true)

  /** `Object.values(cleaningOptions).some(v => v)` */
  predicate AnyCleaning(c: CleaningOptions)
  {
    c.removeDuplicates || c.cleanupDefinitions || c.optimizePrecision || c.simplifyPaths ||
    c.optimizeColors || c.normalizeWhitespace || c.removeUnusedStyles || c.mergePaths
  }

  lemma DefaultsCleanWithoutMerging()
    ensures AnyCleaning(DefaultCleaning) && !DefaultCleaning.mergePaths
    ensures forall c: CleaningOptions :: AnyCleaning(c) <==>
      c != CleaningOptions(false, false, false, false, false, false, false, false)
  { }

  // ---------------------------------------------------------------- processLocally

  /** The content `processLocally` puts into the template: the attribute rewrites, then ids and comments as asked. */
  function LocalContent(s: string, o: ConverterOptions): string
  {
    SvgToJsx.StripComments(CleanIds(RewriteAll(s, AttributeRewrites), o.cleanupIds), o.removeComments)
  }

  /**
    `processLocally`: the basic converter's template around the sized content, with no CSS import
    and no class rewrite, and never any CSS.
  */
  function ProcessLocally(svgContent: string, fileName: string, o: ConverterOptions): ConversionResult
  {
    ConversionResult(Component("", o.typescript, o.memo, ComponentName(fileName), Sized(LocalContent(svgContent, o))), "")
  }

  /**
    The local module is the basic converter's unformatted module for no CSS, whatever the
    `formatCode` option says; so it never imports a CSS module and ends in `memo(Name)` exactly
    when `memo` is on.
  */
  lemma LocalModule(svgContent: string, fileName: string, o: ConverterOptions)
    ensures var r := ProcessLocally(svgContent, fileName, o);
      r.jsx == ModuleText("", Sized(LocalContent(svgContent, o)), fileName, o.(formatCode := false)) && r.css == []
    ensures var r := ProcessLocally(svgContent, fileName, o); var name := ComponentName(fileName);
      !StartsWith(r.jsx, CssImportLine(name)) &&
      (EndsWith(r.jsx, "export default memo(" + name + ");") <==> o.memo)
  {
    var body := Sized(LocalContent(svgContent, o));
    ModuleCssImport("", body, fileName, o.(formatCode := false));
    ModuleMemo("", body, fileName, o.(formatCode := false));
  }

  /** Only the ids, comments, TypeScript and memo options reach `processLocally`. */
  lemma LocalIgnoresOtherOptions(svgContent: string, fileName: string, o: ConverterOptions, p: ConverterOptions)
    requires o.cleanupIds == p.cleanupIds && o.removeComments == p.removeComments
    requires o.typescript == p.typescript && o.memo == p.memo
    ensures ProcessLocally(svgContent, fileName, o) == ProcessLocally(svgContent, fileName, p)
  { }

  // ---------------------------------------------------------------- the worker

  /** What the worker posts back for a conversion task. */
  datatype WorkerConversion = WorkerConversion(jsx: string, css: Option<string>)

  datatype WorkerReply = WorkerReply(success: bool, result: Option<WorkerConversion>, error: Option<string>)

  /** `executeTask` for a conversion task: the reply it resolves to, for the content and the options. */
  type Worker = (string, ConverterOptions) -> WorkerReply

  const WorkerFailed := "Worker conversion failed"

  /** `result.error || 'Worker conversion failed'`: the default replaces a missing or empty message. */
  function WorkerError(error: Option<string>): (m: string)
    ensures m != []
    ensures error.Some? && error.value != [] ==> m == error.value
  {
    if error.Some? && error.value != [] then error.value else WorkerFailed
  }

  /** `result.css || ''` */
  function CssOrEmpty(css: Option<string>): string
  {
    if css.Some? then css.value else ""
  }

  /** What the worker branch yields: the reply's conversion, or an exception with its message. */
  function WorkerOutcome(reply: WorkerReply): Outcome<ConversionResult>
  {
    if reply.success && reply.result.Some? then
      Returned(ConversionResult(reply.result.value.jsx, CssOrEmpty(reply.result.value.css)))
    else Threw(WorkerError(reply.error))
  }

  /** `config.enableWebWorkers && processedSvg.length > config.maxFileSize / 10`, by cross-multiplication. */
  predicate UsesWorker(config: AdvancedConverterConfig, processed: string)
  {
    config.enableWebWorkers && |processed| * 10 > config.maxFileSize
  }

  /** The cross-multiplied test is JavaScript's comparison with the exact quotient. */
  lemma UsesWorkerIff(config: AdvancedConverterConfig, processed: string)
    ensures UsesWorker(config, processed) <==>
      config.enableWebWorkers && (|processed| as real) > (config.maxFileSize as real) / 10.0
  {
    var n, m := |processed| as real, config.maxFileSize as real;
    assert n > m / 10.0 <==> n * 10.0 > m;
  }

  /** With the default configuration the worker takes inputs over one mebibyte. */
  lemma DefaultThreshold(processed: string)
    ensures UsesWorker(DefaultConfig, processed) <==> |processed| > 1024 * 1024
  { }

  // ---------------------------------------------------------------- convertSvgToJsx

  const MemoryError := "Memory limit reached. Please try with a smaller file."

  /** The cleaner's output, when any cleaning flag is set; an exception of the cleaner propagates. */
  function Cleaned(s: string, c: CleaningOptions, parse: Parser): Outcome<string>
  {
    if AnyCleaning(c) then
      match CleanOutcome(parse(s), |s|, c)
      case Threw(m) => Threw(m)
      case Returned(r) => Returned(r.cleanedSvg)
    else Returned(s)
  }

  /** The text after cleaning and, when `optimizeSvg` is on, the basic optimizer. */
  function Prepared(s: string, o: ConverterOptions, c: CleaningOptions, parse: Parser): Outcome<string>
  {
    match Cleaned(s, c, parse)
    case Threw(m) => Threw(m)
    case Returned(t) => Returned(if o.optimizeSvg then SvgUtils.OptimizeOutcome(parse(t), t) else t)
  }

  /** How the `try` block ends: with a conversion or an exception, and the last progress it set. */
  datatype Attempt = Attempt(outcome: Outcome<ConversionResult>, progress: nat)

  /**
    The `try` block: a full memory throws at progress 0, a cleaner failure at 25 and a worker
    failure at 60; a conversion ends at 100.
  */
  function TryBlock(svgInput: string, fileName: string, o: ConverterOptions, c: CleaningOptions,
                    config: AdvancedConverterConfig, memoryFull: bool, parse: Parser, worker: Worker): Attempt
  {
    if memoryFull then Attempt(Threw(MemoryError), 0)
    else
      match Prepared(svgInput, o, c, parse)
      case Threw(m) => Attempt(Threw(m), 25)
      case Returned(p) => Delivered(p, fileName, o, config, worker)
  }

  /** After preparing: the worker's outcome, at 100 or, failing, at 60; or the local conversion at 100. */
  function Delivered(p: string, fileName: string, o: ConverterOptions, config: AdvancedConverterConfig, worker: Worker): Attempt
  {
    if UsesWorker(config, p) then
      var w := WorkerOutcome(worker(p, o));
      Attempt(w, if w.Returned? then 100 else 60)
    else Attempt(Returned(ProcessLocally(p, fileName, o)), 100)
  }

  /** What the outputs show: the conversion, or `// Error: ` and the message with no CSS. */
  function Shown(r: Outcome<ConversionResult>): ConversionResult
  {
    match r
    case Returned(v) => v
    case Threw(m) => ConversionResult(ErrorPrefix + m, "")
  }

  /** Progress ends at 100 exactly when the conversion succeeds. */
  lemma ProgressIff(svgInput: string, fileName: string, o: ConverterOptions, c: CleaningOptions,
                    config: AdvancedConverterConfig, memoryFull: bool, parse: Parser, worker: Worker)
    ensures var t := TryBlock(svgInput, fileName, o, c, config, memoryFull, parse, worker);
      t.progress == 100 <==> t.outcome.Returned?
  { }

  /** A failure shows `// Error: ` and its message, and no CSS. */
  lemma ErrorShown(r: Outcome<ConversionResult>)
    requires r.Threw?
    ensures StartsWith(Shown(r).jsx, ErrorPrefix) && Shown(r).jsx[|ErrorPrefix|..] == r.message && Shown(r).css == []
  {
    StartsSelf(ErrorPrefix);
    StartsConcat(ErrorPrefix, r.message, ErrorPrefix);
  }

  /**
    The decisions of `convertSvgToJsx`: a full memory fails first; a cleaner failure is possible only
    when some cleaning flag is set; the worker answers exactly when it is enabled and the prepared
    text is over a tenth of the size limit, and the local path never returns CSS.
  */
  lemma Decisions(svgInput: string, fileName: string, o: ConverterOptions, c: CleaningOptions,
                  config: AdvancedConverterConfig, memoryFull: bool, parse: Parser, worker: Worker)
    ensures var r := TryBlock(svgInput, fileName, o, c, config, memoryFull, parse, worker).outcome;
      memoryFull ==> r == Threw(MemoryError)
    ensures !AnyCleaning(c) ==> Prepared(svgInput, o, c, parse).Returned?
    ensures var r := TryBlock(svgInput, fileName, o, c, config, memoryFull, parse, worker).outcome;
      !memoryFull && Prepared(svgInput, o, c, parse).Returned? ==>
        var p := Prepared(svgInput, o, c, parse).value;
        (UsesWorker(config, p) ==> r == WorkerOutcome(worker(p, o))) &&
        (!UsesWorker(config, p) ==> r.Returned? && r.value.css == [])
  { }

  // ---------------------------------------------------------------- the hook's state

  class AdvancedConverterHook {
    var svgInput: string
    var jsxOutput: string
    var cssOutput: string
    var fileName: string
    var isProcessing: bool
    var processingProgress: nat
    var options: ConverterOptions
    var cleaningOptions: CleaningOptions
    var config: AdvancedConverterConfig
    const svgCleaner: SVGCleaner

    /** The initial state: no input or output, `SvgIcon`, idle, and the default options. */
    constructor(parser: Parser)
      ensures svgInput == "" && jsxOutput == "" && cssOutput == "" && fileName == DefaultName
      ensures !isProcessing && processingProgress == 0
      ensures options == AllOptions && cleaningOptions == DefaultCleaning && config == DefaultConfig
      ensures fresh(svgCleaner) && svgCleaner.parser == parser
    {
      svgInput := "";
      jsxOutput := "";
      cssOutput := "";
      fileName := DefaultName;
      isProcessing := false;
      processingProgress := 0;
      options := AllOptions;
      cleaningOptions := DefaultCleaning;
      config := DefaultConfig;
      svgCleaner := new SVGCleaner(parser);
    }

    /**
      `convertSvgToJsx`: a blank input changes nothing; otherwise the outputs show the conversion or
      its error, processing is over and the progress is the last value the `try` block set.
    */
    method ConvertSvgToJsx(memoryLimitReached: bool, worker: Worker)
      requires forall s :: ParsesFresh(svgCleaner.parser, s)
      modifies this`jsxOutput, this`cssOutput, this`isProcessing, this`processingProgress
      ensures (jsxOutput, cssOutput, isProcessing, processingProgress) ==
        if IsBlank(svgInput) then (old(jsxOutput), old(cssOutput), old(isProcessing), old(processingProgress))
        else
          var t := TryBlock(old(svgInput), old(fileName), old(options), old(cleaningOptions), old(config),
                            memoryLimitReached, svgCleaner.parser, worker);
          (Shown(t.outcome).jsx, Shown(t.outcome).css, false, t.progress)
    {
      var input, name, opts, cleaning, conf := svgInput, fileName, options, cleaningOptions, config;
      TrimEmptyIffBlank(input);
      if Trim(input) == [] {
        return;
      }
      isProcessing := true;
      processingProgress := 0;
      var shown, progress := Run(input, name, opts, cleaning, conf, memoryLimitReached, svgCleaner, worker);
      Finish(shown, progress);
    }

    /** The `catch` and `finally` blocks' writes: the outputs, the progress, and processing over. */
    method Finish(shown: ConversionResult, progress: nat)
      modifies this`jsxOutput, this`cssOutput, this`isProcessing, this`processingProgress
      ensures (jsxOutput, cssOutput, isProcessing, processingProgress) == (shown.jsx, shown.css, false, progress)
    {
      jsxOutput, cssOutput, processingProgress, isProcessing := shown.jsx, shown.css, progress, false;
    }
  }

  /** The `try` and `catch` blocks: what the outputs show and the progress. */
  method Run(svgInput: string, fileName: string, options: ConverterOptions, cleaningOptions: CleaningOptions,
             config: AdvancedConverterConfig, memoryLimitReached: bool, svgCleaner: SVGCleaner, worker: Worker)
    returns (shown: ConversionResult, progress: nat)
    requires forall s :: ParsesFresh(svgCleaner.parser, s)
    ensures var t := TryBlock(svgInput, fileName, options, cleaningOptions, config, memoryLimitReached, svgCleaner.parser, worker);
      shown == Shown(t.outcome) && progress == t.progress
  {
    var outcome;
    outcome, progress := Process(svgInput, fileName, options, cleaningOptions, config, memoryLimitReached, svgCleaner, worker);
    match outcome {
      case Returned(result) =>
        shown := result;
      case Threw(message) =>
        shown := ConversionResult(ErrorPrefix + message, "");
    }
  }

  /** The `try` block of `convertSvgToJsx`: each `throw` ends it. */
  method Process(svgInput: string, fileName: string, options: ConverterOptions, cleaningOptions: CleaningOptions,
                 config: AdvancedConverterConfig, memoryLimitReached: bool, svgCleaner: SVGCleaner, worker: Worker)
    returns (r: Outcome<ConversionResult>, progress: nat)
    requires forall s :: ParsesFresh(svgCleaner.parser, s)
    ensures Attempt(r, progress) == TryBlock(svgInput, fileName, options, cleaningOptions, config, memoryLimitReached, svgCleaner.parser, worker)
  {
    progress := 0;
    if memoryLimitReached {
      r := Threw(MemoryError);
    } else {
      var processed;
      processed, progress := Prepare(svgInput, options, cleaningOptions, svgCleaner);
      if processed.Threw? {
        r := Threw(processed.message);
      } else {
        r, progress := Deliver(processed.value, fileName, options, config, svgCleaner.parser, worker);
      }
    }
  }

  /** The cleaning and optimizing steps of the `try` block; a cleaner failure is thrown at progress 25. */
  method Prepare(svgInput: string, options: ConverterOptions, cleaningOptions: CleaningOptions, svgCleaner: SVGCleaner)
    returns (processed: Outcome<string>, progress: nat)
    requires forall s :: ParsesFresh(svgCleaner.parser, s)
    ensures processed == Prepared(svgInput, options, cleaningOptions, svgCleaner.parser)
    ensures processed.Threw? ==> progress == 25
  {
    var processedSvg := svgInput;
    progress := 10;
    if AnyCleaning(cleaningOptions) {
      progress := 25;
      var cleaningResult := svgCleaner.Clean(processedSvg, cleaningOptions);
      if cleaningResult.Threw? {
        return Threw(cleaningResult.message), progress;
      }
      processedSvg := cleaningResult.value.cleanedSvg;
    }
    if options.optimizeSvg {
      progress := 40;
      processedSvg := SvgUtils.OptimizeSvg(processedSvg, svgCleaner.parser);
    }
    processed := Returned(processedSvg);
  }

  /** The rest of the `try` block: the worker for a large prepared text, the local conversion otherwise. */
  method Deliver(processedSvg: string, fileName: string, options: ConverterOptions, config: AdvancedConverterConfig,
                 parse: Parser, worker: Worker)
    returns (r: Outcome<ConversionResult>, progress: nat)
    ensures Attempt(r, progress) == Delivered(processedSvg, fileName, options, config, worker)
  {
    progress := 60;
    if UsesWorker(config, processedSvg) {
      var reply := worker(processedSvg, options);
      if reply.success && reply.result.Some? {
        r := Returned(ConversionResult(reply.result.value.jsx, CssOrEmpty(reply.result.value.css)));
        progress := 100;
      } else {
        r := Threw(WorkerError(reply.error));
      }
    } else {
      r := Returned(ProcessLocally(processedSvg, fileName, options));
      progress := 100;
    }
  }
}
