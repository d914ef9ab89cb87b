/**
  The SVG cleaner: a parsed document is handed to up to eight passes in a fixed order, each
  switched on by its own option, and the result is serialized again. The passes change the tree in
  place through a `DomDocument`; each one is proved to leave the tree its specification function of
  the old tree describes, and to return the counter that specification gives.
*/
module SvgCleaner {
  import opened Wrappers
  import opened Text
  import opened Dom
  import opened DomFacts
  import opened CleanerSyntax
  import opened CleanerRemovals
  import opened CleanerRewrites
  import opened CleanerMerge

  datatype CleaningOptions = CleaningOptions(
    removeDuplicates: bool,
    cleanupDefinitions: bool,
    optimizePrecision: bool,
    simplifyPaths: bool,
    optimizeColors: bool,
    normalizeWhitespace: bool,
    removeUnusedStyles: bool,
    mergePaths: bool)

  /**
    `sizeReduction` is `None` where the source divides by an original size of zero (a `NaN` or
    infinite result); otherwise it is the exact percentage.
  */
  datatype CleaningResult = CleaningResult(
    cleanedSvg: string,
    removedElements: nat,
    sizeReduction: Option<real>,
    optimizations: seq<string>)

  /** One line of the optimization log, before it is rendered as text. */
  datatype LogEntry =
    | RemovedDuplicates(count: nat)
    | CleanedDefinitions(count: nat)
    | OptimizedPrecision(count: nat)
    | SimplifiedPaths(count: nat)
    | OptimizedColors(count: nat)
    | NormalizedWhitespace
    | RemovedStyles(count: nat)
    | MergedPaths(count: nat)

  function Message(e: LogEntry): string
  {
    match e
    case RemovedDuplicates(n) => "Removed " + NatToString(n) + " duplicate elements"
    case CleanedDefinitions(n) => "Cleaned up " + NatToString(n) + " unused definitions"
    case OptimizedPrecision(n) => "Optimized precision in " + NatToString(n) + " elements"
    case SimplifiedPaths(n) => "Simplified " + NatToString(n) + " paths"
    case OptimizedColors(n) => "Optimized " + NatToString(n) + " color values"
    case NormalizedWhitespace => "Normalized whitespace"
    case RemovedStyles(n) => "Removed " + NatToString(n) + " unused styles"
    case MergedPaths(n) => "Merged " + NatToString(n) + " compatible paths"
  }

  function Messages(log: seq<LogEntry>): (r: seq<string>)
    ensures |r| == |log| && forall i :: 0 <= i < |log| ==> r[i] == Message(log[i])
  {
    if log == [] then [] else Messages(log[..|log| - 1]) + [Message(log[|log| - 1])]
  }

  /** The position of the pass that writes `e` in the pipeline. */
  function Rank(e: LogEntry): nat
  {
    match e
    case RemovedDuplicates(_) => 0
    case CleanedDefinitions(_) => 1
    case OptimizedPrecision(_) => 2
    case SimplifiedPaths(_) => 3
    case OptimizedColors(_) => 4
    case NormalizedWhitespace => 5
    case RemovedStyles(_) => 6
    case MergedPaths(_) => 7
  }

  /** The option that switches on the pass writing `e`. */
  predicate Enabled(o: CleaningOptions, e: LogEntry)
  {
    match e
    case RemovedDuplicates(_) => o.removeDuplicates
    case CleanedDefinitions(_) => o.cleanupDefinitions
    case OptimizedPrecision(_) => o.optimizePrecision
    case SimplifiedPaths(_) => o.simplifyPaths
    case OptimizedColors(_) => o.optimizeColors
    case NormalizedWhitespace => o.normalizeWhitespace
    case RemovedStyles(_) => o.removeUnusedStyles
    case MergedPaths(_) => o.mergePaths
  }

  // ---------------------------------------------------------------- the pipeline, as values

  /** The state `clean` threads through the passes: the tree, `removedElements` and the log. */
  datatype Progress = Progress(doc: Document, removed: nat, log: seq<LogEntry>)

  function Logged(log: seq<LogEntry>, e: LogEntry): seq<LogEntry>
  {
    if !e.NormalizedWhitespace? && e.count > 0 then log + [e] else log
  }

  /** The live tree, `removedElements` and `optimizations` of `clean` are those `p` describes. */
  predicate Tracks(tree: Document, removed: nat, optimizations: seq<string>, p: Progress)
  {
    tree == p.doc && removed == p.removed && optimizations == Messages(p.log)
  }

  lemma MessagesSnoc(log: seq<LogEntry>, e: LogEntry)
    ensures Messages(log + [e]) == Messages(log) + [Message(e)]
  {
    assert (log + [e])[..|log|] == log;
  }

  /** Writing a line exactly when the count is positive renders the log `Logged` keeps. */
  lemma LogMessages(log: seq<LogEntry>, e: LogEntry, optimizations: seq<string>)
    requires !e.NormalizedWhitespace? && optimizations == Messages(log)
    ensures (if e.count > 0 then optimizations + [Message(e)] else optimizations) == Messages(Logged(log, e))
  {
    if e.count > 0 {
      MessagesSnoc(log, e);
    }
  }

  function DuplicatesPass(p: Progress, on: bool): Progress
  {
    if !on then p
    else
      var n := DuplicatesRemoved(p.doc);
      Progress(AfterDuplicates(p.doc), p.removed + n, Logged(p.log, RemovedDuplicates(n)))
  }

  function DefinitionsPass(p: Progress, on: bool): Progress
  {
    if !on then p
    else
      var n := DefinitionsRemoved(p.doc);
      Progress(AfterDefinitions(p.doc), p.removed + n, Logged(p.log, CleanedDefinitions(n)))
  }

  function PrecisionPass(p: Progress, on: bool): Progress
  {
    if !on then p
    else Progress(AfterPrecision(p.doc), p.removed, Logged(p.log, OptimizedPrecision(PrecisionOptimized(p.doc))))
  }

  function PathsPass(p: Progress, on: bool): Progress
  {
    if !on then p
    else Progress(AfterPaths(p.doc), p.removed, Logged(p.log, SimplifiedPaths(PathsSimplified(p.doc))))
  }

  function ColorsPass(p: Progress, on: bool): Progress
  {
    if !on then p
    else Progress(AfterColors(p.doc), p.removed, Logged(p.log, OptimizedColors(ColorsOptimized(p.doc))))
  }

  /** `None` when the tree walker cannot be created, because there is no document element. */
  function WhitespacePass(p: Progress, on: bool): Option<Progress>
  {
    if !on then Some(p)
    else
      match AfterWhitespace(p.doc)
      case None => None
      case Some(d) => Some(Progress(d, p.removed, p.log + [NormalizedWhitespace]))
  }

  function StylesPass(p: Progress, on: bool): Progress
  {
    if !on then p
    else Progress(AfterStyles(p.doc), p.removed, Logged(p.log, RemovedStyles(StylesRemoved(p.doc))))
  }

  function MergePass(p: Progress, on: bool): Progress
  {
    if !on then p
    else Progress(AfterMerge(p.doc), p.removed, Logged(p.log, MergedPaths(PathsMerged(p.doc))))
  }

  /** The five passes before whitespace normalization. */
  function EarlyPasses(d: Document, o: CleaningOptions): Progress
  {
    var p1 := DuplicatesPass(Progress(d, 0, []), o.removeDuplicates);
    var p2 := DefinitionsPass(p1, o.cleanupDefinitions);
    var p3 := PrecisionPass(p2, o.optimizePrecision);
    var p4 := PathsPass(p3, o.simplifyPaths);
    ColorsPass(p4, o.optimizeColors)
  }

  function RunPasses(d: Document, o: CleaningOptions): Option<Progress>
  {
    match WhitespacePass(EarlyPasses(d, o), o.normalizeWhitespace)
    case None => None
    case Some(q) => Some(MergePass(StylesPass(q, o.removeUnusedStyles), o.mergePaths))
  }

  // ---------------------------------------------------------------- what a run promises

  /**
    A log as the pipeline writes it: every entry comes from a pass that was switched on, every
    entry but the whitespace one reports a positive count, and the entries follow the order of
    the passes, at most one per pass.
  */
  predicate InPipelineOrder(o: CleaningOptions, log: seq<LogEntry>)
  {
    (forall i :: 0 <= i < |log| ==> Enabled(o, log[i]) && (log[i].NormalizedWhitespace? || log[i].count > 0))
    && (forall i, j :: 0 <= i < j < |log| ==> Rank(log[i]) < Rank(log[j]))
  }

  /** Every entry of the log was written by a pass before the one of rank `r`. */
  predicate Before(log: seq<LogEntry>, r: nat)
  {
    forall i :: 0 <= i < |log| ==> Rank(log[i]) < r
  }

  /** A pass that comes after every entry so far keeps the log in pipeline order. */
  lemma AppendInOrder(o: CleaningOptions, log: seq<LogEntry>, e: LogEntry)
    requires InPipelineOrder(o, log) && Before(log, Rank(e))
    requires Enabled(o, e) && (e.NormalizedWhitespace? || e.count > 0)
    ensures InPipelineOrder(o, log + [e]) && Before(log + [e], Rank(e) + 1)
  {
    var l := log + [e];
    assert l[|log|] == e;
    assert forall i :: 0 <= i < |log| ==> l[i] == log[i];
  }

  /** One counting pass of rank `Rank(e)`: the log stays in order and below the next rank. */
  lemma LoggedInOrder(o: CleaningOptions, log: seq<LogEntry>, e: LogEntry, on: bool)
    requires !e.NormalizedWhitespace? && InPipelineOrder(o, log) && Before(log, Rank(e))
    requires on ==> Enabled(o, e)
    ensures var l := if on then Logged(log, e) else log;
      InPipelineOrder(o, l) && Before(l, Rank(e) + 1)
  {
    if on && e.count > 0 {
      AppendInOrder(o, log, e);
    }
  }

  // Each counting pass keeps the log in pipeline order and below the next pass's rank.

  lemma DuplicatesInOrder(o: CleaningOptions, p: Progress)
    requires InPipelineOrder(o, p.log) && Before(p.log, 0)
    ensures var q := DuplicatesPass(p, o.removeDuplicates).log; InPipelineOrder(o, q) && Before(q, 1)
  {
    LoggedInOrder(o, p.log, RemovedDuplicates(DuplicatesRemoved(p.doc)), o.removeDuplicates);
  }

  lemma DefinitionsInOrder(o: CleaningOptions, p: Progress)
    requires InPipelineOrder(o, p.log) && Before(p.log, 1)
    ensures var q := DefinitionsPass(p, o.cleanupDefinitions).log; InPipelineOrder(o, q) && Before(q, 2)
  {
    LoggedInOrder(o, p.log, CleanedDefinitions(DefinitionsRemoved(p.doc)), o.cleanupDefinitions);
  }

  lemma PrecisionInOrder(o: CleaningOptions, p: Progress)
    requires InPipelineOrder(o, p.log) && Before(p.log, 2)
    ensures var q := PrecisionPass(p, o.optimizePrecision).log; InPipelineOrder(o, q) && Before(q, 3)
  {
    LoggedInOrder(o, p.log, OptimizedPrecision(PrecisionOptimized(p.doc)), o.optimizePrecision);
  }

  lemma PathsInOrder(o: CleaningOptions, p: Progress)
    requires InPipelineOrder(o, p.log) && Before(p.log, 3)
    ensures var q := PathsPass(p, o.simplifyPaths).log; InPipelineOrder(o, q) && Before(q, 4)
  {
    LoggedInOrder(o, p.log, SimplifiedPaths(PathsSimplified(p.doc)), o.simplifyPaths);
  }

  lemma ColorsInOrder(o: CleaningOptions, p: Progress)
    requires InPipelineOrder(o, p.log) && Before(p.log, 4)
    ensures var q := ColorsPass(p, o.optimizeColors).log; InPipelineOrder(o, q) && Before(q, 5)
  {
    LoggedInOrder(o, p.log, OptimizedColors(ColorsOptimized(p.doc)), o.optimizeColors);
  }

  lemma StylesInOrder(o: CleaningOptions, p: Progress)
    requires InPipelineOrder(o, p.log) && Before(p.log, 6)
    ensures var q := StylesPass(p, o.removeUnusedStyles).log; InPipelineOrder(o, q) && Before(q, 7)
  {
    LoggedInOrder(o, p.log, RemovedStyles(StylesRemoved(p.doc)), o.removeUnusedStyles);
  }

  lemma MergeInOrder(o: CleaningOptions, p: Progress)
    requires InPipelineOrder(o, p.log) && Before(p.log, 7)
    ensures var q := MergePass(p, o.mergePaths).log; InPipelineOrder(o, q) && Before(q, 8)
  {
    LoggedInOrder(o, p.log, MergedPaths(PathsMerged(p.doc)), o.mergePaths);
  }

  /** Whitespace normalization, rank 5, writes its line whenever it is switched on. */
  lemma WhitespaceInOrder(o: CleaningOptions, p: Progress)
    requires InPipelineOrder(o, p.log) && Before(p.log, 5) && WhitespacePass(p, o.normalizeWhitespace).Some?
    ensures var q := WhitespacePass(p, o.normalizeWhitespace).value.log;
      InPipelineOrder(o, q) && Before(q, 6) && (NormalizedWhitespace in q <==> o.normalizeWhitespace)
  {
    if o.normalizeWhitespace {
      AppendInOrder(o, p.log, NormalizedWhitespace);
    }
    assert Rank(NormalizedWhitespace) == 5;
  }

  /** Passes after whitespace normalization neither add nor drop its line. */
  lemma LaterPassesKeepWhitespace(o: CleaningOptions, p: Progress)
    ensures NormalizedWhitespace in StylesPass(p, o.removeUnusedStyles).log <==> NormalizedWhitespace in p.log
    ensures NormalizedWhitespace in MergePass(p, o.mergePaths).log <==> NormalizedWhitespace in p.log
  {
  }

  /**
    The optimization log of a completed run: only switched-on passes write, in the fixed order
    duplicates, definitions, precision, paths, colours, whitespace, styles, merge; every line but
    the whitespace one reports a positive count, and the whitespace line is there exactly when
    its pass is switched on.
  */
  lemma RunLog(d: Document, o: CleaningOptions)
    requires RunPasses(d, o).Some?
    ensures InPipelineOrder(o, RunPasses(d, o).value.log)
    ensures NormalizedWhitespace in RunPasses(d, o).value.log <==> o.normalizeWhitespace
  {
    var p0 := Progress(d, 0, []);
    var p1 := DuplicatesPass(p0, o.removeDuplicates);
    var p2 := DefinitionsPass(p1, o.cleanupDefinitions);
    var p3 := PrecisionPass(p2, o.optimizePrecision);
    var p4 := PathsPass(p3, o.simplifyPaths);
    var p5 := ColorsPass(p4, o.optimizeColors);
    DuplicatesInOrder(o, p0);
    DefinitionsInOrder(o, p1);
    PrecisionInOrder(o, p2);
    PathsInOrder(o, p3);
    ColorsInOrder(o, p4);
    var q := WhitespacePass(p5, o.normalizeWhitespace).value;
    WhitespaceInOrder(o, p5);
    var p7 := StylesPass(q, o.removeUnusedStyles);
    StylesInOrder(o, q);
    MergeInOrder(o, p7);
    LaterPassesKeepWhitespace(o, q);
    LaterPassesKeepWhitespace(o, p7);
  }

  /**
    `removedElements` adds up the duplicate pass's and the definition pass's removals and
    nothing else: the removed styles and the merged paths only reach the log.
  */
  lemma RemovedElementsCounts(d: Document, o: CleaningOptions)
    requires RunPasses(d, o).Some?
    ensures RunPasses(d, o).value.removed ==
      (if o.removeDuplicates then DuplicatesRemoved(d) else 0) +
      (if o.cleanupDefinitions then DefinitionsRemoved(DuplicatesPass(Progress(d, 0, []), o.removeDuplicates).doc) else 0)
  {
  }

  /** `((originalSize - cleanedSize) / originalSize) * 100`, undefined for an empty original. */
  function SizeReduction(originalSize: nat, cleanedSize: nat): Option<real>
  {
    if originalSize == 0 then None
    else Some(((originalSize as real - cleanedSize as real) / originalSize as real) * 100.0)
  }

  /** What a `TypeError` from `createTreeWalker` on a missing document element reads. */
  const WalkerError := "TypeError: createTreeWalker: root is not a Node"

  /** The outcome of `clean` on `svgContent`, given what the parser makes of it. */
  function CleanOutcome(parsed: Outcome<Document>, originalSize: nat, o: CleaningOptions): Outcome<CleaningResult>
  {
    match parsed
    case Threw(m) => Threw(m)
    case Returned(d) =>
      match RunPasses(d, o)
      case None => Threw(WalkerError)
      case Some(p) =>
        var s := SerializeDocument(p.doc);
        Returned(CleaningResult(s, p.removed, SizeReduction(originalSize, |s|), Messages(p.log)))
  }

  // ---------------------------------------------------------------- the cleaner

  class SVGCleaner {
    const parser: Parser

    constructor(parser: Parser)
      ensures this.parser == parser
    {
      this.parser := parser;
    }

    method Clean(svgContent: string, options: CleaningOptions) returns (r: Outcome<CleaningResult>)
      requires ParsesFresh(parser, svgContent)
      ensures r == CleanOutcome(parser(svgContent), |svgContent|, options)
    {
      var originalSize := |svgContent|;
      var parsed := parser(svgContent);
      if parsed.Threw? {
        return Threw(parsed.message);
      }
      var svgDoc := new DomDocument(parsed.value);
      var removedElements, optimizations := EarlyStages(svgDoc, options);
      ghost var p := EarlyPasses(parsed.value, options);

      var walked;
      walked, optimizations := WhitespaceStage(svgDoc, options.normalizeWhitespace, removedElements, optimizations, p);
      if !walked {
        return Threw(WalkerError);
      }
      p := WhitespacePass(p, options.normalizeWhitespace).value;
      optimizations := StylesStage(svgDoc, options.removeUnusedStyles, removedElements, optimizations, p);
      p := StylesPass(p, options.removeUnusedStyles);
      optimizations := MergeStage(svgDoc, options.mergePaths, removedElements, optimizations, p);
      p := MergePass(p, options.mergePaths);

      var cleanedSvg := SerializeDocument(svgDoc.tree);
      var sizeReduction := SizeReduction(originalSize, |cleanedSvg|);
      return Returned(CleaningResult(cleanedSvg, removedElements, sizeReduction, optimizations));
    }

    /** The five passes of `clean` before whitespace normalization, on a fresh log. */
    method EarlyStages(svgDoc: DomDocument, options: CleaningOptions) returns (removedElements: nat, optimizations: seq<string>)
      requires Valid(svgDoc.tree)
      modifies svgDoc
      ensures Valid(svgDoc.tree) && Tracks(svgDoc.tree, removedElements, optimizations, EarlyPasses(old(svgDoc.tree), options))
    {
      optimizations := [];
      removedElements := 0;
      ghost var p := Progress(svgDoc.tree, 0, []);
      removedElements, optimizations := DuplicatesStage(svgDoc, options.removeDuplicates, removedElements, optimizations, p);
      p := DuplicatesPass(p, options.removeDuplicates);
      removedElements, optimizations := DefinitionsStage(svgDoc, options.cleanupDefinitions, removedElements, optimizations, p);
      p := DefinitionsPass(p, options.cleanupDefinitions);
      optimizations := PrecisionStage(svgDoc, options.optimizePrecision, removedElements, optimizations, p);
      p := PrecisionPass(p, options.optimizePrecision);
      optimizations := PathsStage(svgDoc, options.simplifyPaths, removedElements, optimizations, p);
      p := PathsPass(p, options.simplifyPaths);
      optimizations := ColorsStage(svgDoc, options.optimizeColors, removedElements, optimizations, p);
    }

    // One stage of `clean` per pass: the pass runs when its option is on, its count is added to
    // `removedElements` (for the two removal passes) and a log line is written when it is positive.

    method DuplicatesStage(svgDoc: DomDocument, on: bool, removedElements: nat, optimizations: seq<string>, ghost p: Progress)
      returns (removedAfter: nat, optimizationsAfter: seq<string>)
      requires Valid(svgDoc.tree) && Tracks(svgDoc.tree, removedElements, optimizations, p)
      modifies svgDoc
      ensures Valid(svgDoc.tree) && Tracks(svgDoc.tree, removedAfter, optimizationsAfter, DuplicatesPass(p, on))
    {
      removedAfter, optimizationsAfter := removedElements, optimizations;
      if on {
        var removed := RemoveDuplicateElements(svgDoc);
        removedAfter := removedAfter + removed;
        LogMessages(p.log, RemovedDuplicates(removed), optimizations);
        if removed > 0 {
          optimizationsAfter := optimizationsAfter + [Message(RemovedDuplicates(removed))];
        }
      }
    }

    method DefinitionsStage(svgDoc: DomDocument, on: bool, removedElements: nat, optimizations: seq<string>, ghost p: Progress)
      returns (removedAfter: nat, optimizationsAfter: seq<string>)
      requires Valid(svgDoc.tree) && Tracks(svgDoc.tree, removedElements, optimizations, p)
      modifies svgDoc
      ensures Valid(svgDoc.tree) && Tracks(svgDoc.tree, removedAfter, optimizationsAfter, DefinitionsPass(p, on))
    {
      removedAfter, optimizationsAfter := removedElements, optimizations;
      if on {
        var removed := CleanupUnusedDefinitions(svgDoc);
        removedAfter := removedAfter + removed;
        LogMessages(p.log, CleanedDefinitions(removed), optimizations);
        if removed > 0 {
          optimizationsAfter := optimizationsAfter + [Message(CleanedDefinitions(removed))];
        }
      }
    }

    method PrecisionStage(svgDoc: DomDocument, on: bool, removedElements: nat, optimizations: seq<string>, ghost p: Progress)
      returns (optimizationsAfter: seq<string>)
      requires Valid(svgDoc.tree) && Tracks(svgDoc.tree, removedElements, optimizations, p)
      modifies svgDoc
      ensures Valid(svgDoc.tree) && Tracks(svgDoc.tree, removedElements, optimizationsAfter, PrecisionPass(p, on))
    {
      optimizationsAfter := optimizations;
      if on {
        var optimized := OptimizePrecision(svgDoc);
        LogMessages(p.log, OptimizedPrecision(optimized), optimizations);
        if optimized > 0 {
          optimizationsAfter := optimizationsAfter + [Message(OptimizedPrecision(optimized))];
        }
      }
    }

    method PathsStage(svgDoc: DomDocument, on: bool, removedElements: nat, optimizations: seq<string>, ghost p: Progress)
      returns (optimizationsAfter: seq<string>)
      requires Valid(svgDoc.tree) && Tracks(svgDoc.tree, removedElements, optimizations, p)
      modifies svgDoc
      ensures Valid(svgDoc.tree) && Tracks(svgDoc.tree, removedElements, optimizationsAfter, PathsPass(p, on))
    {
      optimizationsAfter := optimizations;
      if on {
        var simplified := SimplifyPaths(svgDoc);
        LogMessages(p.log, SimplifiedPaths(simplified), optimizations);
        if simplified > 0 {
          optimizationsAfter := optimizationsAfter + [Message(SimplifiedPaths(simplified))];
        }
      }
    }

    method ColorsStage(svgDoc: DomDocument, on: bool, removedElements: nat, optimizations: seq<string>, ghost p: Progress)
      returns (optimizationsAfter: seq<string>)
      requires Valid(svgDoc.tree) && Tracks(svgDoc.tree, removedElements, optimizations, p)
      modifies svgDoc
      ensures Valid(svgDoc.tree) && Tracks(svgDoc.tree, removedElements, optimizationsAfter, ColorsPass(p, on))
    {
      optimizationsAfter := optimizations;
      if on {
        var optimized := OptimizeColors(svgDoc);
        LogMessages(p.log, OptimizedColors(optimized), optimizations);
        if optimized > 0 {
          optimizationsAfter := optimizationsAfter + [Message(OptimizedColors(optimized))];
        }
      }
    }

    /** The whitespace stage, which always logs; `walked` is false when the tree walker throws. */
    method WhitespaceStage(svgDoc: DomDocument, on: bool, removedElements: nat, optimizations: seq<string>, ghost p: Progress)
      returns (walked: bool, optimizationsAfter: seq<string>)
      requires Valid(svgDoc.tree) && Tracks(svgDoc.tree, removedElements, optimizations, p)
      modifies svgDoc
      ensures walked <==> WhitespacePass(p, on).Some?
      ensures walked ==> Valid(svgDoc.tree) && Tracks(svgDoc.tree, removedElements, optimizationsAfter, WhitespacePass(p, on).value)
    {
      walked, optimizationsAfter := true, optimizations;
      if on {
        walked := NormalizeWhitespace(svgDoc);
        if walked {
          MessagesSnoc(p.log, NormalizedWhitespace);
          optimizationsAfter := optimizationsAfter + [Message(NormalizedWhitespace)];
        }
      }
    }

    method StylesStage(svgDoc: DomDocument, on: bool, removedElements: nat, optimizations: seq<string>, ghost p: Progress)
      returns (optimizationsAfter: seq<string>)
      requires Valid(svgDoc.tree) && Tracks(svgDoc.tree, removedElements, optimizations, p)
      modifies svgDoc
      ensures Valid(svgDoc.tree) && Tracks(svgDoc.tree, removedElements, optimizationsAfter, StylesPass(p, on))
    {
      optimizationsAfter := optimizations;
      if on {
        var removed := RemoveUnusedStyles(svgDoc);
        LogMessages(p.log, RemovedStyles(removed), optimizations);
        if removed > 0 {
          optimizationsAfter := optimizationsAfter + [Message(RemovedStyles(removed))];
        }
      }
    }

    method MergeStage(svgDoc: DomDocument, on: bool, removedElements: nat, optimizations: seq<string>, ghost p: Progress)
      returns (optimizationsAfter: seq<string>)
      requires Valid(svgDoc.tree) && Tracks(svgDoc.tree, removedElements, optimizations, p)
      modifies svgDoc
      ensures Valid(svgDoc.tree) && Tracks(svgDoc.tree, removedElements, optimizationsAfter, MergePass(p, on))
    {
      optimizationsAfter := optimizations;
      if on {
        var merged := MergePaths(svgDoc);
        LogMessages(p.log, MergedPaths(merged), optimizations);
        if merged > 0 {
          optimizationsAfter := optimizationsAfter + [Message(MergedPaths(merged))];
        }
      }
    }

    /** Detaches every element whose serialization an earlier element of the snapshot had. */
    method RemoveDuplicateElements(svgDoc: DomDocument) returns (removed: nat)
      requires Valid(svgDoc.tree)
      modifies svgDoc
      ensures svgDoc.tree == AfterDuplicates(old(svgDoc.tree)) && Valid(svgDoc.tree)
      ensures removed == DuplicatesRemoved(old(svgDoc.tree))
    {
      ghost var d0 := svgDoc.tree;
      NothingDoc(d0);
      var elements := QuerySelectorAll(svgDoc.tree, Universal);
      var seen: set<string> := {};
      removed := 0;
      var i := 0;
      while i < |elements|
        invariant i <= |elements|
        invariant seen == SeenBefore(elements, i)
        invariant svgDoc.tree == PruneDoc(d0, DuplicateIds(elements, i))
        invariant removed == DuplicateCount(elements, i)
      {
        var element := elements[i];
        var serialized := Serialize(element);
        ghost var v := DuplicateIds(elements, i);
        if serialized in seen {
          svgDoc.RemoveNode(element.id);
          PruneDocTwice(d0, v, {element.id});
          assert DuplicateIds(elements, i + 1) == v + {element.id};
          removed := removed + 1;
        } else {
          seen := seen + {serialized};
          assert DuplicateIds(elements, i + 1) == v;
        }
        i := i + 1;
      }
      PruneDocValid(d0, DuplicateIds(elements, i));
    }

    /** Detaches every `defs` descendant with an `id` no reference attribute names. */
    method CleanupUnusedDefinitions(svgDoc: DomDocument) returns (removed: nat)
      requires Valid(svgDoc.tree)
      modifies svgDoc
      ensures svgDoc.tree == AfterDefinitions(old(svgDoc.tree)) && Valid(svgDoc.tree)
      ensures removed == DefinitionsRemoved(old(svgDoc.tree))
    {
      ghost var d0 := svgDoc.tree;
      NothingDoc(d0);
      var defs := QuerySelectorAll(svgDoc.tree, DefinitionSelector);
      var usedIds: set<string> := {};
      removed := 0;

      var elements := QuerySelectorAll(svgDoc.tree, Universal);
      var i := 0;
      while i < |elements|
        invariant i <= |elements|
        invariant usedIds == UsedIds(elements, i)
        invariant svgDoc.tree == d0
      {
        usedIds := CollectReferences(elements[i], usedIds);
        i := i + 1;
      }

      var k := 0;
      while k < |defs|
        invariant k <= |defs|
        invariant svgDoc.tree == PruneDoc(d0, IdsWhere(defs, k, Unused(usedIds)))
        invariant removed == CountWhere(defs, k, Unused(usedIds))
      {
        PruneWhereStep(d0, defs, k, Unused(usedIds));
        var count := RemoveIfUnused(svgDoc, defs[k], usedIds);
        removed := removed + count;
        k := k + 1;
      }
      PruneDocValid(d0, IdsWhere(defs, k, Unused(usedIds)));
    }

    /**
      The reference scan's step for one element: adds the id named by each reference attribute
      whose value starts with `url(#`.
    */
    method CollectReferences(element: Node, usedIds: set<string>) returns (used: set<string>)
      ensures used == usedIds + RefsOfElement(element)
    {
      used := usedIds;
      var attributes := ReferenceAttributes;
      var j := 0;
      while j < |attributes|
        invariant j <= |attributes|
        invariant used == usedIds + RefsOf(AttrsOf(element), attributes[..j])
      {
        var value := GetAttr(AttrsOf(element), attributes[j]);
        if value.Some? && value.value != [] && StartsWith(value.value, "url(#") {
          var id := ReferencedId(value.value).value;
          used := used + {id};
        }
        assert attributes[..j + 1][..j] == attributes[..j];
        j := j + 1;
      }
      assert attributes[..j] == attributes;
    }

    /** The definition pass's step for one candidate: detached when its `id` is unreferenced. */
    method RemoveIfUnused(svgDoc: DomDocument, def: Node, usedIds: set<string>) returns (count: nat)
      modifies svgDoc
      ensures count == if IsUnusedDefinition(def, usedIds) then 1 else 0
      ensures svgDoc.tree == if IsUnusedDefinition(def, usedIds) then PruneDoc(old(svgDoc.tree), {def.id}) else old(svgDoc.tree)
    {
      count := 0;
      var id := GetAttr(AttrsOf(def), "id");
      if id.Some? && id.value != [] && id.value !in usedIds {
        svgDoc.RemoveNode(def.id);
        count := 1;
      }
    }

    /** Rounds every long decimal attribute value to two fractional digits. */
    method OptimizePrecision(svgDoc: DomDocument) returns (optimized: nat)
      requires Valid(svgDoc.tree)
      modifies svgDoc
      ensures svgDoc.tree == AfterPrecision(old(svgDoc.tree)) && Valid(svgDoc.tree)
      ensures optimized == PrecisionOptimized(old(svgDoc.tree))
    {
      ghost var d0 := svgDoc.tree;
      NothingDoc(d0);
      var elements := QuerySelectorAll(svgDoc.tree, Universal);
      optimized := 0;
      var i := 0;
      while i < |elements|
        invariant i <= |elements|
        invariant svgDoc.tree == EditAttrsDoc(d0, PatchOf(elements, i, RoundedAttrs, HasLongDecimal))
        invariant optimized == PrecisionCount(elements, i)
      {
        var element := elements[i];
        SnapshotAt(d0, Universal, i);
        PatchOfDocStep(d0, elements, i, RoundedAttrs, HasLongDecimal);
        PrecisionTouches(element.tag, element.attrs);
        var count := RoundElement(svgDoc, element);
        optimized := optimized + count;
        i := i + 1;
      }
      PrecisionPatch(d0);
    }

    /**
      The precision pass's step for one element: walks the snapshot of its attributes and sets
      every long decimal value to its two-digit rounding; `count` is the number of values set.
    */
    method RoundElement(svgDoc: DomDocument, element: Node) returns (count: nat)
      requires element.Element?
      modifies svgDoc
      ensures count == RewriteCount(element.attrs, |element.attrs|, Rounding)
      ensures svgDoc.tree ==
        if count > 0 then EditAttrsDoc(old(svgDoc.tree), map[element.id := RoundedAttrs(element.tag, element.attrs)])
        else old(svgDoc.tree)
    {
      var current;
      current, count := RoundAll(svgDoc, element.id, element.attrs, svgDoc.tree);
    }

    /** The walk over the snapshot `attributes` of element `id`, rounding each long decimal value. */
    method RoundAll(svgDoc: DomDocument, id: nat, attributes: seq<Attr>, ghost d0: Document)
      returns (current: seq<Attr>, count: nat)
      requires svgDoc.tree == d0
      modifies svgDoc
      ensures current == RewriteUpTo(attributes, |attributes|, Rounding)
      ensures count == RewriteCount(attributes, |attributes|, Rounding)
      ensures svgDoc.tree == if count > 0 then EditAttrsDoc(d0, map[id := current]) else d0
    {
      // the element's live attribute list
      current := attributes;
      count := 0;
      var j := 0;
      while j < |attributes|
        invariant j <= |attributes|
        invariant current == RewriteUpTo(attributes, j, Rounding)
        invariant count == RewriteCount(attributes, j, Rounding)
        invariant svgDoc.tree == if count > 0 then EditAttrsDoc(d0, map[id := current]) else d0
      {
        current, count := RoundStep(svgDoc, id, attributes, j, current, count, d0);
        j := j + 1;
      }
    }

    /** One turn of the walk: attribute `j` of the snapshot, rounded on the live list when it is a long decimal. */
    method RoundStep(svgDoc: DomDocument, id: nat, attributes: seq<Attr>, j: nat, current: seq<Attr>, count: nat,
                     ghost d0: Document) returns (next: seq<Attr>, total: nat)
      requires j < |attributes|
      requires current == RewriteUpTo(attributes, j, Rounding) && count == RewriteCount(attributes, j, Rounding)
      requires svgDoc.tree == if count > 0 then EditAttrsDoc(d0, map[id := current]) else d0
      modifies svgDoc
      ensures next == RewriteUpTo(attributes, j + 1, Rounding) && total == RewriteCount(attributes, j + 1, Rounding)
      ensures svgDoc.tree == if total > 0 then EditAttrsDoc(d0, map[id := next]) else d0
    {
      var attr := attributes[j];
      RoundingStep(attributes, j);
      LiveAttrsStep(d0, id, current, RewriteUpTo(attributes, j + 1, Rounding), count > 0);
      var hit;
      next, hit := RoundAttribute(svgDoc, id, current, attr);
      total := if hit then count + 1 else count;
    }

    /**
      The precision pass's step for one attribute of the snapshot: a long decimal value is set,
      rounded, on the element's live attribute list `current`.
    */
    method RoundAttribute(svgDoc: DomDocument, id: nat, current: seq<Attr>, attr: Attr) returns (next: seq<Attr>, hit: bool)
      modifies svgDoc
      ensures hit <==> IsLongDecimal(attr.value)
      ensures next == if hit then SetAttr(current, attr.name, Rounding(attr.value).value) else current
      ensures svgDoc.tree == if hit then EditAttrsDoc(old(svgDoc.tree), map[id := next]) else old(svgDoc.tree)
    {
      next, hit := current, false;
      if IsLongDecimal(attr.value) {
        var rounded := ToFixedTwo(attr.value);
        next := SetAttr(current, attr.name, rounded);
        svgDoc.SetAttributes(id, next);
        hit := true;
      }
    }

    /** Writes back the simplified `d` of every `path` whose simplification changes it. */
    method SimplifyPaths(svgDoc: DomDocument) returns (simplified: nat)
      requires Valid(svgDoc.tree)
      modifies svgDoc
      ensures svgDoc.tree == AfterPaths(old(svgDoc.tree)) && Valid(svgDoc.tree)
      ensures simplified == PathsSimplified(old(svgDoc.tree))
    {
      ghost var d0 := svgDoc.tree;
      NothingDoc(d0);
      var paths := QuerySelectorAll(svgDoc.tree, Type("path"));
      simplified := 0;
      var i := 0;
      while i < |paths|
        invariant i <= |paths|
        invariant svgDoc.tree == EditAttrsDoc(d0, PatchOf(paths, i, SimplifiedPathAttrs, PathChanges))
        invariant simplified == CountWhere(paths, i, OnElements(PathChanges))
      {
        var path := paths[i];
        SnapshotAt(d0, Type("path"), i);
        PatchOfDocStep(d0, paths, i, SimplifiedPathAttrs, PathChanges);
        WhereStep(paths, i, OnElements(PathChanges));
        var changed := SimplifyPath(svgDoc, path);
        simplified := simplified + changed;
        i := i + 1;
      }
      PathsPatch(d0);
    }

    /** The path pass's step for one `path`: `changed` is 1 exactly when its `d` was rewritten. */
    method SimplifyPath(svgDoc: DomDocument, path: Node) returns (changed: nat)
      requires path.Element? && path.tag == "path"
      modifies svgDoc
      ensures changed == if PathChanges(path.tag, path.attrs) then 1 else 0
      ensures svgDoc.tree ==
        if PathChanges(path.tag, path.attrs)
        then EditAttrsDoc(old(svgDoc.tree), map[path.id := SimplifiedPathAttrs(path.tag, path.attrs)])
        else old(svgDoc.tree)
    {
      changed := 0;
      var d := GetAttr(AttrsOf(path), "d");
      if d.Some? && d.value != [] {
        var simplifiedD := SimplifyPathData(d.value);
        if simplifiedD != d.value {
          var attrs := SetAttr(AttrsOf(path), "d", simplifiedD);
          svgDoc.SetAttributes(path.id, attrs);
          changed := 1;
        }
      }
    }

    /** Replaces each `rgb()` colour in `fill` and `stroke` by its `#rrggbb` form. */
    method OptimizeColors(svgDoc: DomDocument) returns (optimized: nat)
      requires Valid(svgDoc.tree)
      modifies svgDoc
      ensures svgDoc.tree == AfterColors(old(svgDoc.tree)) && Valid(svgDoc.tree)
      ensures optimized == ColorsOptimized(old(svgDoc.tree))
    {
      ghost var d0 := svgDoc.tree;
      NothingDoc(d0);
      var elements := QuerySelectorAll(svgDoc.tree, Universal);
      optimized := 0;
      var i := 0;
      while i < |elements|
        invariant i <= |elements|
        invariant svgDoc.tree == EditAttrsDoc(d0, PatchOf(elements, i, RecoloredAttrs, HasRgbColor))
        invariant optimized == ColorCount(elements, i)
      {
        var element := elements[i];
        SnapshotAt(d0, Universal, i);
        PatchOfDocStep(d0, elements, i, RecoloredAttrs, HasRgbColor);
        RecoloredAttrsFacts(element.tag, element.attrs);
        var count := RecolorElement(svgDoc, element, ColorAttributes);
        optimized := optimized + count;
        i := i + 1;
      }
      ColorsPatch(d0);
    }

    /**
      The colour pass's step for one element: each attribute of `names` in turn (the pass gives
      `fill`, then `stroke`) set to the hex form of the `rgb()` colour it contains; `count` is the
      number of values set.
    */
    method RecolorElement(svgDoc: DomDocument, element: Node, names: seq<string>) returns (count: nat)
      requires element.Element?
      modifies svgDoc
      ensures count == RecolorHits(element.attrs, names, |names|)
      ensures svgDoc.tree ==
        if count > 0 then EditAttrsDoc(old(svgDoc.tree), map[element.id := RecolorUpTo(element.attrs, names, |names|)])
        else old(svgDoc.tree)
    {
      ghost var d0 := svgDoc.tree;
      // the element's live attribute list
      var current := element.attrs;
      count := 0;
      var j := 0;
      while j < |names|
        invariant j <= |names|
        invariant current == RecolorUpTo(element.attrs, names, j)
        invariant count == RecolorHits(element.attrs, names, j)
        invariant svgDoc.tree == if count > 0 then EditAttrsDoc(d0, map[element.id := current]) else d0
      {
        LiveAttrsStep(d0, element.id, current, RecolorOne(current, names[j]), count > 0);
        var next, hit := RecolorAttribute(svgDoc, element.id, current, names[j]);
        if hit {
          count := count + 1;
        }
        current := next;
        j := j + 1;
      }
    }

    /**
      The colour pass's step for one attribute name: a value holding an `rgb()` colour is set to
      that colour's hex form on the element's live attribute list `current`.
    */
    method RecolorAttribute(svgDoc: DomDocument, id: nat, current: seq<Attr>, name: string) returns (next: seq<Attr>, hit: bool)
      modifies svgDoc
      ensures hit <==> Recolors(current, name)
      ensures next == RecolorOne(current, name)
      ensures svgDoc.tree == if hit then EditAttrsDoc(old(svgDoc.tree), map[id := next]) else old(svgDoc.tree)
    {
      next, hit := current, false;
      var value := GetAttr(current, name);
      if value.Some? && value.value != [] {
        var rgbMatch := FindRgb(value.value);
        if rgbMatch.Some? {
          var hex := HexColor(rgbMatch.value);
          next := SetAttr(current, name, hex);
          svgDoc.SetAttributes(id, next);
          hit := true;
        }
      }
    }

    /**
      Trims every text node under the document element and detaches the ones left empty;
      `false`, with nothing changed, when there is no document element to walk.
    */
    method NormalizeWhitespace(svgDoc: DomDocument) returns (walked: bool)
      requires Valid(svgDoc.tree)
      modifies svgDoc
      ensures walked <==> AfterWhitespace(old(svgDoc.tree)).Some?
      ensures walked ==> svgDoc.tree == AfterWhitespace(old(svgDoc.tree)).value && Valid(svgDoc.tree)
      ensures !walked ==> svgDoc.tree == old(svgDoc.tree)
    {
      ghost var d0 := svgDoc.tree;
      NothingDoc(d0);
      var root := DocumentElement(svgDoc.tree);
      if root.None? {
        return false;
      }
      var textNodes := WalkerTexts(root.value);
      WalkerTextsFromTree(d0, root.value);
      var i := 0;
      while i < |textNodes|
        invariant i <= |textNodes|
        invariant svgDoc.tree ==
          PruneDoc(EditTextsDoc(d0, TrimEdits(textNodes, i)), IdsWhere(textNodes, i, IsBlankText))
      {
        var textNode := textNodes[i];
        assert textNode in textNodes;
        WhitespaceStep(d0, textNodes, i);
        NormalizeText(svgDoc, textNode);
        i := i + 1;
      }
      EditTextsDocValid(d0, TrimEdits(textNodes, i));
      PruneDocValid(EditTextsDoc(d0, TrimEdits(textNodes, i)), IdsWhere(textNodes, i, IsBlankText));
      return true;
    }

    /**
      The whitespace pass's step for one text node: data is trimmed, and a node whose trimmed data
      is empty is detached; a node without data is left alone.
    */
    method NormalizeText(svgDoc: DomDocument, textNode: Node)
      requires textNode.TextNode?
      modifies svgDoc
      ensures svgDoc.tree ==
        if !HasData(textNode) then old(svgDoc.tree)
        else if IsBlankText(textNode)
        then PruneDoc(EditTextsDoc(old(svgDoc.tree), map[textNode.id := TrimmedData(textNode)]), {textNode.id})
        else EditTextsDoc(old(svgDoc.tree), map[textNode.id := TrimmedData(textNode)])
    {
      if textNode.value != [] {
        var trimmed := Trim(textNode.value);
        svgDoc.SetNodeValue(textNode.id, trimmed);
        if trimmed == [] {
          svgDoc.RemoveNode(textNode.id);
        }
      }
    }

    /** Detaches every `style` element whose text content is blank. */
    method RemoveUnusedStyles(svgDoc: DomDocument) returns (removed: nat)
      requires Valid(svgDoc.tree)
      modifies svgDoc
      ensures svgDoc.tree == AfterStyles(old(svgDoc.tree)) && Valid(svgDoc.tree)
      ensures removed == StylesRemoved(old(svgDoc.tree))
    {
      ghost var d0 := svgDoc.tree;
      NothingDoc(d0);
      var styleElements := QuerySelectorAll(svgDoc.tree, Type("style"));
      removed := 0;
      var i := 0;
      while i < |styleElements|
        invariant i <= |styleElements|
        invariant svgDoc.tree == PruneDoc(d0, IdsWhere(styleElements, i, IsBlankStyle))
        invariant removed == CountWhere(styleElements, i, IsBlankStyle)
      {
        PruneWhereStep(d0, styleElements, i, IsBlankStyle);
        var count := RemoveIfBlank(svgDoc, styleElements[i]);
        removed := removed + count;
        i := i + 1;
      }
      PruneDocValid(d0, IdsWhere(styleElements, i, IsBlankStyle));
    }

    /** The style pass's step for one `style` element: detached when its text content is blank. */
    method RemoveIfBlank(svgDoc: DomDocument, styleElement: Node) returns (count: nat)
      modifies svgDoc
      ensures count == if IsBlankStyle(styleElement) then 1 else 0
      ensures svgDoc.tree == if IsBlankStyle(styleElement) then PruneDoc(old(svgDoc.tree), {styleElement.id}) else old(svgDoc.tree)
    {
      count := 0;
      if Trim(TextContent(styleElement)) == [] {
        svgDoc.RemoveNode(styleElement.id);
        count := 1;
      }
    }

    /**
      Files every `path` under its `fill-stroke-stroke-width` key; in each group of two or more
      the first path takes the joined `d` and the others are detached.
    */
    method MergePaths(svgDoc: DomDocument) returns (merged: nat)
      requires Valid(svgDoc.tree)
      modifies svgDoc
      ensures svgDoc.tree == AfterMerge(old(svgDoc.tree)) && Valid(svgDoc.tree)
      ensures merged == PathsMerged(old(svgDoc.tree))
    {
      ghost var d0 := svgDoc.tree;
      NothingDoc(d0);
      var paths := QuerySelectorAll(svgDoc.tree, Type("path"));
      var pathGroups, order := GroupPaths(paths, MergeKey);
      ghost var gs := GroupsOf(paths, MergeKey, order);
      merged := MergeAll(svgDoc, pathGroups, order, gs);
      assert gs == PathGroups(d0);
      MergeStepsDone(d0);
    }

    /** The merge loop: the groups `gs`, filed in `pathGroups` under `order`, merged one by one. */
    method MergeAll(svgDoc: DomDocument, pathGroups: map<string, seq<Node>>, order: seq<string>, ghost gs: seq<seq<Node>>)
      returns (merged: nat)
      requires |gs| == |order|
      requires forall j :: 0 <= j < |order| ==> order[j] in pathGroups && pathGroups[order[j]] == gs[j]
      modifies svgDoc
      ensures svgDoc.tree == MergeSteps(old(svgDoc.tree), gs, |gs|) && merged == MergedUpTo(gs, |gs|)
    {
      merged := 0;
      var j := 0;
      while j < |order|
        invariant j <= |order|
        invariant svgDoc.tree == MergeSteps(old(svgDoc.tree), gs, j)
        invariant merged == MergedUpTo(gs, j)
      {
        var group := pathGroups[order[j]];
        assert group == gs[j];
        var count := MergeGroup(svgDoc, group);
        merged := merged + count;
        j := j + 1;
      }
    }

    /**
      The merge pass's step for one group: with two or more members, the first takes the joined
      `d` and the others are detached; `count` is the number detached.
    */
    method MergeGroup(svgDoc: DomDocument, group: seq<Node>) returns (count: nat)
      modifies svgDoc
      ensures count == if |group| > 1 then |group| - 1 else 0
      ensures svgDoc.tree ==
        if |group| > 1 then PruneDoc(EditAttrsDoc(old(svgDoc.tree), HeadEdit(group)), TailIds(group))
        else old(svgDoc.tree)
    {
      count := 0;
      if |group| > 1 {
        var firstPath := group[0];
        var mergedD := JoinedD(group);
        svgDoc.SetAttributes(firstPath.id, SetAttr(AttrsOf(firstPath), "d", mergedD));
        NothingDoc(svgDoc.tree);
        ghost var detached: set<nat> := {};
        var i := 1;
        while i < |group|
          invariant 1 <= i <= |group|
          invariant detached == set q | 1 <= q < i :: group[q].id
          invariant svgDoc.tree == PruneDoc(EditAttrsDoc(old(svgDoc.tree), HeadEdit(group)), detached)
          invariant count == i - 1
        {
          svgDoc.RemoveNode(group[i].id);
          PruneDocTwice(EditAttrsDoc(old(svgDoc.tree), HeadEdit(group)), detached, {group[i].id});
          detached := detached + {group[i].id};
          count := count + 1;
          i := i + 1;
        }
        assert detached == TailIds(group);
      }
    }
  }

  /**
    Files the snapshot of paths under their merge keys: the groups, and the keys in the order the
    groups were created (the order `Object.values` lists them in).
  */
  method GroupPaths<K(==)>(paths: seq<Node>, keyOf: Node -> K) returns (pathGroups: map<K, seq<Node>>, order: seq<K>)
    ensures order == GroupKeys(paths, |paths|, keyOf)
    ensures forall k :: k in pathGroups <==> k in order
    ensures forall k :: k in pathGroups ==> pathGroups[k] == Group(paths, |paths|, keyOf, k)
  {
    // every key ends in the text of a `stroke-width` after two `-`, so none is an array index
    // and `Object.values` follows creation order
    pathGroups := map[];
    order := [];
    var i := 0;
    while i < |paths|
      invariant i <= |paths|
      invariant order == GroupKeys(paths, i, keyOf)
      invariant pathGroups == FiledGroups(paths, i, keyOf)
    {
      var path := paths[i];
      var key := keyOf(path);
      FiledGroupsAre(paths, i, keyOf);
      if key !in pathGroups {
        pathGroups := pathGroups[key := []];
        order := order + [key];
      }
      pathGroups := pathGroups[key := pathGroups[key] + [path]];
      i := i + 1;
    }
    FiledGroupsAre(paths, i, keyOf);
  }
}
