/**
 * The page pipeline of `main()`: pick the `.jpg` files out of a folder
 * listing, classify each page with the vision model, and, depending on the
 * label, extract cover-page metadata and/or table-of-contents headings into
 * per-page text files.
 *
 * The vision endpoint is an oracle: a total function from (image path,
 * prompt) to either the model's reply text or a failure. A failure stands for
 * every error `call_vision_llm` raises (transport error, non-success status,
 * a body without `choices[0].message.content`); nothing catches it, so it
 * ends the run and the files written so far stay as they are.
 *
 * The two output folders are one map from path to file contents. The run is
 * specified by the sequence of effects it has: inference calls and file
 * writes, in order, and whether it was cut short.
 */
module Prechunking {
  import opened Text
  import opened PathNames

  /** Where pages are read and where the two kinds of result are written. */
  datatype Config = Config(imageDir: string, captionDir: string, tocDir: string)

  /** The three fixed prompts; their wording does not affect control flow. */
  datatype Prompt = Classify | Metadata | TableOfContents

  /** What one call to the vision endpoint gives back. */
  datatype Reply = Answer(content: string) | Failed

  type Oracle = (string, Prompt) -> Reply

  /** One observable step: a call to the endpoint or a file (over)write. */
  datatype Effect =
    | Infer(image: string, prompt: Prompt)
    | Write(path: string, text: string)

  /** The effects of a run (or part of one) and whether an error cut it short. */
  datatype Trace = Trace(effects: seq<Effect>, aborted: bool)

  /** Which extractions a label asks for; both, one or neither may be set. */
  datatype Route = Route(caption: bool, toc: bool)

  const ImageSuffix := ".jpg"
  const CoverLabel := "pleading cover page"
  const TocLabel := "table of contents"
  const CaptionPrefix := "caption_"
  const TocPrefix := "toc_"
  const TextSuffix := ".txt"

  // ---------------------------------------------------------------------
  // Selecting the pages
  // ---------------------------------------------------------------------

  /** A listed name is a page image when its lower-case form ends in ".jpg". */
  predicate IsImage(name: string) {
    EndsWith(Lower(name), ImageSuffix)
  }

  /** The comprehension that keeps the page images of a listing, in order. */
  function ImageFiles(listing: seq<string>): (images: seq<string>)
    ensures forall f :: f in images <==> f in listing && IsImage(f)
    ensures |images| <= |listing|
  {
    if listing == [] then []
    else (if IsImage(listing[0]) then [listing[0]] else []) + ImageFiles(listing[1..])
  }

  // ---------------------------------------------------------------------
  // Routing a label
  // ---------------------------------------------------------------------

  /** The two independent substring tests on the lower-cased label. */
  function RouteOf(category: string): Route {
    var l := Lower(category);
    Route(Contains(l, CoverLabel), Contains(l, TocLabel))
  }

  // ---------------------------------------------------------------------
  // Naming the output files
  // ---------------------------------------------------------------------

  function CaptionName(fname: string): string {
    CaptionPrefix + Stem(fname) + TextSuffix
  }

  function TocName(fname: string): string {
    TocPrefix + Stem(fname) + TextSuffix
  }

  function CaptionPath(cfg: Config, fname: string): string {
    Join(cfg.captionDir, CaptionName(fname))
  }

  function TocPath(cfg: Config, fname: string): string {
    Join(cfg.tocDir, TocName(fname))
  }

  function ImagePath(cfg: Config, fname: string): string {
    Join(cfg.imageDir, fname)
  }

  // ---------------------------------------------------------------------
  // The effects of a run
  // ---------------------------------------------------------------------

  const Done := Trace([], false)

  /** Run `first`, then `next` unless `first` was cut short. */
  function Then(first: Trace, next: Trace): Trace {
    if first.aborted then first else Trace(first.effects + next.effects, next.aborted)
  }

  /** One extraction: call the endpoint, then write its reply verbatim to `out`. */
  function Extraction(oracle: Oracle, image: string, prompt: Prompt, out: string): Trace {
    match oracle(image, prompt)
    case Failed => Trace([Infer(image, prompt)], true)
    case Answer(text) => Trace([Infer(image, prompt), Write(out, text)], false)
  }

  /**
   * The two extraction branches of a page whose label chose `route`: metadata
   * first, then table of contents, each tested on its own; a failed metadata
   * call ends the page before the second test.
   */
  function Extractions(cfg: Config, oracle: Oracle, fname: string, route: Route): Trace {
    var image := ImagePath(cfg, fname);
    var cover := if route.caption then Extraction(oracle, image, Metadata, CaptionPath(cfg, fname)) else Done;
    var toc := if route.toc then Extraction(oracle, image, TableOfContents, TocPath(cfg, fname)) else Done;
    Then(cover, toc)
  }

  /** One iteration of the loop: classify the page, then route it by its label. */
  function PageTrace(cfg: Config, oracle: Oracle, fname: string): Trace {
    var image := ImagePath(cfg, fname);
    match oracle(image, Classify)
    case Failed => Trace([Infer(image, Classify)], true)
    case Answer(category) => Then(Trace([Infer(image, Classify)], false), Extractions(cfg, oracle, fname, RouteOf(category)))
  }

  /** The loop over `images` with `page` as its body, stopping at the first iteration cut short. */
  function RunPages(page: string -> Trace, images: seq<string>): Trace
    decreases |images|
  {
    if images == [] then Done
    else Then(RunPages(page, images[..|images| - 1]), page(images[|images| - 1]))
  }

  /** The loop body of `main()` as a function of the page name. */
  function PageOf(cfg: Config, oracle: Oracle): string -> Trace {
    fname => PageTrace(cfg, oracle, fname)
  }

  /** The loop of `main()` over the page images. */
  function RunTrace(cfg: Config, oracle: Oracle, images: seq<string>): Trace {
    RunPages(PageOf(cfg, oracle), images)
  }

  // ---------------------------------------------------------------------
  // The output folders as a map from path to contents
  // ---------------------------------------------------------------------

  /** The paths a sequence of effects writes to. */
  function Written(effects: seq<Effect>): set<string>
    decreases |effects|
  {
    if effects == [] then {}
    else
      var last := effects[|effects| - 1];
      Written(effects[..|effects| - 1]) + (if last.Write? then {last.path} else {})
  }

  /** One effect on the folders: a write replaces the file's contents. */
  function Step(files: map<string, string>, e: Effect): map<string, string> {
    match e
    case Infer(_, _) => files
    case Write(path, text) => files[path := text]
  }

  /** The folders after a sequence of effects. */
  function Apply(files: map<string, string>, effects: seq<Effect>): map<string, string>
    decreases |effects|
  {
    if effects == [] then files
    else Step(Apply(files, effects[..|effects| - 1]), effects[|effects| - 1])
  }

  /** A path is written exactly when some effect is a write to it. */
  lemma {:induction false} WrittenIff(effects: seq<Effect>, p: string)
    ensures p in Written(effects) <==> exists k :: 0 <= k < |effects| && effects[k].Write? && effects[k].path == p
    decreases |effects|
  {
    if effects != [] {
      var init := effects[..|effects| - 1];
      WrittenIff(init, p);
      if exists k :: 0 <= k < |init| && init[k].Write? && init[k].path == p {
        var k :| 0 <= k < |init| && init[k].Write? && init[k].path == p;
        assert effects[k] == init[k];
      }
      if exists k :: 0 <= k < |effects| && effects[k].Write? && effects[k].path == p {
        var k :| 0 <= k < |effects| && effects[k].Write? && effects[k].path == p;
        if k < |init| {
          assert init[k] == effects[k];
        }
      }
    }
  }

  /** The folders afterwards hold the files that were there and the files written, and no others. */
  lemma {:induction false} ApplyKeys(files: map<string, string>, effects: seq<Effect>)
    ensures Apply(files, effects).Keys == files.Keys + Written(effects)
    decreases |effects|
  {
    if effects != [] {
      ApplyKeys(files, effects[..|effects| - 1]);
    }
  }

  // ---------------------------------------------------------------------
  // main()
  // ---------------------------------------------------------------------

  /**
   * One extraction branch of the loop body: call the endpoint with `prompt`
   * and, when it answers, overwrite `outname` with the reply.
   */
  method Extract(oracle: Oracle, image: string, prompt: Prompt, outname: string,
                 files: map<string, string>, log: seq<Effect>)
    returns (files': map<string, string>, log': seq<Effect>, aborted: bool)
    ensures log' == log + Extraction(oracle, image, prompt, outname).effects
    ensures aborted == Extraction(oracle, image, prompt, outname).aborted
    ensures files' == Apply(files, Extraction(oracle, image, prompt, outname).effects)
  {
    log' := log + [Infer(image, prompt)];
    var reply := oracle(image, prompt);
    if reply.Failed? {
      files', aborted := files, true;
      ApplySnoc(files, [], Infer(image, prompt));
    } else {
      files' := files[outname := reply.content];
      log' := log' + [Write(outname, reply.content)];
      aborted := false;
      ApplySnoc(files, [], Infer(image, prompt));
      ApplySnoc(files, [Infer(image, prompt)], Write(outname, reply.content));
    }
  }

  /**
   * The body of the loop of `main()` for one listed page: one classification
   * call, then the cover-page and table-of-contents branches, which are tested
   * independently of each other. `log` is the history so far; a failed call
   * ends the iteration.
   */
  method ProcessPage(cfg: Config, oracle: Oracle, fname: string, files: map<string, string>, log: seq<Effect>)
    returns (files': map<string, string>, log': seq<Effect>, aborted: bool)
    ensures log' == log + PageTrace(cfg, oracle, fname).effects
    ensures aborted == PageTrace(cfg, oracle, fname).aborted
    ensures files' == Apply(files, PageTrace(cfg, oracle, fname).effects)
  {
    var image := ImagePath(cfg, fname);
    var reply := oracle(image, Classify);
    files', log', aborted := files, log + [Infer(image, Classify)], reply.Failed?;
    ApplySnoc(files, [], Infer(image, Classify));
    if !aborted {
      var category := Lower(reply.content);
      ghost var route := RouteOf(reply.content);
      ghost var cover := if route.caption then Extraction(oracle, image, Metadata, CaptionPath(cfg, fname)) else Done;
      ghost var toc := if route.toc then Extraction(oracle, image, TableOfContents, TocPath(cfg, fname)) else Done;
      ghost var files0, log0 := files', log';
      if Contains(category, CoverLabel) {
        files', log', aborted := Extract(oracle, image, Metadata, CaptionPath(cfg, fname), files', log');
      }
      assert log' == log0 + cover.effects && files' == Apply(files0, cover.effects) && aborted == cover.aborted;
      if !aborted && Contains(category, TocLabel) {
        files', log', aborted := Extract(oracle, image, TableOfContents, TocPath(cfg, fname), files', log');
      }
      ThenEffects(files0, log0, cover, toc);
      assert Then(cover, toc) == Extractions(cfg, oracle, fname, route);
      ThenEffects(files, log, Trace([Infer(image, Classify)], false), Then(cover, toc));
    }
  }

  /** The history and the folders after running `first`, then `next` unless it was cut short. */
  lemma ThenEffects(files: map<string, string>, log: seq<Effect>, first: Trace, next: Trace)
    ensures log + Then(first, next).effects
            == if first.aborted then log + first.effects else log + first.effects + next.effects
    ensures Apply(files, Then(first, next).effects)
            == if first.aborted then Apply(files, first.effects) else Apply(Apply(files, first.effects), next.effects)
  {
    if !first.aborted {
      ApplyAppend(files, first.effects, next.effects);
    }
  }

  /**
   * The loop of `main()` over a folder listing. Returns the output folders
   * afterwards, the effects in the order they happened, and whether a failed
   * call ended the run early.
   */
  method RunPipeline(cfg: Config, oracle: Oracle, listing: seq<string>, before: map<string, string>)
    returns (files: map<string, string>, log: seq<Effect>, aborted: bool)
    ensures Trace(log, aborted) == RunTrace(cfg, oracle, ImageFiles(listing))
    ensures files == Apply(before, log)
  {
    var images := ImageFiles(listing);
    files, log, aborted := before, [], false;
    var i := 0;
    while i < |images| && !aborted
      invariant 0 <= i <= |images|
      invariant Trace(log, aborted) == RunTrace(cfg, oracle, images[..i])
      invariant files == Apply(before, log)
    {
      ghost var done, doneFiles := log, files;
      files, log, aborted := ProcessPage(cfg, oracle, images[i], files, log);
      RunStep(PageOf(cfg, oracle), images, i, before, done, doneFiles, files, log, aborted);
      i := i + 1;
    }
    if aborted {
      RunStopsAfterAbort(PageOf(cfg, oracle), images, i);
    } else {
      assert images[..i] == images;
    }
  }

  /** One more page of the loop extends the run by that page and keeps the folders in step with the log. */
  lemma RunStep(page: string -> Trace, images: seq<string>, i: nat, before: map<string, string>,
                done: seq<Effect>, doneFiles: map<string, string>,
                files: map<string, string>, log: seq<Effect>, aborted: bool)
    requires i < |images|
    requires Trace(done, false) == RunPages(page, images[..i]) && doneFiles == Apply(before, done)
    requires log == done + page(images[i]).effects
    requires aborted == page(images[i]).aborted
    requires files == Apply(doneFiles, page(images[i]).effects)
    ensures Trace(log, aborted) == RunPages(page, images[..i + 1])
    ensures files == Apply(before, log)
  {
    var upTo, t := images[..i + 1], page(images[i]);
    assert RunPages(page, upTo) == Then(RunPages(page, images[..i]), t) by {
      assert upTo[..|upTo| - 1] == images[..i];
      assert upTo[|upTo| - 1] == images[i];
    }
    assert files == Apply(before, log) by {
      ApplyAppend(before, done, t.effects);
    }
  }

  /** Applying one more effect is one more step. */
  lemma ApplySnoc(files: map<string, string>, effects: seq<Effect>, e: Effect)
    ensures Apply(files, effects + [e]) == Step(Apply(files, effects), e)
  {
    assert (effects + [e])[..|effects|] == effects;
  }

  /** Applying two histories one after the other is applying their concatenation. */
  lemma {:induction false} ApplyAppend(files: map<string, string>, first: seq<Effect>, next: seq<Effect>)
    ensures Apply(files, first + next) == Apply(Apply(files, first), next)
    decreases |next|
  {
    if next != [] {
      var all := first + next;
      assert all[..|all| - 1] == first + next[..|next| - 1];
      assert all[|all| - 1] == next[|next| - 1];
      ApplyAppend(files, first, next[..|next| - 1]);
      calc {
        Apply(files, all);
        Step(Apply(files, first + next[..|next| - 1]), next[|next| - 1]);
        Step(Apply(Apply(files, first), next[..|next| - 1]), next[|next| - 1]);
        Apply(Apply(files, first), next);
      }
    } else {
      assert first + next == first;
    }
  }

  /** Once a prefix of the run is cut short, the rest of the listing adds nothing. */
  lemma {:induction false} RunStopsAfterAbort(page: string -> Trace, images: seq<string>, i: nat)
    requires i <= |images|
    requires RunPages(page, images[..i]).aborted
    ensures RunPages(page, images) == RunPages(page, images[..i])
    decreases |images| - i
  {
    if i < |images| {
      assert images[..|images| - 1][..i] == images[..i];
      RunStopsAfterAbort(page, images[..|images| - 1], i);
    } else {
      assert images[..i] == images;
    }
  }
}
