/**
 * What the page pipeline promises: which names are processed and in what
 * order, which labels lead to which files, how those files are named, what
 * they contain, and what a failed call or a second run does to the folders.
 */
module PrechunkingProperties {
  import opened Text
  import opened PathNames
  import opened Prechunking

  // ---------------------------------------------------------------------
  // Vocabulary for the statements below
  // ---------------------------------------------------------------------

  /** The page's label sends it to metadata extraction. */
  predicate RoutesToCaption(cfg: Config, oracle: Oracle, fname: string) {
    var reply := oracle(ImagePath(cfg, fname), Classify);
    reply.Answer? && RouteOf(reply.content).caption
  }

  /** The page's label sends it to table-of-contents extraction. */
  predicate RoutesToToc(cfg: Config, oracle: Oracle, fname: string) {
    var reply := oracle(ImagePath(cfg, fname), Classify);
    reply.Answer? && RouteOf(reply.content).toc
  }

  /** The call an effect makes, if it is one. */
  function CallOf(e: Effect): seq<(string, Prompt)> {
    match e
    case Infer(image, prompt) => [(image, prompt)]
    case Write(_, _) => []
  }

  /** The image an effect classifies, if it is a classification call. */
  function ClassifiedBy(e: Effect): seq<string> {
    match e
    case Infer(image, prompt) => if prompt == Classify then [image] else []
    case Write(_, _) => []
  }

  /** The calls to the endpoint among the effects, in order. */
  function Calls(effects: seq<Effect>): seq<(string, Prompt)> {
    if effects == [] then [] else CallOf(effects[0]) + Calls(effects[1..])
  }

  /** The images that were classified, in the order of the classification calls. */
  function Classified(effects: seq<Effect>): seq<string> {
    if effects == [] then [] else ClassifiedBy(effects[0]) + Classified(effects[1..])
  }

  // ---------------------------------------------------------------------
  // The image filter (the comprehension over the folder listing)
  // ---------------------------------------------------------------------

  /** A name is a page image iff its last four characters are ".jpg" in some letter case. */
  lemma IsImageIff(name: string)
    ensures IsImage(name) <==> |name| >= 4 && SameIgnoringCase(name[|name| - 4..], ImageSuffix)
  {
    if |name| >= 4 {
      LowerSlice(name, |name| - 4, |name|);
      SameIgnoringCaseIff(name[|name| - 4..], ImageSuffix);
      assert Lower(ImageSuffix) == ImageSuffix;
    }
  }

  /** The filter keeps listing order: filtering a concatenation concatenates the results. */
  lemma {:induction false} ImageFilesAppend(a: seq<string>, b: seq<string>)
    ensures ImageFiles(a + b) == ImageFiles(a) + ImageFiles(b)
    decreases |a|
  {
    if a == [] {
      assert a + b == b;
    } else {
      assert (a + b)[1..] == a[1..] + b;
      ImageFilesAppend(a[1..], b);
    }
  }

  /**
   * Each listed image is kept as often as it is listed (once, for a
   * directory listing) and every other name is dropped.
   */
  lemma {:induction false} ImageFilesCount(listing: seq<string>, name: string)
    ensures multiset(ImageFiles(listing))[name] == if IsImage(name) then multiset(listing)[name] else 0
    decreases |listing|
  {
    if listing != [] {
      ImageFilesCount(listing[1..], name);
      assert listing == [listing[0]] + listing[1..];
    }
  }

  // ---------------------------------------------------------------------
  // Output names
  // ---------------------------------------------------------------------

  /**
   * For a page image the stem is the name without its last four characters,
   * except when only dots precede the ".jpg": then the whole name is the stem.
   */
  lemma StemOfImage(name: string)
    requires IsBaseName(name) && IsImage(name)
    ensures Stem(name) == if AllDots(name[..|name| - 4]) then name else name[..|name| - 4]
  {
    IsImageIff(name);
    var n := |name|;
    assert CharEqualIgnoringCase(name[n - 4..][0], ImageSuffix[0]);
    assert name[n - 4] == ExtSep;
    forall j | n - 4 < j < n
      ensures name[j] != ExtSep
    {
      assert CharEqualIgnoringCase(name[n - 4..][j - (n - 4)], ImageSuffix[j - (n - 4)]);
    }
    assert RFind(name, ExtSep) == n - 4;
    assert LastSepIndex(name) == -1;
    assert name[0..n - 4] == name[..n - 4];
  }

  /** Example: the stem of "page1.jpg" is "page1". */
  lemma Page1Stem(name: string)
    requires name == "page1.jpg"
    ensures Stem(name) == "page1"
  {
    Page1IsImage(name);
    assert name[..5] == "page1";
    assert !AllDots("page1") by {
      assert "page1"[0] == 'p';
    }
    StemOfImage(name);
  }

  /** Example: "page1.jpg" is a page image. */
  lemma Page1IsImage(name: string)
    requires name == "page1.jpg"
    ensures IsImage(name)
  {
    IsImageIff(name);
    assert name[5..] == ImageSuffix;
  }

  /** Example: "page1.jpg" leads to "caption_page1.txt" and "toc_page1.txt". */
  lemma Page1Names(name: string)
    requires name == "page1.jpg"
    ensures CaptionName(name) == "caption_page1.txt"
    ensures TocName(name) == "toc_page1.txt"
  {
    Page1Stem(name);
    Page1Literals();
  }

  lemma Page1Literals()
    ensures CaptionPrefix + "page1" + TextSuffix == "caption_page1.txt"
    ensures TocPrefix + "page1" + TextSuffix == "toc_page1.txt"
  {
  }

  /** Only dots before ".jpg": there is no extension to drop. */
  lemma DotOnlyName(name: string)
    requires name == ".jpg"
    ensures Stem(name) == name
  {
    assert IsImage(name) by {
      IsImageIff(name);
    }
    StemOfImage(name);
  }

  /** Only dots before ".JPG": there is no extension to drop. */
  lemma DotsOnlyName(name: string)
    requires name == "..JPG"
    ensures Stem(name) == name
  {
    assert IsImage(name) by {
      IsImageIff(name);
      assert name[1..] == ".JPG";
      assert SameIgnoringCase(".JPG", ImageSuffix);
    }
    assert AllDots(name[..1]) by {
      assert name[..1] == ".";
    }
    StemOfImage(name);
  }

  /**
   * "a.jpg" and "a.JPG" are both page images and have the one stem "a", so
   * they share their caption file and their table-of-contents file.
   */
  lemma CaseVariantsShareOutputs(cfg: Config, f: string, g: string)
    requires f == "a.jpg" && g == "a.JPG"
    ensures IsImage(f) && IsImage(g)
    ensures Stem(f) == Stem(g) == "a"
    ensures CaptionPath(cfg, f) == CaptionPath(cfg, g) && TocPath(cfg, f) == TocPath(cfg, g)
  {
    LowerJpgStem(f);
    UpperJpgStem(g);
    CaptionPathSharedIff(cfg, f, g);
    TocPathSharedIff(cfg, f, g);
  }

  lemma LowerJpgStem(name: string)
    requires name == "a.jpg"
    ensures IsImage(name) && Stem(name) == "a"
  {
    assert IsImage(name) by {
      IsImageIff(name);
      assert name[1..] == ImageSuffix;
    }
    assert name[..1] == "a";
    StemOfImage(name);
  }

  lemma UpperJpgStem(name: string)
    requires name == "a.JPG"
    ensures IsImage(name) && Stem(name) == "a"
  {
    assert IsImage(name) by {
      IsImageIff(name);
      assert name[1..] == ".JPG";
      assert SameIgnoringCase(".JPG", ImageSuffix);
    }
    assert name[..1] == "a";
    StemOfImage(name);
  }

  /** Two pages share a caption file exactly when their names share a stem. */
  lemma CaptionPathSharedIff(cfg: Config, f: string, g: string)
    ensures CaptionPath(cfg, f) == CaptionPath(cfg, g) <==> Stem(f) == Stem(g)
  {
    JoinInjective(cfg.captionDir, CaptionName(f), CaptionName(g));
    if CaptionName(f) == CaptionName(g) {
      var n := |CaptionPrefix|;
      assert Stem(f) == CaptionName(f)[n..|CaptionName(f)| - |TextSuffix|];
    }
  }

  /** Two pages share a table-of-contents file exactly when their names share a stem. */
  lemma TocPathSharedIff(cfg: Config, f: string, g: string)
    ensures TocPath(cfg, f) == TocPath(cfg, g) <==> Stem(f) == Stem(g)
  {
    JoinInjective(cfg.tocDir, TocName(f), TocName(g));
    if TocName(f) == TocName(g) {
      var n := |TocPrefix|;
      assert Stem(f) == TocName(f)[n..|TocName(f)| - |TextSuffix|];
    }
  }

  /**
   * A caption file is never a table-of-contents file, whatever the two
   * output folders are: the last path components start "caption_" and "toc_".
   */
  lemma CaptionNeverToc(cfg: Config, f: string, g: string)
    requires IsBaseName(f) && IsBaseName(g)
    ensures CaptionPath(cfg, f) != TocPath(cfg, g)
  {
    OutputNamesAreBaseNames(f);
    OutputNamesAreBaseNames(g);
    assert CaptionName(f)[0] != TocName(g)[0];
    if CaptionPath(cfg, f) == TocPath(cfg, g) {
      JoinBaseNames(cfg.captionDir, CaptionName(f), cfg.tocDir, TocName(g));
    }
  }

  /** The output names of a listed page are single components, like the page's own name. */
  lemma OutputNamesAreBaseNames(fname: string)
    requires IsBaseName(fname)
    ensures IsBaseName(CaptionName(fname)) && IsBaseName(TocName(fname))
  {
    StemOfBaseName(fname);
    AffixesAreBaseNames();
    AffixedBaseName(CaptionPrefix, Stem(fname), TextSuffix);
    AffixedBaseName(TocPrefix, Stem(fname), TextSuffix);
  }

  /** The fixed parts of the output names hold no separator. */
  lemma AffixesAreBaseNames()
    ensures IsBaseName(CaptionPrefix) && IsBaseName(TocPrefix) && IsBaseName(TextSuffix)
  {
  }

  // ---------------------------------------------------------------------
  // Routing
  // ---------------------------------------------------------------------

  /** Routing ignores letter case: labels differing only in case route alike. */
  lemma RouteIgnoresCase(a: string, b: string)
    requires SameIgnoringCase(a, b)
    ensures RouteOf(a) == RouteOf(b)
  {
    SameIgnoringCaseIff(a, b);
  }

  /**
   * The two tests are independent: a label made of two parts triggers every
   * extraction that either part triggers, so one label can trigger both.
   */
  lemma RouteOfConcat(a: string, b: string)
    ensures RouteOf(a).caption || RouteOf(b).caption ==> RouteOf(a + b).caption
    ensures RouteOf(a).toc || RouteOf(b).toc ==> RouteOf(a + b).toc
  {
    LowerAppend(a, b);
    ContainsAppend(Lower(a), Lower(b), CoverLabel);
    ContainsAppend(Lower(a), Lower(b), TocLabel);
  }

  /** The label "Pleading cover page" routes to metadata extraction only. */
  lemma CoverLabelRoute(category: string)
    requires category == "Pleading cover page"
    ensures RouteOf(category) == Route(true, false)
  {
    CoverLabelLower(category);
    CoverLabelTests(Lower(category));
  }

  lemma CoverLabelLower(category: string)
    requires category == "Pleading cover page"
    ensures Lower(category) == CoverLabel
  {
    var rest := CoverLabel[1..];
    CoverLabelCapitalized(category);
    CoverLabelTailLower();
    assert Lower(['P']) == ['p'] by {
      assert ['P'][1..] == [];
    }
    LowerAppend(['P'], rest);
    assert ['p'] + rest == CoverLabel;
  }

  lemma CoverLabelCapitalized(category: string)
    requires category == "Pleading cover page"
    ensures category == ['P'] + CoverLabel[1..]
  {
  }

  lemma CoverLabelTailLower()
    ensures Lower(CoverLabel[1..]) == CoverLabel[1..]
  {
    var rest := CoverLabel[1..];
    assert forall i :: 0 <= i < |rest| ==> !IsUpper(rest[i]);
    LowerOfLower(rest);
  }

  lemma CoverLabelTests(l: string)
    requires l == CoverLabel
    ensures Contains(l, CoverLabel) && !Contains(l, TocLabel)
  {
    ContainsSlice(l, 0, |l|);
    assert l[0..|l|] == CoverLabel;
    CoverLabelLacksToc(l);
  }

  lemma CoverLabelLacksToc(l: string)
    requires l == CoverLabel
    ensures !Contains(l, TocLabel)
  {
    assert TocLabel[0] == 't';
    assert forall i :: 0 <= i < |l| ==> l[i] != TocLabel[0];
    ContainsNeedsFirstChar(l, TocLabel);
  }

  /** A label matching neither test, such as "Form", routes nowhere. */
  lemma ShortLabelRoute(category: string)
    requires |category| < |TocLabel|
    ensures RouteOf(category) == Route(false, false)
  {
    ContainsNeedsRoom(Lower(category), CoverLabel);
    ContainsNeedsRoom(Lower(category), TocLabel);
  }

  // ---------------------------------------------------------------------
  // The output folders
  // ---------------------------------------------------------------------

  /** A path no effect writes keeps its contents (or stays absent). */
  lemma {:induction false} ApplyUnwritten(files: map<string, string>, effects: seq<Effect>, p: string)
    requires p !in Written(effects)
    ensures p in Apply(files, effects) <==> p in files
    ensures p in files ==> Apply(files, effects)[p] == files[p]
    decreases |effects|
  {
    if effects != [] {
      ApplyUnwritten(files, effects[..|effects| - 1], p);
    }
  }

  /**
   * A file holds exactly the text of the last write to it: the write replaces
   * earlier contents instead of appending to them.
   */
  lemma {:induction false} ApplyLastWrite(files: map<string, string>, effects: seq<Effect>, k: nat)
    requires k < |effects| && effects[k].Write?
    requires forall j :: k < j < |effects| ==> !(effects[j].Write? && effects[j].path == effects[k].path)
    ensures effects[k].path in Apply(files, effects)
    ensures Apply(files, effects)[effects[k].path] == effects[k].text
    decreases |effects|
  {
    if k < |effects| - 1 {
      ApplyLastWrite(files, effects[..|effects| - 1], k);
    }
  }

  /** What ends up in a written file does not depend on what was there before. */
  lemma {:induction false} ApplyWrittenAgree(files1: map<string, string>, files2: map<string, string>, effects: seq<Effect>, p: string)
    requires p in Written(effects)
    ensures p in Apply(files1, effects) && p in Apply(files2, effects)
    ensures Apply(files1, effects)[p] == Apply(files2, effects)[p]
    decreases |effects|
  {
    ApplyKeys(files1, effects);
    ApplyKeys(files2, effects);
    var last := effects[|effects| - 1];
    if !(last.Write? && last.path == p) {
      ApplyWrittenAgree(files1, files2, effects[..|effects| - 1], p);
    }
  }

  /** A call to the endpoint leaves the folders as they are. */
  lemma ApplyAfterCall(files: map<string, string>, image: string, prompt: Prompt, rest: seq<Effect>)
    ensures Apply(files, [Infer(image, prompt)] + rest) == Apply(files, rest)
  {
    ApplyAppend(files, [Infer(image, prompt)], rest);
    assert Apply(files, [Infer(image, prompt)]) == files by {
      assert [Infer(image, prompt)][..0] == [];
    }
  }

  /** An extraction writes its reply to its output file when the call answers, and changes nothing else. */
  lemma ApplyExtraction(files: map<string, string>, oracle: Oracle, image: string, prompt: Prompt, out: string)
    ensures Apply(files, Extraction(oracle, image, prompt, out).effects)
            == match oracle(image, prompt)
               case Answer(text) => files[out := text]
               case Failed => files
  {
    var reply := oracle(image, prompt);
    if reply.Answer? {
      var w := Write(out, reply.content);
      ApplyAfterCall(files, image, prompt, [w]);
      assert [w][..0] == [];
    } else {
      ApplyAfterCall(files, image, prompt, []);
    }
  }

  /** Writing the same history twice leaves the folders as writing it once. */
  lemma ApplyIdempotent(files: map<string, string>, effects: seq<Effect>)
    ensures Apply(Apply(files, effects), effects) == Apply(files, effects)
  {
    var once := Apply(files, effects);
    var twice := Apply(once, effects);
    ApplyKeys(files, effects);
    ApplyKeys(once, effects);
    forall p | p in once
      ensures twice[p] == once[p]
    {
      if p in Written(effects) {
        ApplyWrittenAgree(once, files, effects, p);
      } else {
        ApplyUnwritten(once, effects, p);
      }
    }
  }

  /** The paths written by two histories in a row. */
  lemma {:induction false} WrittenAppend(a: seq<Effect>, b: seq<Effect>)
    ensures Written(a + b) == Written(a) + Written(b)
    decreases |b|
  {
    if b == [] {
      assert a + b == a;
    } else {
      assert (a + b)[..|a + b| - 1] == a + b[..|b| - 1];
      WrittenAppend(a, b[..|b| - 1]);
    }
  }

  /** A call to the endpoint writes nothing. */
  lemma WrittenAfterCall(image: string, prompt: Prompt, rest: seq<Effect>)
    ensures Written([Infer(image, prompt)] + rest) == Written(rest)
  {
    WrittenAppend([Infer(image, prompt)], rest);
    assert Written([Infer(image, prompt)]) == {} by {
      assert [Infer(image, prompt)][..0] == [];
    }
  }

  lemma ConcatAssociative<T>(a: seq<T>, b: seq<T>, c: seq<T>)
    ensures a + (b + c) == a + b + c
  {
  }

  /** The calls made by two histories in a row. */
  lemma {:induction false} CallsAppend(a: seq<Effect>, b: seq<Effect>)
    ensures Calls(a + b) == Calls(a) + Calls(b)
    decreases |a|
  {
    if a == [] {
      assert a + b == b;
    } else {
      assert (a + b)[1..] == a[1..] + b;
      CallsAppend(a[1..], b);
    }
  }

  /** The classifications made by two histories in a row. */
  lemma {:induction false} ClassifiedAppend(a: seq<Effect>, b: seq<Effect>)
    ensures Classified(a + b) == Classified(a) + Classified(b)
    decreases |a|
  {
    if a == [] {
      assert a + b == b;
    } else {
      assert (a + b)[1..] == a[1..] + b;
      ClassifiedAppend(a[1..], b);
    }
  }

  // ---------------------------------------------------------------------
  // One page
  // ---------------------------------------------------------------------

  /** An extraction makes exactly one call, with its own prompt. */
  lemma ExtractionCalls(oracle: Oracle, image: string, prompt: Prompt, out: string)
    ensures Calls(Extraction(oracle, image, prompt, out).effects) == [(image, prompt)]
  {
    var effects := Extraction(oracle, image, prompt, out).effects;
    assert Calls(effects[1..]) == [] by {
      if oracle(image, prompt).Answer? {
        assert effects[1..][1..] == [];
      }
    }
  }

  /** An extraction classifies nothing unless its prompt is the classification prompt. */
  lemma ExtractionClassified(oracle: Oracle, image: string, prompt: Prompt, out: string)
    ensures Classified(Extraction(oracle, image, prompt, out).effects) == if prompt == Classify then [image] else []
  {
    var effects := Extraction(oracle, image, prompt, out).effects;
    assert Classified(effects[1..]) == [] by {
      if oracle(image, prompt).Answer? {
        assert effects[1..][1..] == [];
      }
    }
  }

  /** An extraction writes its output file when the call answers, and nothing else. */
  lemma ExtractionWritten(oracle: Oracle, image: string, prompt: Prompt, out: string)
    ensures Written(Extraction(oracle, image, prompt, out).effects) == if oracle(image, prompt).Answer? then {out} else {}
  {
    var effects := Extraction(oracle, image, prompt, out).effects;
    assert Written(effects[..0]) == {};
    if oracle(image, prompt).Answer? {
      assert effects[..1] == [Infer(image, prompt)];
    }
  }

  /**
   * Extraction branches that ran to the end made one call per branch the
   * route chose, on the page's image, metadata first.
   */
  lemma ExtractionsCalls(cfg: Config, oracle: Oracle, fname: string, route: Route)
    requires !Extractions(cfg, oracle, fname, route).aborted
    ensures Calls(Extractions(cfg, oracle, fname, route).effects)
            == (if route.caption then [(ImagePath(cfg, fname), Metadata)] else [])
               + (if route.toc then [(ImagePath(cfg, fname), TableOfContents)] else [])
  {
    var image := ImagePath(cfg, fname);
    var cover := if route.caption then Extraction(oracle, image, Metadata, CaptionPath(cfg, fname)) else Done;
    var toc := if route.toc then Extraction(oracle, image, TableOfContents, TocPath(cfg, fname)) else Done;
    assert Calls(cover.effects) == (if route.caption then [(image, Metadata)] else []) by {
      ExtractionCalls(oracle, image, Metadata, CaptionPath(cfg, fname));
    }
    assert Calls(toc.effects) == (if route.toc then [(image, TableOfContents)] else []) by {
      ExtractionCalls(oracle, image, TableOfContents, TocPath(cfg, fname));
    }
    assert !cover.aborted;
    CallsAppend(cover.effects, toc.effects);
  }

  /** The extraction branches make no classification call. */
  lemma ExtractionsClassified(cfg: Config, oracle: Oracle, fname: string, route: Route)
    ensures Classified(Extractions(cfg, oracle, fname, route).effects) == []
  {
    var image := ImagePath(cfg, fname);
    var cover := if route.caption then Extraction(oracle, image, Metadata, CaptionPath(cfg, fname)) else Done;
    var toc := if route.toc then Extraction(oracle, image, TableOfContents, TocPath(cfg, fname)) else Done;
    ExtractionClassified(oracle, image, Metadata, CaptionPath(cfg, fname));
    ExtractionClassified(oracle, image, TableOfContents, TocPath(cfg, fname));
    if !cover.aborted {
      ClassifiedAppend(cover.effects, toc.effects);
    }
  }

  /**
   * The paths the extraction branches write: the caption file when the route
   * chose it and its call answered, the table-of-contents file likewise
   * unless a failed metadata call came first.
   */
  lemma ExtractionsWritten(cfg: Config, oracle: Oracle, fname: string, route: Route)
    ensures var image := ImagePath(cfg, fname);
      var writesCaption := route.caption && oracle(image, Metadata).Answer?;
      var cut := route.caption && oracle(image, Metadata).Failed?;
      var writesToc := !cut && route.toc && oracle(image, TableOfContents).Answer?;
      Written(Extractions(cfg, oracle, fname, route).effects)
        == (if writesCaption then {CaptionPath(cfg, fname)} else {}) + (if writesToc then {TocPath(cfg, fname)} else {})
  {
    var image := ImagePath(cfg, fname);
    var cover := if route.caption then Extraction(oracle, image, Metadata, CaptionPath(cfg, fname)) else Done;
    var toc := if route.toc then Extraction(oracle, image, TableOfContents, TocPath(cfg, fname)) else Done;
    ExtractionWritten(oracle, image, Metadata, CaptionPath(cfg, fname));
    ExtractionWritten(oracle, image, TableOfContents, TocPath(cfg, fname));
    if !cover.aborted {
      WrittenAppend(cover.effects, toc.effects);
    }
  }

  /**
   * When the route chose metadata extraction and that call answered, the
   * caption file afterwards holds the reply, whatever the folders held before
   * and whatever the table-of-contents branch did.
   */
  lemma ExtractionsCaptionContents(cfg: Config, oracle: Oracle, fname: string, route: Route, files: map<string, string>)
    requires IsBaseName(fname)
    requires route.caption && oracle(ImagePath(cfg, fname), Metadata).Answer?
    ensures var after := Apply(files, Extractions(cfg, oracle, fname, route).effects);
      && CaptionPath(cfg, fname) in after
      && after[CaptionPath(cfg, fname)] == oracle(ImagePath(cfg, fname), Metadata).content
  {
    var image := ImagePath(cfg, fname);
    var out := CaptionPath(cfg, fname);
    var cover := Extraction(oracle, image, Metadata, out);
    var toc := if route.toc then Extraction(oracle, image, TableOfContents, TocPath(cfg, fname)) else Done;
    var mid := files[out := oracle(image, Metadata).content];
    assert Extractions(cfg, oracle, fname, route).effects == cover.effects + toc.effects;
    assert Apply(files, cover.effects + toc.effects) == Apply(mid, toc.effects) by {
      ApplyAppend(files, cover.effects, toc.effects);
      ApplyExtraction(files, oracle, image, Metadata, out);
    }
    assert out !in Written(toc.effects) by {
      CaptionNeverToc(cfg, fname, fname);
      if route.toc {
        ExtractionWritten(oracle, image, TableOfContents, TocPath(cfg, fname));
      }
    }
    ApplyUnwritten(mid, toc.effects, out);
  }

  /**
   * When the route chose table-of-contents extraction and the branches ran
   * to the end, the table-of-contents file afterwards holds that reply.
   */
  lemma ExtractionsTocContents(cfg: Config, oracle: Oracle, fname: string, route: Route, files: map<string, string>)
    requires route.toc && !Extractions(cfg, oracle, fname, route).aborted
    ensures var after := Apply(files, Extractions(cfg, oracle, fname, route).effects);
      && TocPath(cfg, fname) in after
      && oracle(ImagePath(cfg, fname), TableOfContents) == Answer(after[TocPath(cfg, fname)])
  {
    var image := ImagePath(cfg, fname);
    var cover := if route.caption then Extraction(oracle, image, Metadata, CaptionPath(cfg, fname)) else Done;
    var toc := Extraction(oracle, image, TableOfContents, TocPath(cfg, fname));
    assert !cover.aborted;
    assert Extractions(cfg, oracle, fname, route).effects == cover.effects + toc.effects;
    ApplyAppend(files, cover.effects, toc.effects);
    ApplyExtraction(Apply(files, cover.effects), oracle, image, TableOfContents, TocPath(cfg, fname));
  }

  /**
   * A page that is processed to the end costs one classification call plus
   * one call per matching test, all on that page's image, classification first.
   */
  lemma PageCalls(cfg: Config, oracle: Oracle, fname: string)
    requires !PageTrace(cfg, oracle, fname).aborted
    ensures Calls(PageTrace(cfg, oracle, fname).effects)
            == [(ImagePath(cfg, fname), Classify)]
               + (if RoutesToCaption(cfg, oracle, fname) then [(ImagePath(cfg, fname), Metadata)] else [])
               + (if RoutesToToc(cfg, oracle, fname) then [(ImagePath(cfg, fname), TableOfContents)] else [])
  {
    var image := ImagePath(cfg, fname);
    var route := RouteOf(oracle(image, Classify).content);
    var ext := Extractions(cfg, oracle, fname, route);
    var coverCalls := if route.caption then [(image, Metadata)] else [];
    var tocCalls := if route.toc then [(image, TableOfContents)] else [];
    assert RoutesToCaption(cfg, oracle, fname) == route.caption && RoutesToToc(cfg, oracle, fname) == route.toc;
    assert Calls(PageTrace(cfg, oracle, fname).effects) == [(image, Classify)] + (coverCalls + tocCalls) by {
      assert PageTrace(cfg, oracle, fname).effects == [Infer(image, Classify)] + ext.effects;
      ExtractionsCalls(cfg, oracle, fname, route);
      CallsAppend([Infer(image, Classify)], ext.effects);
      assert Calls([Infer(image, Classify)]) == [(image, Classify)];
    }
    ConcatAssociative([(image, Classify)], coverCalls, tocCalls);
  }

  /**
   * A page's caption file is written iff its label contains "pleading cover
   * page" (in any case) and the metadata call succeeds.
   */
  lemma PageCaptionIff(cfg: Config, oracle: Oracle, fname: string)
    requires IsBaseName(fname)
    requires oracle(ImagePath(cfg, fname), Classify).Answer?
    ensures CaptionPath(cfg, fname) in Written(PageTrace(cfg, oracle, fname).effects)
            <==> RoutesToCaption(cfg, oracle, fname) && oracle(ImagePath(cfg, fname), Metadata).Answer?
  {
    CaptionNeverToc(cfg, fname, fname);
    PageWrittenEffects(cfg, oracle, fname);
  }

  /**
   * A page's table-of-contents file is written iff its label contains "table
   * of contents", independently of the cover-page test, and the extraction
   * call succeeds, unless a failed metadata call ended the run first.
   */
  lemma PageTocIff(cfg: Config, oracle: Oracle, fname: string)
    requires IsBaseName(fname)
    requires oracle(ImagePath(cfg, fname), Classify).Answer?
    ensures TocPath(cfg, fname) in Written(PageTrace(cfg, oracle, fname).effects)
            <==> && RoutesToToc(cfg, oracle, fname)
                 && oracle(ImagePath(cfg, fname), TableOfContents).Answer?
                 && !(RoutesToCaption(cfg, oracle, fname) && oracle(ImagePath(cfg, fname), Metadata).Failed?)
  {
    CaptionNeverToc(cfg, fname, fname);
    PageWrittenEffects(cfg, oracle, fname);
  }

  /** The paths one page writes, spelled out by case. */
  lemma PageWrittenEffects(cfg: Config, oracle: Oracle, fname: string)
    requires oracle(ImagePath(cfg, fname), Classify).Answer?
    ensures var image := ImagePath(cfg, fname);
      var writesCaption := RoutesToCaption(cfg, oracle, fname) && oracle(image, Metadata).Answer?;
      var cut := RoutesToCaption(cfg, oracle, fname) && oracle(image, Metadata).Failed?;
      var writesToc := !cut && RoutesToToc(cfg, oracle, fname) && oracle(image, TableOfContents).Answer?;
      Written(PageTrace(cfg, oracle, fname).effects)
        == (if writesCaption then {CaptionPath(cfg, fname)} else {}) + (if writesToc then {TocPath(cfg, fname)} else {})
  {
    var image := ImagePath(cfg, fname);
    var route := RouteOf(oracle(image, Classify).content);
    var ext := Extractions(cfg, oracle, fname, route);
    var writesCaption := RoutesToCaption(cfg, oracle, fname) && oracle(image, Metadata).Answer?;
    var cut := RoutesToCaption(cfg, oracle, fname) && oracle(image, Metadata).Failed?;
    var writesToc := !cut && RoutesToToc(cfg, oracle, fname) && oracle(image, TableOfContents).Answer?;
    assert Written(PageTrace(cfg, oracle, fname).effects) == Written(ext.effects) by {
      assert PageTrace(cfg, oracle, fname).effects == [Infer(image, Classify)] + ext.effects;
      WrittenAfterCall(image, Classify, ext.effects);
    }
    assert Written(ext.effects)
        == (if writesCaption then {CaptionPath(cfg, fname)} else {}) + (if writesToc then {TocPath(cfg, fname)} else {}) by {
      assert RoutesToCaption(cfg, oracle, fname) == route.caption && RoutesToToc(cfg, oracle, fname) == route.toc;
      ExtractionsWritten(cfg, oracle, fname, route);
    }
  }

  /**
   * A page writes only its own caption file and its own table-of-contents
   * file, and only when its label routes it there.
   */
  lemma PageWritesOwnFiles(cfg: Config, oracle: Oracle, fname: string, p: string)
    requires p in Written(PageTrace(cfg, oracle, fname).effects)
    ensures || (p == CaptionPath(cfg, fname) && RoutesToCaption(cfg, oracle, fname))
            || (p == TocPath(cfg, fname) && RoutesToToc(cfg, oracle, fname))
  {
    if oracle(ImagePath(cfg, fname), Classify).Answer? {
      PageWrittenEffects(cfg, oracle, fname);
    } else {
      PageClassifyFails(cfg, oracle, fname, map[]);
    }
  }

  /**
   * After a page routed to metadata extraction whose metadata call answered,
   * its caption file holds that reply verbatim, whatever the folders held
   * before and whatever the table-of-contents branch did.
   */
  lemma PageCaptionContents(cfg: Config, oracle: Oracle, fname: string, files: map<string, string>)
    requires IsBaseName(fname)
    requires RoutesToCaption(cfg, oracle, fname)
    requires oracle(ImagePath(cfg, fname), Metadata).Answer?
    ensures var after := Apply(files, PageTrace(cfg, oracle, fname).effects);
      && CaptionPath(cfg, fname) in after
      && after[CaptionPath(cfg, fname)] == oracle(ImagePath(cfg, fname), Metadata).content
  {
    var image := ImagePath(cfg, fname);
    var route := RouteOf(oracle(image, Classify).content);
    var ext := Extractions(cfg, oracle, fname, route);
    assert PageTrace(cfg, oracle, fname).effects == [Infer(image, Classify)] + ext.effects;
    ApplyAfterCall(files, image, Classify, ext.effects);
    ExtractionsCaptionContents(cfg, oracle, fname, route, files);
  }

  /**
   * After a page routed to table-of-contents extraction that ran to the end,
   * its table-of-contents file holds the extraction reply verbatim, whatever
   * the folders held before.
   */
  lemma PageTocContents(cfg: Config, oracle: Oracle, fname: string, files: map<string, string>)
    requires RoutesToToc(cfg, oracle, fname)
    requires !PageTrace(cfg, oracle, fname).aborted
    ensures var after := Apply(files, PageTrace(cfg, oracle, fname).effects);
      && TocPath(cfg, fname) in after
      && oracle(ImagePath(cfg, fname), TableOfContents) == Answer(after[TocPath(cfg, fname)])
  {
    var image := ImagePath(cfg, fname);
    var route := RouteOf(oracle(image, Classify).content);
    var ext := Extractions(cfg, oracle, fname, route);
    assert PageTrace(cfg, oracle, fname) == Trace([Infer(image, Classify)] + ext.effects, ext.aborted);
    ApplyAfterCall(files, image, Classify, ext.effects);
    ExtractionsTocContents(cfg, oracle, fname, route, files);
  }

  /** A page whose classification call fails makes that one call and writes nothing. */
  lemma PageClassifyFails(cfg: Config, oracle: Oracle, fname: string, files: map<string, string>)
    requires oracle(ImagePath(cfg, fname), Classify).Failed?
    ensures PageTrace(cfg, oracle, fname) == Trace([Infer(ImagePath(cfg, fname), Classify)], true)
    ensures Written(PageTrace(cfg, oracle, fname).effects) == {}
    ensures Apply(files, PageTrace(cfg, oracle, fname).effects) == files
  {
    var effects := [Infer(ImagePath(cfg, fname), Classify)];
    assert effects[..0] == [];
  }

  /** Every page, whatever its replies, makes exactly one classification call, on its own image. */
  lemma PageClassified(cfg: Config, oracle: Oracle, fname: string)
    ensures Classified(PageTrace(cfg, oracle, fname).effects) == [ImagePath(cfg, fname)]
  {
    var image := ImagePath(cfg, fname);
    var effects := PageTrace(cfg, oracle, fname).effects;
    if oracle(image, Classify).Answer? {
      var route := RouteOf(oracle(image, Classify).content);
      var ext := Extractions(cfg, oracle, fname, route);
      assert effects == [Infer(image, Classify)] + ext.effects;
      assert effects[1..] == ext.effects;
      ExtractionsClassified(cfg, oracle, fname, route);
    } else {
      assert effects[1..] == [];
    }
  }

  // ---------------------------------------------------------------------
  // The whole run
  // ---------------------------------------------------------------------

  /** Sequencing traces is associative. */
  lemma ThenAssociative(a: Trace, b: Trace, c: Trace)
    ensures Then(Then(a, b), c) == Then(a, Then(b, c))
  {
    if !a.aborted && !b.aborted {
      assert a.effects + b.effects + c.effects == a.effects + (b.effects + c.effects);
    }
  }

  /** The run over two listings in a row is the first run, then the second. */
  lemma {:induction false} RunAppend(page: string -> Trace, a: seq<string>, b: seq<string>)
    ensures RunPages(page, a + b) == Then(RunPages(page, a), RunPages(page, b))
    decreases |b|
  {
    if b == [] {
      assert a + b == a;
      assert Then(RunPages(page, a), Done).effects == RunPages(page, a).effects + [];
    } else {
      var ab := a + b;
      assert ab[..|ab| - 1] == a + b[..|b| - 1];
      assert ab[|ab| - 1] == b[|b| - 1];
      RunAppend(page, a, b[..|b| - 1]);
      ThenAssociative(RunPages(page, a), RunPages(page, b[..|b| - 1]), page(b[|b| - 1]));
    }
  }

  /** The run over a listing, cut at page k: the pages before it, page k, then the pages after it. */
  lemma RunSplitsAt(page: string -> Trace, images: seq<string>, k: nat)
    requires k < |images|
    ensures RunPages(page, images)
            == Then(Then(RunPages(page, images[..k]), page(images[k])), RunPages(page, images[k + 1..]))
  {
    var head, tail := images[..k], images[k + 1..];
    var upTo := images[..k + 1];
    assert RunPages(page, upTo) == Then(RunPages(page, head), page(images[k])) by {
      assert upTo[..k] == head;
    }
    assert RunPages(page, images) == Then(RunPages(page, upTo), RunPages(page, tail)) by {
      assert images == upTo + tail;
      RunAppend(page, upTo, tail);
    }
  }

  /**
   * A run in which every page classifies its own image once classifies the
   * images once each, in listing order.
   */
  lemma {:induction false} RunClassifiesEachPage(page: string -> Trace, cfg: Config, images: seq<string>)
    requires forall f :: Classified(page(f).effects) == [ImagePath(cfg, f)]
    requires !RunPages(page, images).aborted
    ensures var classified := Classified(RunPages(page, images).effects);
      && |classified| == |images|
      && forall i :: 0 <= i < |images| ==> classified[i] == ImagePath(cfg, images[i])
    decreases |images|
  {
    if images != [] {
      var n := |images|;
      var init := images[..n - 1];
      var prev := RunPages(page, init);
      var classified := Classified(RunPages(page, images).effects);
      assert classified == Classified(prev.effects) + [ImagePath(cfg, images[n - 1])] by {
        var last := page(images[n - 1]);
        assert !prev.aborted;
        assert RunPages(page, images).effects == prev.effects + last.effects;
        ClassifiedAppend(prev.effects, last.effects);
      }
      RunClassifiesEachPage(page, cfg, init);
      forall i | 0 <= i < n
        ensures classified[i] == ImagePath(cfg, images[i])
      {
        if i < n - 1 {
          assert init[i] == images[i];
        }
      }
    }
  }

  /**
   * A completed run classifies every page image exactly once, in listing
   * order: the classification calls go to the images' paths one by one.
   */
  lemma RunClassifiesInOrder(cfg: Config, oracle: Oracle, images: seq<string>)
    requires !RunTrace(cfg, oracle, images).aborted
    ensures var classified := Classified(RunTrace(cfg, oracle, images).effects);
      && |classified| == |images|
      && forall i :: 0 <= i < |images| ==> classified[i] == ImagePath(cfg, images[i])
  {
    forall f
      ensures Classified(PageOf(cfg, oracle)(f).effects) == [ImagePath(cfg, f)]
    {
      PageClassified(cfg, oracle, f);
    }
    RunClassifiesEachPage(PageOf(cfg, oracle), cfg, images);
  }

  /**
   * A run cut short stops at the first page that was cut short: the pages
   * before it ran to the end, that page ran up to its failed call, and no
   * later page had any effect.
   */
  lemma {:induction false} RunStopsAtFailedPage(page: string -> Trace, images: seq<string>)
    requires RunPages(page, images).aborted
    ensures exists k :: && 0 <= k < |images|
                        && !RunPages(page, images[..k]).aborted
                        && page(images[k]).aborted
                        && RunPages(page, images).effects == RunPages(page, images[..k]).effects + page(images[k]).effects
    decreases |images|
  {
    assert images != [];
    var n := |images|;
    var init := images[..n - 1];
    var prev := RunPages(page, init);
    assert RunPages(page, images) == Then(prev, page(images[n - 1]));
    if prev.aborted {
      RunStopsAtFailedPage(page, init);
      var k :| && 0 <= k < |init|
               && !RunPages(page, init[..k]).aborted
               && page(init[k]).aborted
               && prev.effects == RunPages(page, init[..k]).effects + page(init[k]).effects;
      assert init[..k] == images[..k] && init[k] == images[k];
    } else {
      assert images[..n - 1] == init;
    }
  }

  /**
   * The files written before a failed call stay in the folders: a run cut
   * short leaves them exactly as the completed pages and the partial page
   * left them.
   */
  lemma RunAbortKeepsEarlierFiles(page: string -> Trace, images: seq<string>, before: map<string, string>, k: nat)
    requires k < |images|
    requires !RunPages(page, images[..k]).aborted && page(images[k]).aborted
    ensures RunPages(page, images).aborted
    ensures Apply(before, RunPages(page, images).effects)
            == Apply(Apply(before, RunPages(page, images[..k]).effects), page(images[k]).effects)
  {
    assert images[..k + 1][..k] == images[..k];
    assert RunPages(page, images[..k + 1]).aborted;
    RunStopsAfterAbort(page, images, k + 1);
    ApplyAppend(before, RunPages(page, images[..k]).effects, page(images[k]).effects);
  }

  /** Every path a run writes is written by one of its pages. */
  lemma {:induction false} RunWritesSomePage(page: string -> Trace, images: seq<string>, p: string)
    requires p in Written(RunPages(page, images).effects)
    ensures exists j :: 0 <= j < |images| && p in Written(page(images[j]).effects)
    decreases |images|
  {
    var n := |images|;
    var init := images[..n - 1];
    var prev := RunPages(page, init);
    if !prev.aborted {
      WrittenAppend(prev.effects, page(images[n - 1]).effects);
    }
    if p in Written(prev.effects) {
      RunWritesSomePage(page, init, p);
      var j :| 0 <= j < |init| && p in Written(page(init[j]).effects);
      assert init[j] == images[j];
    }
  }

  /** Every path a run writes is the caption or table-of-contents file of one of its pages. */
  lemma RunWritesPageFiles(cfg: Config, oracle: Oracle, images: seq<string>, p: string)
    requires p in Written(RunTrace(cfg, oracle, images).effects)
    ensures exists j :: && 0 <= j < |images|
                        && (|| (p == CaptionPath(cfg, images[j]) && RoutesToCaption(cfg, oracle, images[j]))
                            || (p == TocPath(cfg, images[j]) && RoutesToToc(cfg, oracle, images[j])))
  {
    RunWritesSomePage(PageOf(cfg, oracle), images, p);
    var j :| 0 <= j < |images| && p in Written(PageOf(cfg, oracle)(images[j]).effects);
    PageWritesOwnFiles(cfg, oracle, images[j], p);
  }

  /**
   * The caption file of page k ends the run holding page k's metadata when no
   * later page with the same stem is routed to metadata extraction: among
   * pages sharing a stem, the last one in listing order decides the file.
   */
  lemma LastPageWithStemDecidesCaption(cfg: Config, oracle: Oracle, images: seq<string>, k: nat, before: map<string, string>)
    requires forall i :: 0 <= i < |images| ==> IsBaseName(images[i])
    requires k < |images|
    requires !RunTrace(cfg, oracle, images).aborted
    requires RoutesToCaption(cfg, oracle, images[k])
    requires forall j :: k < j < |images| && Stem(images[j]) == Stem(images[k]) ==> !RoutesToCaption(cfg, oracle, images[j])
    ensures var after := Apply(before, RunTrace(cfg, oracle, images).effects);
      && CaptionPath(cfg, images[k]) in after
      && oracle(ImagePath(cfg, images[k]), Metadata) == Answer(after[CaptionPath(cfg, images[k])])
  {
    var head, page, tail := images[..k], images[k], images[k + 1..];
    var t1 := RunTrace(cfg, oracle, head);
    var t2 := PageTrace(cfg, oracle, page);
    var t3 := RunTrace(cfg, oracle, tail);
    var p := CaptionPath(cfg, page);
    var mid := Apply(Apply(before, t1.effects), t2.effects);
    var after := Apply(before, RunTrace(cfg, oracle, images).effects);
    assert !t1.aborted && !t2.aborted && after == Apply(mid, t3.effects) by {
      RunSplitsAt(PageOf(cfg, oracle), images, k);
      assert RunTrace(cfg, oracle, images) == Then(Then(t1, t2), t3);
      ApplyAppend(before, t1.effects + t2.effects, t3.effects);
      ApplyAppend(before, t1.effects, t2.effects);
    }
    assert oracle(ImagePath(cfg, page), Metadata).Answer? by {
      assert !t2.aborted;
    }
    assert p in mid && oracle(ImagePath(cfg, page), Metadata) == Answer(mid[p]) by {
      PageCaptionContents(cfg, oracle, page, Apply(before, t1.effects));
    }
    assert p !in Written(t3.effects) by {
      LaterPagesKeepCaption(cfg, oracle, images, k);
    }
    ApplyUnwritten(mid, t3.effects, p);
  }

  /**
   * The pages after page k leave its caption file alone when none of them
   * with the same stem is routed to metadata extraction.
   */
  lemma LaterPagesKeepCaption(cfg: Config, oracle: Oracle, images: seq<string>, k: nat)
    requires forall i :: 0 <= i < |images| ==> IsBaseName(images[i])
    requires k < |images|
    requires forall j :: k < j < |images| && Stem(images[j]) == Stem(images[k]) ==> !RoutesToCaption(cfg, oracle, images[j])
    ensures CaptionPath(cfg, images[k]) !in Written(RunTrace(cfg, oracle, images[k + 1..]).effects)
  {
    var tail, p := images[k + 1..], CaptionPath(cfg, images[k]);
    if p in Written(RunTrace(cfg, oracle, tail).effects) {
      RunWritesPageFiles(cfg, oracle, tail, p);
      var j :| && 0 <= j < |tail|
               && (|| (p == CaptionPath(cfg, tail[j]) && RoutesToCaption(cfg, oracle, tail[j]))
                   || (p == TocPath(cfg, tail[j]) && RoutesToToc(cfg, oracle, tail[j])));
      assert tail[j] == images[k + 1 + j];
      CaptionNeverToc(cfg, images[k], tail[j]);
      CaptionPathSharedIff(cfg, images[k], tail[j]);
    }
  }

  /**
   * The table-of-contents file of page k ends the run holding page k's
   * headings when no later page with the same stem is routed to
   * table-of-contents extraction.
   */
  lemma LastPageWithStemDecidesToc(cfg: Config, oracle: Oracle, images: seq<string>, k: nat, before: map<string, string>)
    requires forall i :: 0 <= i < |images| ==> IsBaseName(images[i])
    requires k < |images|
    requires !RunTrace(cfg, oracle, images).aborted
    requires RoutesToToc(cfg, oracle, images[k])
    requires forall j :: k < j < |images| && Stem(images[j]) == Stem(images[k]) ==> !RoutesToToc(cfg, oracle, images[j])
    ensures var after := Apply(before, RunTrace(cfg, oracle, images).effects);
      && TocPath(cfg, images[k]) in after
      && oracle(ImagePath(cfg, images[k]), TableOfContents) == Answer(after[TocPath(cfg, images[k])])
  {
    var head, page, tail := images[..k], images[k], images[k + 1..];
    var t1 := RunTrace(cfg, oracle, head);
    var t2 := PageTrace(cfg, oracle, page);
    var t3 := RunTrace(cfg, oracle, tail);
    var p := TocPath(cfg, page);
    var mid := Apply(Apply(before, t1.effects), t2.effects);
    var after := Apply(before, RunTrace(cfg, oracle, images).effects);
    assert !t1.aborted && !t2.aborted && after == Apply(mid, t3.effects) by {
      RunSplitsAt(PageOf(cfg, oracle), images, k);
      assert RunTrace(cfg, oracle, images) == Then(Then(t1, t2), t3);
      ApplyAppend(before, t1.effects + t2.effects, t3.effects);
      ApplyAppend(before, t1.effects, t2.effects);
    }
    assert p in mid && oracle(ImagePath(cfg, page), TableOfContents) == Answer(mid[p]) by {
      PageTocContents(cfg, oracle, page, Apply(before, t1.effects));
    }
    assert p !in Written(t3.effects) by {
      LaterPagesKeepToc(cfg, oracle, images, k);
    }
    ApplyUnwritten(mid, t3.effects, p);
  }

  /**
   * The pages after page k leave its table-of-contents file alone when none
   * of them with the same stem is routed to table-of-contents extraction.
   */
  lemma LaterPagesKeepToc(cfg: Config, oracle: Oracle, images: seq<string>, k: nat)
    requires forall i :: 0 <= i < |images| ==> IsBaseName(images[i])
    requires k < |images|
    requires forall j :: k < j < |images| && Stem(images[j]) == Stem(images[k]) ==> !RoutesToToc(cfg, oracle, images[j])
    ensures TocPath(cfg, images[k]) !in Written(RunTrace(cfg, oracle, images[k + 1..]).effects)
  {
    var tail, p := images[k + 1..], TocPath(cfg, images[k]);
    if p in Written(RunTrace(cfg, oracle, tail).effects) {
      RunWritesPageFiles(cfg, oracle, tail, p);
      var j :| && 0 <= j < |tail|
               && (|| (p == CaptionPath(cfg, tail[j]) && RoutesToCaption(cfg, oracle, tail[j]))
                   || (p == TocPath(cfg, tail[j]) && RoutesToToc(cfg, oracle, tail[j])));
      assert tail[j] == images[k + 1 + j];
      CaptionNeverToc(cfg, tail[j], images[k]);
      TocPathSharedIff(cfg, images[k], tail[j]);
    }
  }

  /**
   * Running again over the same listing with the same replies leaves the
   * folders exactly as the first run left them: outputs are overwritten,
   * never accumulated.
   */
  lemma RerunSameFolders(cfg: Config, oracle: Oracle, listing: seq<string>, before: map<string, string>)
    ensures var effects := RunTrace(cfg, oracle, ImageFiles(listing)).effects;
      Apply(Apply(before, effects), effects) == Apply(before, effects)
  {
    ApplyIdempotent(before, RunTrace(cfg, oracle, ImageFiles(listing)).effects);
  }

  /**
   * Example: a listing of "page1.jpg" labelled "Pleading cover page"; the run writes
   * exactly one file, caption_page1.txt, holding the metadata reply.
   */
  lemma Page1CoverExample(cfg: Config, oracle: Oracle, name: string, files: map<string, string>)
    requires name == "page1.jpg"
    requires oracle(ImagePath(cfg, name), Classify) == Answer("Pleading cover page")
    requires oracle(ImagePath(cfg, name), Metadata).Answer?
    ensures var run := RunTrace(cfg, oracle, ImageFiles([name]));
      && !run.aborted
      && Apply(files, run.effects)
         == files[Join(cfg.captionDir, "caption_page1.txt") := oracle(ImagePath(cfg, name), Metadata).content]
  {
    Page1Listing(name);
    Page1Names(name);
    CoverLabelRoute(oracle(ImagePath(cfg, name), Classify).content);
    CoverOnlyPageRun(cfg, oracle, name, files);
  }

  /** Example: a listing of "page1.jpg" alone selects that page. */
  lemma Page1Listing(name: string)
    requires name == "page1.jpg"
    ensures ImageFiles([name]) == [name]
  {
    Page1IsImage(name);
  }

  /**
   * A listing of one page labelled as a cover page (and not as a table of
   * contents) whose metadata call answers: the run completes and leaves the
   * folders as they were except for that page's caption file, which holds
   * the reply.
   */
  lemma CoverOnlyPageRun(cfg: Config, oracle: Oracle, name: string, files: map<string, string>)
    requires oracle(ImagePath(cfg, name), Classify).Answer?
    requires RouteOf(oracle(ImagePath(cfg, name), Classify).content) == Route(true, false)
    requires oracle(ImagePath(cfg, name), Metadata).Answer?
    ensures var run := RunTrace(cfg, oracle, [name]);
      && !run.aborted
      && Apply(files, run.effects) == files[CaptionPath(cfg, name) := oracle(ImagePath(cfg, name), Metadata).content]
  {
    var image := ImagePath(cfg, name);
    var cover := Extraction(oracle, image, Metadata, CaptionPath(cfg, name));
    var page := PageTrace(cfg, oracle, name);
    assert Extractions(cfg, oracle, name, Route(true, false)) == cover by {
      assert cover.effects + [] == cover.effects;
    }
    assert page == Trace([Infer(image, Classify)] + cover.effects, false);
    assert RunTrace(cfg, oracle, [name]) == page by {
      assert [name][..0] == [];
      assert RunPages(PageOf(cfg, oracle), []) == Done;
      assert [] + page.effects == page.effects;
    }
    ApplyAfterCall(files, image, Classify, cover.effects);
    ApplyExtraction(files, oracle, image, Metadata, CaptionPath(cfg, name));
  }
}
