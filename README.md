# vision_prechunking: page routing and output naming

`vision_prechunking.py` batch-processes scanned legal pages. It lists the page
images in a folder and sends each page to a vision model to classify it. Some
labels lead to a second or third call: "pleading cover page" leads to metadata
extraction, written to `caption_<stem>.txt`, and "table of contents" leads to
heading extraction, written to `toc_<stem>.txt`. This project models that
pipeline, the body of `main()`, and proves what it does to the two output
folders.

The model has four modules:

- `Text` (`text.dfy`): the string operations the router uses. These are
  `str.lower()` (over ASCII letters), `str.endswith` and the substring test
  `pat in s`. `lower()` and the substring test are recursive definitions and
  `endswith` compares a slice; each has a lemma that ties it to an index-based
  reading.
- `PathNames` (`paths.dfy`): `os.path.splitext` and `os.path.join`, following
  `ntpath`. The configured base folder is a drive path, so both `\` and `/`
  separate components and `join` inserts `\`.
- `Prechunking` (`prechunking.dfy`): the pipeline itself. It covers:
  - the image filter `ImageFiles` and the label router `RouteOf`;
  - the output names `CaptionPath` and `TocPath`;
  - the specification of one loop iteration (`PageTrace`, which uses
    `Extractions` for the route chosen) and of the whole loop (`RunTrace`);
  - the folders as a map from path to contents (`Apply`);
  - the imperative loop `RunPipeline`, with its body `ProcessPage` and the
    branch `Extract`.
- `PrechunkingProperties` (`properties.dfy`): what the pipeline promises about
  routing, names, file contents, call order, failures and reruns.

The vision endpoint `call_vision_llm` is an oracle. It is a total function
from (image path, prompt) to either the reply text or `Failed`. `Failed`
covers every error the function can raise: a transport error, a non-success
status, or a body without the expected fields. Nothing in `main()` catches
these errors, so a failed call ends the run. Files written before the failure
stay as they are. A reply whose content is JSON `null` is also `Failed` here,
although the source then truncates the output file before `write` raises (see
"## Left out").

A run is specified by its trace: the calls and file writes in the order they
happen, plus whether a failure cut the run short. `RunTrace` takes the loop
body as a parameter through the generic fold `RunPages`. So facts about the
loop are proved once for any page function, and then applied to the real
page function `PageOf(cfg, oracle)`.

`classify_prompt` asks the model to choose one category
(vision_prechunking.py:22), but lines 115 and 124 test the lowered label with
two independent `if`s. So one label can trigger both extractions, and the model
does the same (`RouteOfConcat`, `PageTocIff`).

## Model

| member | source | states |
|---|---|---|
| Text.LowerChar | vision_prechunking.py:115 | the lowered character is never an upper-case letter; `A`–`Z` move to `a`–`z` and every other character is kept |
| Text.Lower | vision_prechunking.py:115 | `lower()` keeps the length and lowers each character independently |
| Text.StartsWithIff | vision_prechunking.py:115 | the character-by-character prefix test holds iff the first `|prefix|` characters equal the prefix |
| Text.ContainsIff | vision_prechunking.py:115 | `pat in s` holds iff `pat` occurs at some index of `s` |
| Text.EndsWithIff | vision_prechunking.py:107 | `endswith(suffix)` holds iff the string is some string followed by the suffix |
| Text.LowerIdempotent | vision_prechunking.py:115 | lowering an already lowered label changes nothing |
| Text.SameIgnoringCaseIff | vision_prechunking.py:115 | two strings have the same `lower()` iff they differ only in letter case |
| Text.LowerSlice | vision_prechunking.py:107 | lowering a slice equals slicing the lowered string, as used for the last four characters of a name |
| Text.LowerAppend | vision_prechunking.py:115 | lowering a concatenation lowers each part |
| Text.ContainsAppend | vision_prechunking.py:124 | a pattern found in either part of a label is found in the whole label |
| Text.ContainsNeedsRoom | vision_prechunking.py:124 | a label shorter than the pattern never contains it |
| Text.ContainsNeedsFirstChar | vision_prechunking.py:124 | a label without the pattern's first character never contains the pattern |
| PathNames.RFind | vision_prechunking.py:118 | the index of the last occurrence of a character, or -1, with no occurrence after it |
| PathNames.LastSepIndex | vision_prechunking.py:118 | the index of the last `\` or `/`, or -1, with no separator after it |
| PathNames.SplitExt | vision_prechunking.py:118 | `splitext` splits the path into two parts that concatenate back to it; the extension is empty or one dot followed by neither dots nor separators; a non-empty extension has a non-dot character before it in the last component; an empty extension means every dot of the last component has only dots before it in that component |
| PathNames.Join | vision_prechunking.py:118 | the result starts with the folder and ends with the name; it adds at most one character, a `\`, and only when the folder is non-empty and does not already end in a separator; a separator always stands just before the name |
| PathNames.JoinInjective | vision_prechunking.py:118 | within one folder, distinct names give distinct paths, and only equal names give equal paths |
| PathNames.JoinBaseNames | vision_prechunking.py:127 | two joins of single components are equal only when the components are, whatever the folders |
| PathNames.StemOfBaseName | vision_prechunking.py:118 | the stem of a listed name holds no separator |
| Prechunking.ImageFiles | vision_prechunking.py:107 | the filter keeps exactly the listed names that are images and never lengthens the listing |
| Prechunking.WrittenIff | vision_prechunking.py:119-120 | a path counts as written iff some effect in the history writes it |
| Prechunking.ApplyKeys | vision_prechunking.py:119-120 | afterwards the folders hold the files that were there before plus the files written, and no others |
| Prechunking.Extract | vision_prechunking.py:117-120 | one extraction branch appends that branch's call and write to the log, leaves the folders as the write leaves them, and reports a failed call as aborting |
| Prechunking.ProcessPage | vision_prechunking.py:109-130 | one loop iteration extends the log by the page's trace and updates the folders by exactly that trace; the abort flag matches the trace |
| Prechunking.RunPipeline | vision_prechunking.py:107-130 | the loop over the filtered listing produces exactly the run's trace, and the folders end as the initial folders with that trace applied |
| Prechunking.RunStep | vision_prechunking.py:108 | one more iteration extends the run by that page and keeps the folders in step with the log |
| Prechunking.ApplyAppend | vision_prechunking.py:119-120 | applying two histories in turn equals applying their concatenation |
| Prechunking.RunStopsAfterAbort | vision_prechunking.py:100 | once a prefix of the run is cut short, the later pages add nothing |
| PrechunkingProperties.IsImageIff | vision_prechunking.py:107 | a name is kept iff its last four characters are `.jpg` in some mix of letter cases |
| PrechunkingProperties.ImageFilesAppend | vision_prechunking.py:107 | the filter keeps listing order: filtering a concatenation concatenates the filtered parts |
| PrechunkingProperties.ImageFilesCount | vision_prechunking.py:107 | each image is kept as many times as it is listed, and every other name is dropped |
| PrechunkingProperties.StemOfImage | vision_prechunking.py:118 | the stem of a page image is its name without the last four characters, unless only dots come before `.jpg`, in which case the stem is the whole name |
| PrechunkingProperties.Page1Stem | vision_prechunking.py:118 | the stem of `page1.jpg` is `page1` |
| PrechunkingProperties.Page1Names | vision_prechunking.py:118 | `page1.jpg` leads to `caption_page1.txt` and `toc_page1.txt` |
| PrechunkingProperties.DotOnlyName | vision_prechunking.py:118 | the stem of `.jpg` is `.jpg` itself |
| PrechunkingProperties.DotsOnlyName | vision_prechunking.py:118 | the stem of `..JPG` is `..JPG` itself |
| PrechunkingProperties.CaseVariantsShareOutputs | vision_prechunking.py:118-127 | `a.jpg` and `a.JPG` are both images with the stem `a`, so they share both output files |
| PrechunkingProperties.CaptionPathSharedIff | vision_prechunking.py:118 | two pages share a caption path iff their names have the same stem |
| PrechunkingProperties.TocPathSharedIff | vision_prechunking.py:127 | two pages share a table-of-contents path iff their names have the same stem |
| PrechunkingProperties.CaptionNeverToc | vision_prechunking.py:118-127 | no caption path is ever a table-of-contents path, whatever the two folders |
| PrechunkingProperties.OutputNamesAreBaseNames | vision_prechunking.py:118-127 | the caption and table-of-contents names of a listed page hold no separator |
| PrechunkingProperties.RouteIgnoresCase | vision_prechunking.py:115-124 | labels that differ only in letter case are routed alike |
| PrechunkingProperties.RouteOfConcat | vision_prechunking.py:115-124 | the two tests are independent: a label made of two parts triggers every extraction either part triggers, so one label can trigger both |
| PrechunkingProperties.CoverLabelRoute | vision_prechunking.py:115-124 | the label "Pleading cover page" routes to metadata extraction only |
| PrechunkingProperties.ShortLabelRoute | vision_prechunking.py:115-124 | a label shorter than "table of contents", such as "Form", routes nowhere |
| PrechunkingProperties.ApplyUnwritten | vision_prechunking.py:119-129 | a path no effect writes keeps its contents, or stays absent |
| PrechunkingProperties.ApplyLastWrite | vision_prechunking.py:119-120 | a file holds exactly the text of the last write to it; a write replaces the contents and does not append |
| PrechunkingProperties.ApplyWrittenAgree | vision_prechunking.py:119-120 | what a written file ends up holding does not depend on what the folders held before |
| PrechunkingProperties.ApplyIdempotent | vision_prechunking.py:119-129 | applying the same history twice leaves the folders as applying it once |
| PrechunkingProperties.ApplyExtraction | vision_prechunking.py:117-120 | an extraction stores its reply at its output path when the call answers and changes nothing when it fails |
| PrechunkingProperties.ExtractionsCalls | vision_prechunking.py:115-126 | the extraction branches that ran to the end made one call per branch the route chose, metadata first |
| PrechunkingProperties.ExtractionsWritten | vision_prechunking.py:115-130 | the extraction branches write the caption file iff the route chose it and its call answered, and the table-of-contents file iff the route chose it, its call answered and no metadata failure came first |
| PrechunkingProperties.PageCalls | vision_prechunking.py:111-126 | a page processed to the end makes the classification call, then one call per matching test, all on its own image |
| PrechunkingProperties.PageCaptionIff | vision_prechunking.py:115-121 | a classified page's caption file is written iff its lowered label contains "pleading cover page" and the metadata call answers |
| PrechunkingProperties.PageTocIff | vision_prechunking.py:124-130 | a classified page's table-of-contents file is written iff its lowered label contains "table of contents", that call answers, and no failed metadata call ended the run first; the cover-page test plays no other part |
| PrechunkingProperties.PageWrittenEffects | vision_prechunking.py:115-130 | the set of paths one page writes, case by case |
| PrechunkingProperties.PageWritesOwnFiles | vision_prechunking.py:118-129 | a page writes only its own caption and table-of-contents paths, and only when its label routes it there |
| PrechunkingProperties.PageCaptionContents | vision_prechunking.py:117-120 | afterwards the caption file holds the metadata reply verbatim, whatever was there before and whatever the table-of-contents branch did (as a string; see "## Left out" on newlines) |
| PrechunkingProperties.PageTocContents | vision_prechunking.py:126-129 | afterwards the table-of-contents file holds the extraction reply verbatim (as a string; see "## Left out" on newlines) |
| PrechunkingProperties.PageClassifyFails | vision_prechunking.py:111 | a page whose classification call fails makes that one call, writes nothing and ends the run |
| PrechunkingProperties.PageClassified | vision_prechunking.py:111 | every page makes exactly one classification call, on its own image |
| PrechunkingProperties.RunAppend | vision_prechunking.py:108 | the run over two listings in a row is the first run followed by the second |
| PrechunkingProperties.RunSplitsAt | vision_prechunking.py:108 | the run splits into the pages before page k, page k, and the pages after it |
| PrechunkingProperties.RunClassifiesInOrder | vision_prechunking.py:107-111 | a completed run classifies every selected image exactly once, in listing order |
| PrechunkingProperties.RunStopsAtFailedPage | vision_prechunking.py:100-111 | a run cut short stops at the first page cut short: the earlier pages completed and no later page had any effect |
| PrechunkingProperties.RunAbortKeepsEarlierFiles | vision_prechunking.py:100-130 | when page k fails, the folders keep what the earlier pages and the partial page k wrote |
| PrechunkingProperties.RunWritesPageFiles | vision_prechunking.py:118-129 | every path a run writes is the caption or table-of-contents path of one of its pages, for a label that routes there |
| PrechunkingProperties.LastPageWithStemDecidesCaption | vision_prechunking.py:108-120 | after a completed run, a caption file holds the metadata of the last page with that stem that was routed to metadata extraction |
| PrechunkingProperties.LaterPagesKeepCaption | vision_prechunking.py:118-120 | later pages leave a caption file alone unless one of them has the same stem and is routed to metadata extraction |
| PrechunkingProperties.LastPageWithStemDecidesToc | vision_prechunking.py:108-129 | after a completed run, a table-of-contents file holds the headings of the last page with that stem that was routed to table-of-contents extraction |
| PrechunkingProperties.LaterPagesKeepToc | vision_prechunking.py:127-129 | later pages leave a table-of-contents file alone unless one of them has the same stem and is routed to table-of-contents extraction |
| PrechunkingProperties.RerunSameFolders | vision_prechunking.py:106-130 | a second run with the same listing and replies leaves the folders exactly as the first run left them |
| PrechunkingProperties.Page1CoverExample | vision_prechunking.py:107-121 | a listing of `page1.jpg` labelled "Pleading cover page" completes and changes only `caption_page1.txt`, which holds the metadata reply |
| PrechunkingProperties.CoverOnlyPageRun | vision_prechunking.py:108-121 | a one-page run routed to metadata only completes and changes only that page's caption file |

## Left out

- `call_vision_llm` (vision_prechunking.py:83-102) is an oracle. The model leaves out the HTTP request, base64 encoding, JSON parsing and `raise_for_status`. A reply is either the model's text or a failure, and the same call always gets the same reply.
- The prompt texts (vision_prechunking.py:20-79) are represented by three prompt names. Their wording does not affect control flow.
- `os.makedirs` (vision_prechunking.py:15-16) and the progress `print`s are not modelled. They do not change the output files.
- The order of `os.listdir` is not modelled: the listing is an arbitrary input sequence. A missing image folder, which makes `listdir` raise before any page is processed, is not modelled either.
- A failed file write (permissions, full disk) is not modelled: writes always succeed. Reading the image file inside `call_vision_llm` is part of the oracle.
- `str.lower()` is modelled over ASCII letters only. Non-ASCII case mappings are left out.
- `os.path.join` is modelled for a name without a drive or a leading separator, which is what `listdir` returns and what the script builds. Drive-letter handling is left out.
- The folder constants, model name and endpoint URL (vision_prechunking.py:6-12) are a parameter (`Config`) or are left out.
- The output files are plain strings in a map. UTF-8 encoding and file handles are left out.
- PageCaptionContents, PageTocContents: the files are opened in text mode, so on Windows each `\n` of the reply is stored as `\r\n`. The model stores the reply string itself and leaves newline translation out.
- Extract: a reply whose JSON content is `null` makes `call_vision_llm` return `None`. The source then opens (and so truncates) the output file before `write(None)` raises. The model treats this reply as `Failed` and keeps the file's old contents.
- CaptionPathSharedIff, TocPathSharedIff: the folders are a map keyed by exact path. On a case-insensitive file system such as NTFS, stems that differ only in letter case also share an output file; the model does not capture that.
- LastPageWithStemDecidesCaption, LastPageWithStemDecidesToc: "same stem" means the same string, for the same reason as above.
