# TL;DR jQuery plugin — a Dafny model of its core

`jquery.tldr.js` scans a page for headline elements and builds a "TL;DR"
block: a list with one entry per headline, each carrying the headline's
title, a link target and a short summary. A summary is either the
headline's data attribute, or the first sentences of the paragraphs that
follow the headline, held within a character budget. When the block is
collapsed, a click handler on each headline shows and hides its summary,
optionally as an accordion.

This project models that core in Dafny and proves properties of the model:

- `wrappers.dfy` (module `Wrappers`): `Option` and `Min`.
- `text.dfy` (module `TextHelpers`): the string helpers `trim`,
  `getSentences`, `truncateAtWord` and `convertToTag`, and the `/(ol|ul)/`
  test on the list type. Each regular expression the plugin uses is written
  out as a small scanner over `string`:
  - the JavaScript `\s`, `\w` and `.` character classes
  - the lazy, global sentence pattern `\w.+?[?.!]`
  - `^<.*>$`
  - the single-character punctuation strip
  - the letter filter `/[^a-z]/gi` (`Tldr.LettersOnly` over `TextHelpers.IsLetter`)

  The string method `lastIndexOf` is written out as a scanner too.
- `summary.dfy` (module `Tldr`): the body of `$.fn.tldr.build`:
  - the minimum-headline gate
  - the per-headline summary: the explicit attribute sliced to the cap, or the budgeted loop over paragraphs
  - the anchor ids written back onto the headlines
  - the ordered `headers` list, the list items and the optional intro item
  - the returned block

  The paragraph loop, the loop over the headlines and the loop over the entries are methods with loop invariants. Each is proved against a specification function (`Collect`/`Render`, `EntriesOf`/`AnnotateAll`, `EntryItems`). The headlines are an `array<Headline>` because `build` writes the derived `id` back onto them in place.
- `toggle.dfy` (module `Collapse`): the click handler as a state machine. The class `SummaryList` holds one visibility flag per summary of a list, and its method `Click` mirrors the handler.

The page is given as plain values:
- a headline is a record of:
  - its text
  - its `id` attribute
  - its summary data attribute
  - the texts of the sibling elements up to the next headline
- the options are the already-merged record, and `Tldr.Defaults` is `$.fn.tldr.defaults`
- the page description is an `Option<string>`

The returned block is a record of:
- the wrapper, header, list and headline tags
- the title
- the list items

### Behaviours of the code a reader might not expect

The model follows the code in each of these:

- `trim` replaces only the FIRST run of line feeds with a space, because `/\n+/` has no `g` flag. Any later run of line feeds stays in the text. `TextHelpers.TrimReplacesOnlyFirstRun` shows a second run surviving.
- `truncateAtWord` strips at most ONE character of `?!.,;:-`, and no white space, before the ellipsis. A second punctuation character, or a space, can therefore stand right before `&hellip;`. `TextHelpers.TruncateStripsOnePunctuation` and `TextHelpers.TruncateMayKeepSpace` show both.
- `convertToTag` tests `^<.*>$`, and `.` does not match a line terminator. Input holding a line feed therefore gains another pair of brackets on every call (`TextHelpers.ConvertToTagAlwaysWrapsMultiline`).
- With `minimumHeadlines` at 0 or below, a page without any headline still gets a block, holding only the intro item if there is one (`Tldr.EmptyPageStillBuilds`).
- The summary counts its budget in paragraph characters only. Neither the prefix markup nor the `&hellip;` entity counts (`Tldr.CollectBudget`).

### A refactoring in the model

The plugin calls `getSentences` on each paragraph inside the budget loop. `Tldr.ParagraphSummary` first computes the sentences of every considered paragraph (`Tldr.ExtractAll`) and then runs the budget loop over those texts (`Tldr.CollectSummary`). `getSentences` is a pure function, so the summary is the same; extracts of paragraphs after the loop stops are simply never used.

## Model

| member | source | states |
|---|---|---|
| TextHelpers.IsSpace | jquery.tldr.js:80 | exactly the code points `\s` matches without the `u` flag: tab, vertical tab, form feed, space, no-break space, U+FEFF, the other space separators (U+1680, U+2000 to U+200A, U+202F, U+205F, U+3000) and the line terminators line feed, carriage return, U+2028 and U+2029 |
| TextHelpers.IsLineTerminator | jquery.tldr.js:85 | the four characters `.` does not match without the `s` flag: line feed, carriage return, U+2028 and U+2029; the `.*` of `convertToTag`'s test at line 102 refuses the same four |
| TextHelpers.IsWordChar | jquery.tldr.js:85 | `\w` without the `u` and `i` flags: the ASCII letters, the digits and `_` |
| TextHelpers.IsSentenceEnd | jquery.tldr.js:85 | the class `[\?\.\!]`: `?`, `.` and `!` |
| TextHelpers.IsClosingPunct | jquery.tldr.js:98 | the class `[\?\!\.,;:-]`: `?`, `!`, `.`, `,`, `;`, `:` and `-` (the `-` is literal at the end of the class) |
| TextHelpers.IsLetter | jquery.tldr.js:160 | the class `[a-z]` under the `i` flag: the ASCII letters of either case |
| TextHelpers.TrimStart | jquery.tldr.js:80 | `replace(/^\s*/,'')`, specified by `TrimStartDropsSpace` and `TrimStartKeepsSuffix` |
| TextHelpers.TrimStartDropsSpace | jquery.tldr.js:80 | every character the leading run drops is white space; that the result does not start with white space is the contract of `SpaceRunEnd` |
| TextHelpers.TrimEnd | jquery.tldr.js:80 | `replace(/\s*$/,'')`, specified by `TrimEndDropsSpace` and `TrimEndKeepsPrefix` |
| TextHelpers.TrimEndDropsSpace | jquery.tldr.js:80 | every character the trailing run drops is white space; that the result does not end with white space is the contract of `SpaceRunStart` |
| TextHelpers.ReplaceFirstNewlineRun | jquery.tldr.js:80 | `replace(/\n+/,' ')`, specified by `ReplaceFirstNewlineRunShape` and `TrimReplacesOnlyFirstRun` |
| TextHelpers.Trim | jquery.tldr.js:79-81 | `trim` never lengthens the text, and its result is empty or neither starts nor ends with white space |
| TextHelpers.TrimStartKeepsSuffix | jquery.tldr.js:80 | `replace(/^\s*/,'')` keeps a suffix that does not start with white space and drops only white space |
| TextHelpers.TrimEndKeepsPrefix | jquery.tldr.js:80 | `replace(/\s*$/,'')` keeps a prefix that does not end with white space and drops only white space |
| TextHelpers.ReplaceFirstNewlineRunShape | jquery.tldr.js:80 | a line feed is found exactly when there is one, and without one the text is unchanged. Otherwise the text before the first line feed is kept, the whole run of line feeds there becomes exactly one space, and the text after the run follows unchanged |
| TextHelpers.ReplaceFirstNewlineRunKeepsEnds | jquery.tldr.js:80 | replacing the run keeps text that is free of white space at its ends that way, and does not lengthen it |
| TextHelpers.TrimKeepsCleanText | jquery.tldr.js:79-81 | text with no white space at its ends and no line feed is returned unchanged |
| TextHelpers.TrimReplacesOnlyFirstRun | jquery.tldr.js:80 | `trim("a\nb\nc")` is `"a b\nc"`: only the first run of line feeds is replaced |
| TextHelpers.IndexFromIsFirst | jquery.tldr.js:80 | the line-feed search returns the first occurrence |
| TextHelpers.IsMatch | jquery.tldr.js:85 | the meaning of one match of `\w.+?[?.!]` from `i` to `e`: a word character first, a sentence end last, at least three characters, no line terminator after the first, and no sentence end before the last from the third character on; `MatchAt` and `MatchSpans` are specified against it |
| TextHelpers.MatchIsUnique | jquery.tldr.js:85 | a match of the lazy pattern that starts at a given position ends at one place only |
| TextHelpers.MatchAt | jquery.tldr.js:85 | the scanner finds the match that starts at a position exactly when one exists: a word character, and at least one more character, none of them a line terminator, up to and including the first `?`, `.` or `!` from the third character on |
| TextHelpers.MatchSpans | jquery.tldr.js:85 | every span of the global scan is a match, at or after the scan's start |
| TextHelpers.MatchSpansOrdered | jquery.tldr.js:85 | the matches come left to right and do not overlap |
| TextHelpers.MatchSpansMissNothing | jquery.tldr.js:85 | every position where a match could start lies inside one of the matches found |
| TextHelpers.MatchText | jquery.tldr.js:85 | the text of a match starts with a word character, is at least 3 characters long, holds no line terminator after its first character, and ends at its first sentence end from its third character on (a `.` in second place does not end it) |
| TextHelpers.Sentences | jquery.tldr.js:85 | every element of `text.match(...)` is such a sentence |
| TextHelpers.Join | jquery.tldr.js:88-90 | `Array.prototype.join(' ')`: the parts in order with the separator between neighbours; specified by `JoinPrefix` and `GetSentencesExample` |
| TextHelpers.JoinPrefix | jquery.tldr.js:90 | joining the first `n` parts gives a prefix of joining them all |
| TextHelpers.SliceEnd | jquery.tldr.js:90 | the end index of `slice(0, count)`, negative counts included, never passes the length |
| TextHelpers.GetSentences | jquery.tldr.js:83-95 | `getSentences`, specified by `GetSentencesFacts`, `GetSentencesPrefix` and `GetSentencesExample` |
| TextHelpers.GetSentencesFacts | jquery.tldr.js:83-95 | no match returns the trimmed text; a positive count returns the first `count` matches (all of them if fewer) joined by a space, starting with the first match; count 0 returns every match joined by a space; a negative count returns all but the last `-count` matches joined by a space, and the empty string when that drops more matches than there are |
| TextHelpers.GetSentencesPrefix | jquery.tldr.js:86-91 | a positive count returns a prefix of what count 0 returns |
| TextHelpers.ScanExample | jquery.tldr.js:85 | the scan of `"Ab. Cd!"` finds exactly the spans 0..3 and 4..7 |
| TextHelpers.SentencesExample | jquery.tldr.js:85 | `"Ab. Cd!".match(...)` is `["Ab.", "Cd!"]` |
| TextHelpers.GetSentencesExample | jquery.tldr.js:83-95 | `getSentences("Ab. Cd!", 1)` is `"Ab."` and with count 0 it is `"Ab. Cd!"` |
| TextHelpers.LastIndexOf | jquery.tldr.js:98 | `lastIndexOf` returns -1 or an index that holds the character |
| TextHelpers.LastIndexOfIsLast | jquery.tldr.js:98 | no occurrence of the character follows the index `lastIndexOf` returns |
| TextHelpers.Ellipsis | jquery.tldr.js:98 | the literal `"&hellip;"` that `truncateAtWord` appends, eight characters long |
| TextHelpers.TruncatedBody | jquery.tldr.js:98 | `text.substring(0, text.lastIndexOf(" ")).replace(/[?!.,;:-]$/,'')`, specified by `TruncatedBodyShape` |
| TextHelpers.TruncatedBodyShape | jquery.tldr.js:98 | the body before the ellipsis is a prefix of the text that stops at its last space (at 0 without a space), less one closing punctuation character exactly when the text there ends with one; it is shorter than any non-empty text |
| TextHelpers.TruncateAtWord | jquery.tldr.js:97-99 | `truncateAtWord`, specified by `TruncateAtWordShape` and the three examples below |
| TextHelpers.TruncateAtWordShape | jquery.tldr.js:98 | the result is that body followed by the eight characters of `&hellip;` |
| TextHelpers.TruncateWithoutSpace | jquery.tldr.js:98 | text without a space truncates to the bare `&hellip;` |
| TextHelpers.TruncateStripsOnePunctuation | jquery.tldr.js:98 | only one punctuation character is stripped: `"Wait.. now"` keeps `"Wait."` |
| TextHelpers.TruncateMayKeepSpace | jquery.tldr.js:98 | white space is not stripped: `"a  b"` becomes `"a "` followed by `&hellip;` |
| TextHelpers.IsTag | jquery.tldr.js:102 | `/^<.*>$/.test`: at least two characters, `<` first, `>` last and no line terminator in between; `ConvertToTag` is specified against it |
| TextHelpers.ConvertToTag | jquery.tldr.js:101-107 | the result is the input exactly when the input matches `^<.*>$`, and the input in angle brackets otherwise; it always starts with `<` and ends with `>`, and matches `^<.*>$` when the input has no line terminator |
| TextHelpers.ConvertToTagIdempotent | jquery.tldr.js:101-107 | on input without line terminators, converting twice is converting once |
| TextHelpers.ConvertToTagWrapsMultiline | jquery.tldr.js:102 | `"<a\nb>"` gains brackets on the first call and again on the second |
| TextHelpers.ConvertToTagAlwaysWrapsMultiline | jquery.tldr.js:101-107 | any input with a line terminator is wrapped in a new pair of brackets, and the result still has one, so every further call wraps it again |
| TextHelpers.MentionsList | jquery.tldr.js:113 | `/(ol|ul)/.test`: the text contains `ol` or `ul` somewhere; `ListTag` is specified against it |
| TextHelpers.ListTag | jquery.tldr.js:113 | the list tag always contains `ol` or `ul`; it is `<ol>` when the option contains neither. An option that contains one and already is a tag is used as it is, and one that contains one but is not a tag is wrapped in angle brackets |
| Tldr.Defaults | jquery.tldr.js:212-230 | `$.fn.tldr.defaults`, field for field, for the options the model keeps; `DefaultSummaryIsFirstSentence` is stated with it |
| Tldr.Truthy | jquery.tldr.js:124 | the truthiness test on the data attribute, and the same test on the `id` attribute at line 157: a value is present and is not the empty string |
| Tldr.Applicable | jquery.tldr.js:117-119 | `build` goes on past the gate; specified by `GateIsThreshold`, and `Build` is stated against it |
| Tldr.GateIsThreshold | jquery.tldr.js:117-119 | `build` stops exactly when the limit is positive and there are fewer headlines; a limit of 0 or less never stops it |
| Tldr.LimitedPrefix | jquery.tldr.js:124-134 | the hard slice of the attribute (`substring(0, maxSummaryLength)`) and of the paragraphs (`slice(0, grafsInSummary)`): a prefix exactly `min(limit, length)` long under a positive limit, and everything otherwise |
| Tldr.ExplicitSummaryWithinCap | jquery.tldr.js:124-128 | a headline with a truthy attribute gets a summary that is a prefix of it and no longer than a positive cap |
| Tldr.Prefix | jquery.tldr.js:138 | the literal `'<span class="prefix">[&hellip;]</span> '` put before every paragraph after the first under a cap |
| Tldr.Piece | jquery.tldr.js:141-151 | the string `'<p>' + prefix + summaryText + '</p> '` that lines 141, 146 and 151 append for one fragment, with the prefix exactly when the fragment is prefixed |
| Tldr.Render | jquery.tldr.js:141-151 | the `summary +=` accumulation: the pieces of the fragments concatenated in order, starting from the empty summary; `CollectSummary` is proved equal to it |
| Tldr.Collect | jquery.tldr.js:135-153 | the fragments the paragraph loop appends, specified by `CollectShape`, `CollectCut`, `CollectStops`, `CollectBudget` and `CollectUnlimited` |
| Tldr.CollectShape | jquery.tldr.js:135-153 | fragment `k` comes from paragraph `k`, with no gaps and never more than there are paragraphs. It carries the prefix exactly under a cap after the first paragraph, and holds that paragraph's sentences unless it was cut. Only the last fragment may be cut, only under a cap, and a cut one is longer than 35 characters and ends with `&hellip;`. Without a cap every paragraph is kept |
| Tldr.CollectCut | jquery.tldr.js:139-149 | when the last fragment is cut, its paragraph is the first whose sentences would reach the cap once the whole paragraphs before it are counted, and its text is `truncateAtWord` of those sentences sliced to what the cap has left |
| Tldr.CollectStops | jquery.tldr.js:139-148 | under a cap, when the fragments end without a cut and paragraphs are left, the next paragraph is the first whose sentences would reach the cap once the whole paragraphs before it are counted, and its shortened text is 35 characters or fewer; so every paragraph that fits is kept, and the walk stops nowhere else |
| Tldr.CollectBudget | jquery.tldr.js:139-149 | under a cap, the paragraph characters used, added to those already used, stay strictly below the cap |
| Tldr.CollectUnlimited | jquery.tldr.js:150-152 | without a cap every paragraph contributes its sentences unprefixed and uncut |
| Tldr.ParagraphSummaryWithinCap | jquery.tldr.js:130-154 | a headline's paragraph summary uses fewer paragraph characters than a positive cap |
| Tldr.DefaultSummaryIsFirstSentence | jquery.tldr.js:124-154 | with the default options, a headline without a truthy data attribute and with at least one paragraph gets as its whole summary one unprefixed `<p>` holding `getSentences` of its first paragraph with count 1, when that is under 200 characters. That text is the paragraph's first sentence, or the whole trimmed paragraph when it has no sentence match |
| Tldr.ExtractAll | jquery.tldr.js:137 | the method returns `getSentences` of every considered paragraph, in order |
| Tldr.CollectSummary | jquery.tldr.js:136-153 | the loop with its running `totalLength` and its `break` builds exactly the markup of the collected fragments; its invariant is that the summary so far followed by the markup of the fragments still to come is the whole markup |
| Tldr.ParagraphSummary | jquery.tldr.js:130-154 | the paragraph path produces the markup of the fragments collected from the selected paragraphs' sentences |
| Tldr.SummaryOf | jquery.tldr.js:122-155 | a headline's summary, specified by `ExplicitSummaryWithinCap`, `ParagraphSummaryWithinCap`, `DefaultSummaryIsFirstSentence` and the method `Summary` |
| Tldr.Summary | jquery.tldr.js:122-155 | a headline's summary is the sliced attribute when that is truthy, and the paragraph summary otherwise |
| Tldr.LettersOnly | jquery.tldr.js:160 | the derived id holds only ASCII letters, is no longer than the text, keeps an all-letter text whole and is empty for a text without letters |
| Tldr.LettersOnlyChar | jquery.tldr.js:160 | one character is kept exactly when it is an ASCII letter |
| Tldr.LettersOnlyAppend | jquery.tldr.js:160 | the letters of a concatenation are the letters of each part in order; with `LettersOnlyChar` this pins the id down as the text with every non-letter removed |
| Tldr.AnchorId | jquery.tldr.js:157-163 | the id after `build`: an existing truthy id, or the letters of the text; specified through `Annotate`, `AnnotateIdempotent` and `BlockLayout` |
| Tldr.Annotate | jquery.tldr.js:157-163 | a headline with a truthy id is left alone; any other gets the derived id; the headline's text, attribute and paragraphs never change |
| Tldr.AnnotateIdempotent | jquery.tldr.js:157-163 | writing the id back twice is writing it once, and the target does not change |
| Tldr.RerunIsIdempotent | jquery.tldr.js:121-170 | re-running over the annotated headlines changes no id again and gives the same entries |
| Tldr.Visit | jquery.tldr.js:121-170 | the body of the headline loop yields the headline's entry and its annotated form |
| Tldr.AnnotateAll | jquery.tldr.js:157-163 | the id write-back over every headline: one annotated headline per headline, in order |
| Tldr.AnnotateAllSnoc | jquery.tldr.js:157-163 | annotating one more headline appends its annotated form |
| Tldr.EntryOf | jquery.tldr.js:165-169 | the pushed `headers` element, `#` + id with the text and the summary; specified through `Visit`, `CollectHeaders` and `BlockLayout` |
| Tldr.EntriesOf | jquery.tldr.js:165-169 | the `headers` array declared at line 111: one entry per headline, in document order |
| Tldr.EntriesOfSnoc | jquery.tldr.js:165-169 | listing one more headline appends its entry |
| Tldr.CollectHeaders | jquery.tldr.js:121-170 | the loop over the headlines pushes every headline's entry in document order and writes the derived id back onto the array |
| Tldr.EntryItems | jquery.tldr.js:172-200 | there is one list item per entry, in order, collapsible exactly when `collapsed && addClickHandler` |
| Tldr.ListItems | jquery.tldr.js:172-200 | the loop over `headers` builds exactly those list items |
| Tldr.ItemsOf | jquery.tldr.js:172-205 | the list items: the intro item, if any, prepended to the entry items; laid out by `ItemsLayout` |
| Tldr.ItemsLayout | jquery.tldr.js:172-205 | the list holds one item per entry in order, after one intro item exactly when the description is wanted and exists |
| Tldr.BlockOf | jquery.tldr.js:109-208 | the block `build` returns, specified by `BlockLayout`, `BlockSummaryCount`, `EmptyPageStillBuilds` and the method `Build` |
| Tldr.IntroItems | jquery.tldr.js:202-205 | the intro item, `truncateAtWord` of the description, exactly when the option is on and the page has one; specified by `ItemsLayout` and `EmptyPageStillBuilds` |
| Tldr.ItemsSummaryCount | jquery.tldr.js:172-205 | the entry items carry one summary each and the intro item none |
| Tldr.BlockSummaryCount | jquery.tldr.js:172-205 | a block carries exactly one summary per headline |
| Tldr.BlockLayout | jquery.tldr.js:109-208 | the block lists every headline's target, title and summary in document order after the optional intro item, `truncateAtWord` of the description |
| Tldr.EmptyPageStillBuilds | jquery.tldr.js:117-207 | without a threshold a page with no headline still gets a block, holding only the intro item if any |
| Tldr.Build | jquery.tldr.js:109-208 | `build` returns no block exactly when the gate stops it, and then changes nothing; otherwise it returns the block of the headlines as they were and leaves every headline annotated |
| Collapse.HasHandler | jquery.tldr.js:174 | the click handler is attached exactly when `collapsed && addClickHandler`; `InitialVisibility`, `AfterClick` and `SummaryList.Valid` are stated with it |
| Collapse.AllClosed | jquery.tldr.js:181 | `slideUp` on every summary of the list hides all of them |
| Collapse.InitialVisibility | jquery.tldr.js:191-196 | summaries start hidden exactly when `collapsed && addClickHandler`, and shown otherwise |
| Collapse.AfterClick | jquery.tldr.js:175-189 | the visibility after a click, specified by the click lemmas below and by `SummaryList.Click` |
| Collapse.ClickWithoutEffect | jquery.tldr.js:174-178 | a click whose target is an `A` element (the arrow link), or on a block without the handler, changes nothing |
| Collapse.ClickFlipsTarget | jquery.tldr.js:183-188 | a handled click flips the clicked summary and keeps the list's length |
| Collapse.ClickLeavesOthers | jquery.tldr.js:180-188 | without the accordion a click touches no other summary |
| Collapse.AccordionClosesOthers | jquery.tldr.js:180-188 | with the accordion every other summary is hidden after a click, so at most one is shown |
| Collapse.AccordionOutcome | jquery.tldr.js:180-188 | with the accordion, a shown clicked summary leaves all hidden; a hidden one leaves exactly it shown |
| Collapse.OpeningOneClosesAnother | jquery.tldr.js:180-188 | opening one accordion summary closes the one that was open |
| Collapse.DoubleClickRestores | jquery.tldr.js:183-188 | without the accordion two clicks on the same headline restore the list |
| Collapse.AccordionDoubleClick | jquery.tldr.js:180-188 | with the accordion two clicks leave the clicked summary as it was and all others hidden; a list with no other summary shown, all-closed included, comes back unchanged |
| Collapse.SummaryList.constructor | jquery.tldr.js:172-205 | a new list has one flag per entry item of the block, from the initial visibility, and its invariant holds; by `BlockSummaryCount` that is one flag per headline |
| Collapse.SummaryList.Click | jquery.tldr.js:175-189 | the handler's new visibility is `AfterClick` of the old; without the handler every summary stays shown, and an accordion never shows two |

## Left out

- The plugin entry `$.fn.tldr`, the options merge with `$.extend` and the insertion of the block with `insertBefore` or `prependTo` are DOM glue. So are the `target` and `insertAfterLead` options that only steer it. The options are taken already merged. The `headlineElements` and `dataAttribute` options are fixed by the input records instead. They decide which elements are headlines, where each headline's paragraphs end and which attribute is read, so each headline comes with its siblings up to the next headline and its data attribute already looked up.
- jQuery traversal and element construction (`find`, `nextUntil`, `.text()`, `.attr()`, `wrap`, `append`, the arrow link and the CSS cursor) are replaced by plain records. Block and list items stand for the generated HTML and are not printed as markup, except the summary's own `<p>` strings, which are modelled exactly.
- The conversion `.data()` applies to attribute values (numbers, JSON) is not modelled. The attribute is a string, and truthy means present and not empty.
- The page-description lookup `$('meta[property$=description]')` is replaced by the `description` parameter.
- The `slideUp` and `slideDown` animations are instantaneous flips of a `bool`. The model relies on `:visible` still seeing a summary whose slide-up has just begun. Event dispatch and `preventDefault` are left out.
- Lengths and `substring` count Dafny characters, not UTF-16 code units, so text outside the Basic Multilingual Plane is measured differently.
- The accordion slides up the summaries of `$(this).closest('ul,ol')`. The model takes that to be the block's own list, which holds when the list tag is an `ol` or `ul` element. `ListTag` also accepts other options that merely contain `ol` or `ul` (`"tool"` becomes `<tool>`); with such a tag `closest` finds no list of the block. If the block has no `ul`/`ol` ancestor, no other summary is closed and two summaries can be shown at once. If the block sits inside a page list, `closest` climbs to that list and every `.summary` in it is closed, including ones outside the block. `SummaryList.Valid` and `AccordionClosesOthers` capture neither case. The model also assumes that the `headlineTag` option is neither `a` nor `ul`/`ol`. With `a`, the headline itself is an `A` element, so every click on it has an `A` target. The handler returns at that test, and no click ever toggles anything; the model's `Click(i, false)` still flips summary `i`. With `ul` or `ol`, `closest` tests the headline itself first and returns it. `.find('.summary')` then finds nothing, because the summary is the headline's sibling. The accordion closes no other summary, as when the block has no list ancestor, and `AccordionClosesOthers` and `SummaryList.Valid` do not hold.
- Duplicate derived ids are not detected, as in the plugin.
- The implicit globals `$this`, `output` and `p` are not modelled; the loop counter is a local.
