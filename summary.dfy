/**
 * `$.fn.tldr.build`: the minimum-headline gate, the per-headline summary
 * (an explicit data attribute or a budgeted walk over the following
 * paragraphs), the anchor ids written back onto the headlines, and the
 * assembled block of list items with its optional intro line.
 */
module Tldr {
  import opened Wrappers
  import opened TextHelpers

  /** The options record, already merged over the defaults. */
  datatype Options = Options(
    wrapper: string,
    listType: string,
    headlineTag: string,
    headerTag: string,
    headerTitle: string,
    collapsed: bool,
    addClickHandler: bool,
    accordion: bool,
    grafsInSummary: int,
    sentencesPerGraf: int,
    maxSummaryLength: int,
    minimumHeadlines: int,
    useMetaDescription: bool)

  /** `$.fn.tldr.defaults`, the options the plugin uses unless told otherwise. */
  const Defaults: Options := Options(
    wrapper := "<div class=tldr-wrapper>",
    listType := "ol",
    headlineTag := "strong",
    headerTag := "h4",
    headerTitle := "TL;DR",
    collapsed := false,
    addClickHandler := true,
    accordion := true,
    grafsInSummary := 1,
    sentencesPerGraf := 1,
    maxSummaryLength := 200,
    minimumHeadlines := 3,
    useMetaDescription := true)

  /**
   * One headline element: its text, its `id` attribute, the value of its
   * summary data attribute, and the texts of the siblings up to the next
   * headline.
   */
  datatype Headline = Headline(text: string, id: Option<string>, data: Option<string>, grafs: seq<string>)

  /** JavaScript truthiness of an attribute value: present and not empty. */
  predicate Truthy(o: Option<string>)
  {
    o.Some? && o.value != ""
  }

  // ---------------------------------------------------------------------
  // The minimum-headline gate
  // ---------------------------------------------------------------------

  /** `build` goes on unless `minimumHeadlines > 0 && count < minimumHeadlines`. */
  predicate Applicable(count: nat, opts: Options)
  {
    !(opts.minimumHeadlines > 0 && count < opts.minimumHeadlines)
  }

  /** The gate is a threshold on the number of headlines, switched off by a limit of 0 or less. */
  lemma GateIsThreshold(count: nat, opts: Options)
    ensures !Applicable(count, opts) <==> 0 < opts.minimumHeadlines && count < opts.minimumHeadlines
    ensures opts.minimumHeadlines <= 0 ==> Applicable(count, opts)
    ensures count >= opts.minimumHeadlines ==> Applicable(count, opts)
  {
  }

  // ---------------------------------------------------------------------
  // The summary of one headline
  // ---------------------------------------------------------------------

  /**
   * `substring(0, limit)` on the explicit summary and `slice(0, limit)` on the
   * paragraphs, each taken only when `limit > 0`: the first `limit` elements
   * (all of them if fewer), or everything when there is no positive limit.
   */
  function LimitedPrefix<T>(s: seq<T>, limit: int): (r: seq<T>)
    ensures r <= s
    ensures limit > 0 ==> |r| == Min(limit, |s|)
    ensures limit <= 0 ==> r == s
  {
    if limit > 0 then s[..Min(limit, |s|)] else s
  }

  /** The marker put before every paragraph of a summary but the first one. */
  const Prefix: string := "<span class=\"prefix\">[&hellip;]</span> "

  /**
   * One `<p>` appended to the summary: the paragraph it came from, whether it
   * carries the `[&hellip;]` prefix, its text, and whether it was cut by
   * `truncateAtWord` in the terminal branch.
   */
  datatype Fragment = Fragment(source: nat, prefixed: bool, text: string, cut: bool)

  /** The markup `'<p>' + prefix + summaryText + '</p> '` of one fragment. */
  function Piece(f: Fragment): string
  {
    "<p>" + (if f.prefixed then Prefix else "") + f.text + "</p> "
  }

  /** The markup of a sequence of fragments, in order. */
  function Render(fs: seq<Fragment>): string
  {
    if fs == [] then "" else Piece(fs[0]) + Render(fs[1..])
  }

  /**
   * What the loop over the paragraphs appends from paragraph `p` on, with
   * `total` characters of the budget already used.
   */
  function Collect(texts: seq<string>, max: int, p: nat, total: nat): seq<Fragment>
    requires p <= |texts|
    requires max > 0 ==> total < max
    decreases |texts| - p
  {
    if p == |texts| then []
    else if max <= 0 then
      [Fragment(p, false, texts[p], false)] + Collect(texts, max, p + 1, total)
    else if total + |texts[p]| < max then
      [Fragment(p, p > 0, texts[p], false)] + Collect(texts, max, p + 1, total + |texts[p]|)
    else
      var shortened := TruncateAtWord(texts[p][..max - total]);
      if |shortened| > 35 then [Fragment(p, p > 0, shortened, true)] else []
  }

  /** `getSentences` of each considered paragraph's text. */
  function Extracts(grafs: seq<string>, count: int): (r: seq<string>)
    ensures |r| == |grafs| && forall k :: 0 <= k < |grafs| ==> r[k] == GetSentences(grafs[k], count)
  {
    seq(|grafs|, k requires 0 <= k < |grafs| => GetSentences(grafs[k], count))
  }

  /** The fragments built from a headline's paragraphs under the options. */
  function ParagraphFragments(grafs: seq<string>, opts: Options): seq<Fragment>
  {
    Collect(Extracts(LimitedPrefix(grafs, opts.grafsInSummary), opts.sentencesPerGraf), opts.maxSummaryLength, 0, 0)
  }

  /** The summary markup of one headline. */
  function SummaryOf(h: Headline, opts: Options): string
  {
    if Truthy(h.data) then LimitedPrefix(h.data.value, opts.maxSummaryLength)
    else Render(ParagraphFragments(h.grafs, opts))
  }

  /** The characters of a fragment that came from its paragraph (the ellipsis entity is not one). */
  function SourceChars(f: Fragment): int
  {
    if f.cut then |f.text| - |Ellipsis| else |f.text|
  }

  /** The characters of the paragraphs that a sequence of fragments uses. */
  function TotalSourceChars(fs: seq<Fragment>): int
  {
    if fs == [] then 0 else SourceChars(fs[0]) + TotalSourceChars(fs[1..])
  }

  /**
   * Fragment `k` of `fs` came from paragraph `p + k`, carries the prefix
   * exactly when there is a cap and it is not the first paragraph, and holds
   * that paragraph's sentences unchanged unless it was cut.
   */
  predicate Aligned(fs: seq<Fragment>, texts: seq<string>, max: int, p: nat)
  {
    p + |fs| <= |texts|
    && forall k :: 0 <= k < |fs| ==>
         fs[k].source == p + k && fs[k].prefixed == (max > 0 && p + k > 0)
         && (!fs[k].cut ==> fs[k].text == texts[p + k])
  }

  /** Only the last fragment may be cut, only under a cap, and a cut one is longer than 35 characters and ends with the ellipsis. */
  predicate CutOnlyLast(fs: seq<Fragment>, max: int)
  {
    forall k :: 0 <= k < |fs| && fs[k].cut ==>
      k == |fs| - 1 && max > 0 && |fs[k].text| > 35 && fs[k].text[|fs[k].text| - 8..] == Ellipsis
  }

  /** An uncut fragment of paragraph `p` in front of the fragments from `p + 1` keeps the shape. */
  lemma ShapeCons(f: Fragment, rest: seq<Fragment>, texts: seq<string>, max: int, p: nat)
    requires p < |texts| && f == Fragment(p, max > 0 && p > 0, texts[p], false)
    requires Aligned(rest, texts, max, p + 1) && CutOnlyLast(rest, max)
    ensures Aligned([f] + rest, texts, max, p) && CutOnlyLast([f] + rest, max)
  {
    var fs := [f] + rest;
    forall k | 1 <= k < |fs| ensures fs[k] == rest[k - 1] {
    }
  }

  /** One step of the collection that keeps a paragraph whole. */
  lemma CollectKeeps(texts: seq<string>, max: int, p: nat, total: nat)
    requires p < |texts| && (max <= 0 || total + |texts[p]| < max)
    ensures var total' := if max <= 0 then total else total + |texts[p]|;
      Collect(texts, max, p, total)
      == [Fragment(p, max > 0 && p > 0, texts[p], false)] + Collect(texts, max, p + 1, total')
  {
  }

  /** One step of `Collect` at the paragraph that fills the budget: it is cut, or dropped when short. */
  lemma CollectCuts(texts: seq<string>, max: int, p: nat, total: nat)
    requires p < |texts| && max > 0 && total < max <= total + |texts[p]|
    ensures var shortened := TruncateAtWord(texts[p][..max - total]);
      Collect(texts, max, p, total)
      == if |shortened| > 35 then [Fragment(p, p > 0, shortened, true)] else []
  {
  }

  /**
   * The shape of the collected fragments: one per paragraph, in order and
   * without gaps starting at `p`, as `Aligned` and `CutOnlyLast` describe;
   * with no cap every paragraph is kept.
   */
  lemma {:induction false} CollectShape(texts: seq<string>, max: int, p: nat, total: nat)
    requires p <= |texts|
    requires max > 0 ==> total < max
    ensures var fs := Collect(texts, max, p, total);
      Aligned(fs, texts, max, p) && CutOnlyLast(fs, max) && (max <= 0 ==> p + |fs| == |texts|)
    decreases |texts| - p
  {
    if p < |texts| {
      if max <= 0 || total + |texts[p]| < max {
        var total' := if max <= 0 then total else total + |texts[p]|;
        CollectKeeps(texts, max, p, total);
        CollectShape(texts, max, p + 1, total');
        ShapeCons(Fragment(p, max > 0 && p > 0, texts[p], false), Collect(texts, max, p + 1, total'), texts, max, p);
      } else {
        TruncateAtWordShape(texts[p][..max - total]);
      }
    }
  }

  /** The characters of paragraphs `p` up to `q`, the budget they use when all are kept whole. */
  function Used(texts: seq<string>, p: nat, q: nat): nat
    requires p <= q <= |texts|
    decreases q - p
  {
    if p == q then 0 else |texts[p]| + Used(texts, p + 1, q)
  }

  /**
   * The last fragment, when it is cut, is `truncateAtWord` of its paragraph's
   * sentences sliced to what the budget has left once the paragraphs before it
   * are counted, and that paragraph is the first one that fills the budget.
   */
  predicate CutPlaced(fs: seq<Fragment>, texts: seq<string>, max: int, p: nat, total: nat)
  {
    fs != [] && fs[|fs| - 1].cut ==>
      var q := p + |fs| - 1;
      q < |texts|
      && total + Used(texts, p, q) < max <= total + Used(texts, p, q) + |texts[q]|
      && fs[|fs| - 1].text == TruncateAtWord(texts[q][..max - (total + Used(texts, p, q))])
  }

  /** A whole paragraph `p` inside the cap in front of the fragments from `p + 1` keeps the cut in place. */
  lemma CutPlacedKeeps(texts: seq<string>, max: int, p: nat, total: nat)
    requires p < |texts| && max > 0 && total + |texts[p]| < max
    requires CutPlaced(Collect(texts, max, p + 1, total + |texts[p]|), texts, max, p + 1, total + |texts[p]|)
    ensures CutPlaced(Collect(texts, max, p, total), texts, max, p, total)
  {
    CollectKeeps(texts, max, p, total);
    var rest := Collect(texts, max, p + 1, total + |texts[p]|);
    var fs := Collect(texts, max, p, total);
    if rest != [] && rest[|rest| - 1].cut {
      var q := p + |fs| - 1;
      assert q == p + 1 + |rest| - 1 && fs[|fs| - 1] == rest[|rest| - 1];
      assert Used(texts, p, q) == |texts[p]| + Used(texts, p + 1, q);
    } else {
      assert !fs[|fs| - 1].cut;
    }
  }

  /** Where the cut falls: `CutPlaced` holds of the collected fragments. */
  lemma {:induction false} CollectCut(texts: seq<string>, max: int, p: nat, total: nat)
    requires p <= |texts|
    requires max > 0 ==> total < max
    ensures CutPlaced(Collect(texts, max, p, total), texts, max, p, total)
    decreases |texts| - p
  {
    if max <= 0 {
      CollectShape(texts, max, p, total);
    } else if p < |texts| && total + |texts[p]| < max {
      CollectCut(texts, max, p + 1, total + |texts[p]|);
      CutPlacedKeeps(texts, max, p, total);
    } else if p < |texts| {
      CollectCuts(texts, max, p, total);
      assert Used(texts, p, p) == 0;
    }
  }

  /**
   * When the fragments under a cap end without a cut and paragraphs are left,
   * the walk stopped at the first paragraph whose sentences would reach the
   * cap, and that paragraph's shortened text was 35 characters or fewer.
   */
  predicate StopPlaced(fs: seq<Fragment>, texts: seq<string>, max: int, p: nat, total: nat)
  {
    (fs == [] || !fs[|fs| - 1].cut) && p + |fs| < |texts| ==>
      var q := p + |fs|;
      total + Used(texts, p, q) < max <= total + Used(texts, p, q) + |texts[q]|
      && |TruncateAtWord(texts[q][..max - (total + Used(texts, p, q))])| <= 35
  }

  /** A whole paragraph `p` inside the cap in front of the fragments from `p + 1` keeps the stop in place. */
  lemma StopPlacedKeeps(texts: seq<string>, max: int, p: nat, total: nat)
    requires p < |texts| && max > 0 && total + |texts[p]| < max
    requires StopPlaced(Collect(texts, max, p + 1, total + |texts[p]|), texts, max, p + 1, total + |texts[p]|)
    ensures StopPlaced(Collect(texts, max, p, total), texts, max, p, total)
  {
    CollectKeeps(texts, max, p, total);
    var rest := Collect(texts, max, p + 1, total + |texts[p]|);
    var fs := Collect(texts, max, p, total);
    var q := p + |fs|;
    if (fs == [] || !fs[|fs| - 1].cut) && q < |texts| {
      assert q == p + 1 + |rest|;
      assert rest == [] || fs[|fs| - 1] == rest[|rest| - 1];
      assert Used(texts, p, q) == |texts[p]| + Used(texts, p + 1, q);
    }
  }

  /** Where the walk stops without a cut: `StopPlaced` holds of the collected fragments. */
  lemma {:induction false} CollectStops(texts: seq<string>, max: int, p: nat, total: nat)
    requires p <= |texts| && max > 0 && total < max
    ensures StopPlaced(Collect(texts, max, p, total), texts, max, p, total)
    decreases |texts| - p
  {
    if p < |texts| && total + |texts[p]| < max {
      CollectStops(texts, max, p + 1, total + |texts[p]|);
      StopPlacedKeeps(texts, max, p, total);
    } else if p < |texts| {
      CollectCuts(texts, max, p, total);
      assert Used(texts, p, p) == 0;
    }
  }

  /**
   * The budget: with a cap, the characters taken from the paragraphs, added
   * to those already used, stay strictly below it. The prefix markup and the
   * `&hellip;` entity are not counted, as in the plugin.
   */
  lemma {:induction false} CollectBudget(texts: seq<string>, max: int, p: nat, total: nat)
    requires p <= |texts|
    requires max > 0 && total < max
    ensures total + TotalSourceChars(Collect(texts, max, p, total)) < max
    decreases |texts| - p
  {
    if p < |texts| {
      if total + |texts[p]| < max {
        var f := Fragment(p, p > 0, texts[p], false);
        var rest := Collect(texts, max, p + 1, total + |texts[p]|);
        CollectKeeps(texts, max, p, total);
        CollectBudget(texts, max, p + 1, total + |texts[p]|);
        assert ([f] + rest)[1..] == rest;
      } else {
        var slice := texts[p][..max - total];
        TruncatedBodyShape(slice);
        var f := Fragment(p, p > 0, TruncateAtWord(slice), true);
        assert [f][1..] == [];
      }
    }
  }

  /** Without a cap every considered paragraph contributes its sentences, unprefixed. */
  lemma {:induction false} CollectUnlimited(texts: seq<string>, max: int, p: nat, total: nat)
    requires p <= |texts| && max <= 0
    ensures var fs := Collect(texts, max, p, total);
      |fs| == |texts| - p && forall k :: 0 <= k < |fs| ==> fs[k] == Fragment(p + k, false, texts[p + k], false)
    decreases |texts| - p
  {
    if p < |texts| {
      CollectKeeps(texts, max, p, total);
      CollectUnlimited(texts, max, p + 1, total);
      var fs := Collect(texts, max, p, total);
      var rest := Collect(texts, max, p + 1, total);
      forall k | 1 <= k < |fs| ensures fs[k] == rest[k - 1] {
      }
    }
  }

  /** Whatever the options, an explicit summary under a positive cap is no longer than the cap. */
  lemma ExplicitSummaryWithinCap(h: Headline, opts: Options)
    requires Truthy(h.data) && opts.maxSummaryLength > 0
    ensures SummaryOf(h, opts) <= h.data.value
    ensures |SummaryOf(h, opts)| <= opts.maxSummaryLength
  {
  }

  /** Under a positive cap the paragraph summary uses fewer source characters than the cap. */
  lemma ParagraphSummaryWithinCap(h: Headline, opts: Options)
    requires opts.maxSummaryLength > 0
    ensures TotalSourceChars(ParagraphFragments(h.grafs, opts)) < opts.maxSummaryLength
  {
    CollectBudget(Extracts(LimitedPrefix(h.grafs, opts.grafsInSummary), opts.sentencesPerGraf), opts.maxSummaryLength, 0, 0);
  }

  /**
   * With the default options a headline without a data attribute whose first
   * paragraph's first sentence is shorter than 200 characters gets exactly
   * that sentence as one unprefixed paragraph.
   */
  lemma DefaultSummaryIsFirstSentence(h: Headline)
    requires !Truthy(h.data) && |h.grafs| > 0
    requires |GetSentences(h.grafs[0], 1)| < 200
    ensures SummaryOf(h, Defaults) == "<p>" + GetSentences(h.grafs[0], 1) + "</p> "
  {
    var texts := Extracts(LimitedPrefix(h.grafs, 1), 1);
    assert texts == [GetSentences(h.grafs[0], 1)];
    var fs := Collect(texts, 200, 0, 0);
    assert Collect(texts, 200, 1, |texts[0]|) == [];
    assert fs == [Fragment(0, false, GetSentences(h.grafs[0], 1), false)];
    assert Render(fs) == Render([]) + Piece(fs[0]);
  }

  /** The markup of a fragment, with or without its prefix. */
  lemma PieceIsParagraph(f: Fragment)
    ensures f.prefixed ==> Piece(f) == "<p>" + Prefix + f.text + "</p> "
    ensures !f.prefixed ==> Piece(f) == "<p>" + f.text + "</p> "
  {
    assert "<p>" + "" == "<p>";
  }

  /** The markup from a paragraph kept whole is its piece followed by the markup from the next one. */
  lemma RenderKeeps(texts: seq<string>, max: int, p: nat, total: nat)
    requires p < |texts| && (max <= 0 || total + |texts[p]| < max)
    ensures var total' := if max <= 0 then total else total + |texts[p]|;
      Render(Collect(texts, max, p, total))
      == Piece(Fragment(p, max > 0 && p > 0, texts[p], false)) + Render(Collect(texts, max, p + 1, total'))
  {
    var total' := if max <= 0 then total else total + |texts[p]|;
    var f := Fragment(p, max > 0 && p > 0, texts[p], false);
    CollectKeeps(texts, max, p, total);
    assert ([f] + Collect(texts, max, p + 1, total'))[1..] == Collect(texts, max, p + 1, total');
  }

  /** The markup from the paragraph that fills the budget is its cut piece, or nothing when that is short. */
  lemma RenderCuts(texts: seq<string>, max: int, p: nat, total: nat)
    requires p < |texts| && max > 0 && total < max <= total + |texts[p]|
    ensures var shortened := TruncateAtWord(texts[p][..max - total]);
      Render(Collect(texts, max, p, total))
      == if |shortened| > 35 then Piece(Fragment(p, p > 0, shortened, true)) else ""
  {
    var shortened := TruncateAtWord(texts[p][..max - total]);
    CollectCuts(texts, max, p, total);
    if |shortened| > 35 {
      var f := Fragment(p, p > 0, shortened, true);
      assert [f][1..] == [];
      assert Piece(f) + "" == Piece(f);
    }
  }

  /** A paragraph kept whole: appending its piece to the summary so far keeps the summary on course for the whole markup. */
  lemma SummaryKeeps(texts: seq<string>, max: int, p: nat, total: nat, total': nat, summary: string, piece: string)
    requires p < |texts| && (max <= 0 || total + |texts[p]| < max)
    requires total' == if max <= 0 then total else total + |texts[p]|
    requires piece == Piece(Fragment(p, max > 0 && p > 0, texts[p], false))
    requires summary + Render(Collect(texts, max, p, total)) == Render(Collect(texts, max, 0, 0))
    ensures (summary + piece) + Render(Collect(texts, max, p + 1, total')) == Render(Collect(texts, max, 0, 0))
  {
    RenderKeeps(texts, max, p, total);
    var rest := Render(Collect(texts, max, p + 1, total'));
    assert (summary + piece) + rest == summary + (piece + rest);
  }

  /** The paragraph that fills the budget: the summary is complete once its cut piece, if long enough, is appended. */
  lemma SummaryCuts(texts: seq<string>, max: int, p: nat, total: nat, summary: string)
    requires p < |texts| && max > 0 && total < max <= total + |texts[p]|
    requires summary + Render(Collect(texts, max, p, total)) == Render(Collect(texts, max, 0, 0))
    ensures var shortened := TruncateAtWord(texts[p][..max - total]);
      (if |shortened| > 35 then summary + Piece(Fragment(p, p > 0, shortened, true)) else summary)
      == Render(Collect(texts, max, 0, 0))
  {
    RenderCuts(texts, max, p, total);
    assert summary + "" == summary;
  }

  /** Extracting one more paragraph appends its sentences. */
  lemma ExtractsSnoc(grafs: seq<string>, count: int, p: nat)
    requires p < |grafs|
    ensures Extracts(grafs[..p + 1], count) == Extracts(grafs[..p], count) + [GetSentences(grafs[p], count)]
  {
    var a := Extracts(grafs[..p + 1], count);
    var b := Extracts(grafs[..p], count) + [GetSentences(grafs[p], count)];
    forall k | 0 <= k < p + 1 ensures a[k] == b[k] {
      assert grafs[..p + 1][k] == grafs[k];
      if k < p {
        assert grafs[..p][k] == grafs[k];
      }
    }
  }

  /** `getSentences` of every considered paragraph, taken in order. */
  method ExtractAll(grafs: seq<string>, count: int) returns (texts: seq<string>)
    ensures texts == Extracts(grafs, count)
  {
    texts := [];
    var p := 0;
    while p < |grafs|
      invariant 0 <= p <= |grafs|
      invariant texts == Extracts(grafs[..p], count)
    {
      ExtractsSnoc(grafs, count, p);
      texts := texts + [GetSentences(grafs[p], count)];
      p := p + 1;
    }
    assert grafs[..p] == grafs;
  }

  /**
   * The loop over the paragraph extracts: append each as a paragraph while
   * the budget lasts, then the shortened last one if it is longer than 35
   * characters, and stop.
   */
  method CollectSummary(texts: seq<string>, max: int) returns (summary: string)
    ensures summary == Render(Collect(texts, max, 0, 0))
  {
    summary := "";
    var totalLength: nat := 0;
    var p := 0;
    assert "" + Render(Collect(texts, max, 0, 0)) == Render(Collect(texts, max, 0, 0));
    while p < |texts|
      invariant 0 <= p <= |texts|
      invariant max > 0 ==> totalLength < max
      invariant summary + Render(Collect(texts, max, p, totalLength)) == Render(Collect(texts, max, 0, 0))
    {
      var summaryText := texts[p];
      var prefix := if p > 0 then Prefix else "";
      if max > 0 {
        if totalLength + |summaryText| < max {
          var piece := "<p>" + prefix + summaryText + "</p> ";
          PieceIsParagraph(Fragment(p, p > 0, summaryText, false));
          assert "<p>" + "" == "<p>";
          var newTotal := totalLength + |summaryText|;
          SummaryKeeps(texts, max, p, totalLength, newTotal, summary, piece);
          summary := summary + piece;
          totalLength := newTotal;
        } else {
          SummaryCuts(texts, max, p, totalLength, summary);
          summaryText := TruncateAtWord(summaryText[..max - totalLength]);
          if |summaryText| > 35 {
            PieceIsParagraph(Fragment(p, p > 0, summaryText, true));
            summary := summary + ("<p>" + prefix + summaryText + "</p> ");
          }
          break;
        }
      } else {
        var piece := "<p>" + summaryText + "</p> ";
        PieceIsParagraph(Fragment(p, false, summaryText, false));
        SummaryKeeps(texts, max, p, totalLength, totalLength, summary, piece);
        summary := summary + piece;
      }
      p := p + 1;
    }
    if p == |texts| {
      assert summary + "" == summary;
    }
  }

  /**
   * The summary of a headline without a data attribute, from the paragraphs
   * that follow it up to the next headline.
   */
  method ParagraphSummary(h: Headline, opts: Options) returns (summary: string)
    ensures summary == Render(ParagraphFragments(h.grafs, opts))
  {
    var grafs := h.grafs;
    if opts.grafsInSummary > 0 {
      grafs := grafs[..Min(opts.grafsInSummary, |grafs|)];
    }
    assert grafs == LimitedPrefix(h.grafs, opts.grafsInSummary);
    var texts := ExtractAll(grafs, opts.sentencesPerGraf);
    summary := CollectSummary(texts, opts.maxSummaryLength);
  }

  /** The body of `build`'s `each` that computes one headline's summary. */
  method Summary(h: Headline, opts: Options) returns (summary: string)
    ensures summary == SummaryOf(h, opts)
  {
    if Truthy(h.data) {
      summary := h.data.value;
      if opts.maxSummaryLength > 0 {
        summary := summary[..Min(opts.maxSummaryLength, |summary|)];
      }
    } else {
      summary := ParagraphSummary(h, opts);
    }
  }

  // ---------------------------------------------------------------------
  // Anchor ids and entries
  // ---------------------------------------------------------------------

  /** `text.replace(/[^a-z]/gi, '')`: the ASCII letters of `text`, in order. */
  function LettersOnly(text: string): (r: string)
    ensures |r| <= |text|
    ensures forall k :: 0 <= k < |r| ==> IsLetter(r[k])
    ensures (forall k :: 0 <= k < |text| ==> IsLetter(text[k])) ==> r == text
    ensures (forall k :: 0 <= k < |text| ==> !IsLetter(text[k])) ==> r == ""
  {
    if text == [] then ""
    else if IsLetter(text[0]) then [text[0]] + LettersOnly(text[1..])
    else LettersOnly(text[1..])
  }

  /** A single character is kept exactly when it is an ASCII letter. */
  lemma LettersOnlyChar(c: char)
    ensures LettersOnly([c]) == if IsLetter(c) then [c] else []
  {
    assert [c][1..] == [];
  }

  /**
   * The letters of a concatenation are the letters of each part, in order:
   * with `LettersOnlyChar` this fixes `LettersOnly` as the text with every
   * character outside `[A-Za-z]` removed.
   */
  lemma {:induction false} LettersOnlyAppend(a: string, b: string)
    ensures LettersOnly(a + b) == LettersOnly(a) + LettersOnly(b)
  {
    if a != [] {
      assert (a + b)[0] == a[0];
      assert (a + b)[1..] == a[1..] + b;
      LettersOnlyAppend(a[1..], b);
    } else {
      assert a + b == b;
    }
  }

  /** The id the headline carries after `build`: an existing truthy id, or the derived one. */
  function AnchorId(h: Headline): string
  {
    if Truthy(h.id) then h.id.value else LettersOnly(h.text)
  }

  /** The headline after `build` has written its id back. */
  function Annotate(h: Headline): (r: Headline)
    ensures r.text == h.text && r.data == h.data && r.grafs == h.grafs
    ensures Truthy(h.id) ==> r == h
    ensures r.id == Some(AnchorId(h))
  {
    if Truthy(h.id) then h else h.(id := Some(LettersOnly(h.text)))
  }

  /** One element of `headers`. */
  datatype Entry = Entry(target: string, title: string, summary: string)

  /** The `headers` element pushed for a headline: its target, its title and its summary. */
  function EntryOf(h: Headline, opts: Options): Entry
  {
    Entry("#" + AnchorId(h), h.text, SummaryOf(h, opts))
  }

  /** Every headline after `build` has written its id back. */
  function AnnotateAll(hs: seq<Headline>): (r: seq<Headline>)
    ensures |r| == |hs| && forall k :: 0 <= k < |hs| ==> r[k] == Annotate(hs[k])
  {
    seq(|hs|, k requires 0 <= k < |hs| => Annotate(hs[k]))
  }

  /** The `headers` array built for a page's headlines, in document order. */
  function EntriesOf(hs: seq<Headline>, opts: Options): (r: seq<Entry>)
    ensures |r| == |hs| && forall k :: 0 <= k < |hs| ==> r[k] == EntryOf(hs[k], opts)
  {
    seq(|hs|, k requires 0 <= k < |hs| => EntryOf(hs[k], opts))
  }

  /** Deriving an id once fixes it: a second run on the written-back headline gives the same target. */
  lemma {:induction false} AnnotateIdempotent(h: Headline)
    ensures Annotate(Annotate(h)) == Annotate(h)
    ensures AnchorId(Annotate(h)) == AnchorId(h)
  {
    if !Truthy(h.id) {
      var id := LettersOnly(h.text);
      if id != "" {
        assert Truthy(Annotate(h).id);
      } else {
        assert !Truthy(Annotate(h).id);
      }
    }
  }

  /** Re-running over the annotated document yields the same entries and changes no id again. */
  lemma RerunIsIdempotent(hs: seq<Headline>, opts: Options)
    ensures AnnotateAll(AnnotateAll(hs)) == AnnotateAll(hs)
    ensures EntriesOf(AnnotateAll(hs), opts) == EntriesOf(hs, opts)
  {
    forall k | 0 <= k < |hs|
      ensures Annotate(Annotate(hs[k])) == Annotate(hs[k])
      ensures EntryOf(Annotate(hs[k]), opts) == EntryOf(hs[k], opts)
    {
      AnnotateIdempotent(hs[k]);
    }
  }

  // ---------------------------------------------------------------------
  // The block
  // ---------------------------------------------------------------------

  /**
   * A list item: the intro line, or a headline entry. A `collapsible` entry
   * has the click handler, an arrow link to its target and a summary that
   * starts hidden; otherwise the headline is wrapped in a link to the target.
   */
  datatype ListItem = IntroItem(html: string) | EntryItem(entry: Entry, collapsible: bool)

  /** The number of items that carry a summary: every entry item, and not the intro item. */
  function SummaryCount(items: seq<ListItem>): nat
  {
    if items == [] then 0 else (if items[0].EntryItem? then 1 else 0) + SummaryCount(items[1..])
  }

  /** Counting summaries distributes over joining two lists of items. */
  lemma {:induction false} SummaryCountAppend(a: seq<ListItem>, b: seq<ListItem>)
    ensures SummaryCount(a + b) == SummaryCount(a) + SummaryCount(b)
    decreases |a|
  {
    if a == [] {
      assert a + b == b;
    } else {
      assert (a + b)[1..] == a[1..] + b;
      SummaryCountAppend(a[1..], b);
    }
  }

  /** The returned wrapper element with its header and its list. */
  datatype Block = Block(wrapperTag: string, headerTag: string, title: string, listTag: string,
                         headlineTag: string, items: seq<ListItem>)

  /** The intro item: the shortened description when it is wanted and the page has one. */
  function IntroItems(opts: Options, description: Option<string>): seq<ListItem>
  {
    if opts.useMetaDescription && description.Some? then [IntroItem(TruncateAtWord(description.value))] else []
  }

  /** One list item per entry, collapsible exactly when the block starts collapsed with handlers. */
  function EntryItems(entries: seq<Entry>, opts: Options): (r: seq<ListItem>)
    ensures |r| == |entries|
    ensures forall k :: 0 <= k < |entries| ==> r[k] == EntryItem(entries[k], opts.collapsed && opts.addClickHandler)
  {
    seq(|entries|, k requires 0 <= k < |entries| => EntryItem(entries[k], opts.collapsed && opts.addClickHandler))
  }

  /** The list items for the entries: the intro item, if any, then one item per entry. */
  function ItemsOf(entries: seq<Entry>, opts: Options, description: Option<string>): seq<ListItem>
  {
    IntroItems(opts, description) + EntryItems(entries, opts)
  }

  /** The block `build` returns for headlines `hs`, by the values they had before the run. */
  function BlockOf(hs: seq<Headline>, opts: Options, description: Option<string>): Block
  {
    Block(ConvertToTag(opts.wrapper), ConvertToTag(opts.headerTag), opts.headerTitle,
          ListTag(opts.listType), ConvertToTag(opts.headlineTag),
          ItemsOf(EntriesOf(hs, opts), opts, description))
  }

  /**
   * Without a threshold a page with no headline still gets a block, holding
   * nothing but the intro item, if any.
   */
  lemma EmptyPageStillBuilds(opts: Options, description: Option<string>)
    requires opts.minimumHeadlines <= 0
    ensures Applicable(0, opts)
    ensures BlockOf([], opts, description).items == IntroItems(opts, description)
  {
    assert EntryItems(EntriesOf([], opts), opts) == [];
    assert IntroItems(opts, description) + [] == IntroItems(opts, description);
  }

  /**
   * The list holds one item per entry in order, after at most one intro
   * item, which is present exactly when the description is used and exists.
   */
  lemma ItemsLayout(entries: seq<Entry>, opts: Options, description: Option<string>)
    ensures var items := ItemsOf(entries, opts, description);
      var n := if opts.useMetaDescription && description.Some? then 1 else 0;
      |items| == |entries| + n
      && (n == 1 ==> items[0] == IntroItem(TruncateAtWord(description.value)))
      && forall k :: 0 <= k < |entries| ==> items[n + k] == EntryItem(entries[k], opts.collapsed && opts.addClickHandler)
  {
    var tail := EntryItems(entries, opts);
    if opts.useMetaDescription && description.Some? {
      var intro := IntroItem(TruncateAtWord(description.value));
      assert ItemsOf(entries, opts, description) == [intro] + tail;
      assert forall k :: 0 <= k < |tail| ==> ([intro] + tail)[1 + k] == tail[k];
    } else {
      assert ItemsOf(entries, opts, description) == tail;
    }
  }

  /**
   * The block lists one entry per headline in document order, each with its
   * target, its title and its summary, after the optional intro item.
   */
  lemma BlockLayout(hs: seq<Headline>, opts: Options, description: Option<string>)
    ensures var items := BlockOf(hs, opts, description).items;
      var n := if opts.useMetaDescription && description.Some? then 1 else 0;
      |items| == |hs| + n
      && (n == 1 ==> items[0] == IntroItem(TruncateAtWord(description.value)))
      && forall k :: 0 <= k < |hs| ==>
           items[n + k] == EntryItem(Entry("#" + AnchorId(hs[k]), hs[k].text, SummaryOf(hs[k], opts)),
                                     opts.collapsed && opts.addClickHandler)
  {
    ItemsLayout(EntriesOf(hs, opts), opts, description);
  }

  /** The list items for `n` entries hold exactly `n` summaries; the intro item holds none. */
  lemma {:induction false} ItemsSummaryCount(entries: seq<Entry>, opts: Options, description: Option<string>)
    ensures SummaryCount(EntryItems(entries, opts)) == |entries|
    ensures SummaryCount(IntroItems(opts, description)) == 0
    ensures SummaryCount(ItemsOf(entries, opts, description)) == |entries|
    decreases |entries|
  {
    var items := EntryItems(entries, opts);
    if entries != [] {
      ItemsSummaryCount(entries[1..], opts, description);
      assert items[1..] == EntryItems(entries[1..], opts);
    }
    if opts.useMetaDescription && description.Some? {
      assert SummaryCount(IntroItems(opts, description)) == 0 + SummaryCount([]);
    }
    SummaryCountAppend(IntroItems(opts, description), items);
  }

  /** A block carries one summary per headline. */
  lemma BlockSummaryCount(hs: seq<Headline>, opts: Options, description: Option<string>)
    ensures SummaryCount(BlockOf(hs, opts, description).items) == |hs|
  {
    ItemsSummaryCount(EntriesOf(hs, opts), opts, description);
  }

  /** Listing one more headline appends its entry. */
  lemma EntriesOfSnoc(hs: seq<Headline>, opts: Options, i: nat)
    requires i < |hs|
    ensures EntriesOf(hs[..i + 1], opts) == EntriesOf(hs[..i], opts) + [EntryOf(hs[i], opts)]
  {
    var a := EntriesOf(hs[..i + 1], opts);
    var b := EntriesOf(hs[..i], opts) + [EntryOf(hs[i], opts)];
    forall k | 0 <= k < i + 1 ensures a[k] == b[k] {
      assert hs[..i + 1][k] == hs[k];
      if k < i {
        assert hs[..i][k] == hs[k];
      }
    }
  }

  /** `$(headers).each(...)`: one list item per entry, in order. */
  method ListItems(headers: seq<Entry>, opts: Options) returns (output: seq<ListItem>)
    ensures output == EntryItems(headers, opts)
  {
    output := [];
    var j := 0;
    while j < |headers|
      invariant 0 <= j <= |headers|
      invariant output == EntryItems(headers[..j], opts)
    {
      output := output + [EntryItem(headers[j], opts.collapsed && opts.addClickHandler)];
      j := j + 1;
    }
    assert headers[..j] == headers;
  }

  /**
   * The body of `$headlineElements.each(...)` for one headline: its summary,
   * its target, and the id it carries afterwards.
   */
  method Visit(n: Headline, opts: Options) returns (entry: Entry, annotated: Headline)
    ensures entry == EntryOf(n, opts)
    ensures annotated == Annotate(n)
  {
    var summary := Summary(n, opts);
    var target;
    if Truthy(n.id) {
      target := "#" + n.id.value;
      annotated := n;
    } else {
      var id := LettersOnly(n.text);
      annotated := n.(id := Some(id));
      target := "#" + id;
    }
    entry := Entry(target, n.text, summary);
  }

  /** Annotating one more headline appends its annotated form. */
  lemma AnnotateAllSnoc(hs: seq<Headline>, i: nat)
    requires i < |hs|
    ensures AnnotateAll(hs[..i + 1]) == AnnotateAll(hs[..i]) + [Annotate(hs[i])]
  {
    var a := AnnotateAll(hs[..i + 1]);
    var b := AnnotateAll(hs[..i]) + [Annotate(hs[i])];
    forall k | 0 <= k < i + 1 ensures a[k] == b[k] {
      assert hs[..i + 1][k] == hs[k];
      if k < i {
        assert hs[..i][k] == hs[k];
      }
    }
  }

  /**
   * `$headlineElements.each(...)`: the entry of every headline, in document
   * order, with the derived id written back onto each headline that had none.
   */
  method CollectHeaders(headlines: array<Headline>, opts: Options) returns (headers: seq<Entry>)
    modifies headlines
    ensures headers == EntriesOf(old(headlines[..]), opts)
    ensures headlines[..] == AnnotateAll(old(headlines[..]))
  {
    ghost var before := headlines[..];
    headers := [];
    var i := 0;
    while i < headlines.Length
      invariant 0 <= i <= headlines.Length
      invariant headers == EntriesOf(before[..i], opts)
      invariant headlines[..i] == AnnotateAll(before[..i])
      invariant headlines[i..] == before[i..]
    {
      ghost var pre := headlines[..];
      var n := headlines[i];
      assert n == before[i] by {
        assert pre[i..][0] == before[i..][0];
      }
      var entry, annotated := Visit(n, opts);
      if !Truthy(n.id) {
        headlines[i] := annotated;
      }
      assert headlines[..] == pre[i := annotated];
      EntriesOfSnoc(before, opts, i);
      AnnotateAllSnoc(before, i);
      assert headlines[..i + 1] == pre[..i] + [annotated];
      assert headlines[i + 1..] == pre[i + 1..] == before[i + 1..];
      headers := headers + [entry];
      i := i + 1;
    }
    assert before[..i] == before;
    assert headlines[..i] == headlines[..];
  }

  /** The plugin's `build`: `None` stands for its `return false`. */
  method Build(headlines: array<Headline>, opts: Options, description: Option<string>) returns (block: Option<Block>)
    modifies headlines
    ensures block.Some? <==> Applicable(headlines.Length, opts)
    ensures block.Some? ==> block.value == BlockOf(old(headlines[..]), opts, description)
    ensures block.Some? ==> headlines[..] == AnnotateAll(old(headlines[..]))
    ensures block.None? ==> headlines[..] == old(headlines[..])
  {
    if opts.minimumHeadlines > 0 && headlines.Length < opts.minimumHeadlines {
      return None;
    }
    var headers := CollectHeaders(headlines, opts);
    var output := ListItems(headers, opts);
    if opts.useMetaDescription && description.Some? {
      var intro := TruncateAtWord(description.value);
      output := [IntroItem(intro)] + output;
    } else {
      assert [] + output == output;
    }
    block := Some(Block(ConvertToTag(opts.wrapper), ConvertToTag(opts.headerTag), opts.headerTitle,
                        ListTag(opts.listType), ConvertToTag(opts.headlineTag), output));
  }
}
