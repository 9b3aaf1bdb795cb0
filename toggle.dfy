/**
 * The click handler `build` attaches to each headline of a collapsed block:
 * which summaries of the list are shown after each click. A summary's
 * visibility is a `bool`, `true` for shown; the slide animations are left out.
 */
module Collapse {
  import opened Tldr

  /** The handler is attached only when the block starts collapsed and click handlers are wanted. */
  predicate HasHandler(opts: Options)
  {
    opts.collapsed && opts.addClickHandler
  }

  /** At most one summary of the list is shown. */
  predicate AtMostOneOpen(vis: seq<bool>)
  {
    forall k, l :: 0 <= k < |vis| && 0 <= l < |vis| && vis[k] && vis[l] ==> k == l
  }

  /** Every summary of the list is hidden. */
  function AllClosed(n: nat): (vis: seq<bool>)
    ensures |vis| == n && forall k :: 0 <= k < n ==> !vis[k]
  {
    seq(n, _ => false)
  }

  /** A collapsed block hides its `n` summaries (`display: none`); any other block shows them. */
  function InitialVisibility(n: nat, opts: Options): (vis: seq<bool>)
    ensures |vis| == n
    ensures forall k :: 0 <= k < n ==> vis[k] == !HasHandler(opts)
  {
    seq(n, _ => !HasHandler(opts))
  }

  /**
   * The visibility after a click on headline `i`. A click whose target is an
   * `A` element (the arrow link) is left to the browser. Otherwise the accordion first
   * slides every summary up; the clicked summary then slides down if it was
   * hidden before the click and up if it was shown, since `:visible` still
   * sees a summary whose slide-up has only just begun.
   */
  function AfterClick(vis: seq<bool>, i: nat, targetIsLink: bool, opts: Options): seq<bool>
    requires i < |vis|
  {
    if !HasHandler(opts) || targetIsLink then vis
    else (if opts.accordion then AllClosed(|vis|) else vis)[i := !vis[i]]
  }

  /** A click whose target is an `A` element (the arrow link), or on a block without the handler, changes nothing. */
  lemma ClickWithoutEffect(vis: seq<bool>, i: nat, targetIsLink: bool, opts: Options)
    requires i < |vis|
    requires targetIsLink || !HasHandler(opts)
    ensures AfterClick(vis, i, targetIsLink, opts) == vis
  {
  }

  /** A handled click flips the clicked summary and keeps the list's length. */
  lemma ClickFlipsTarget(vis: seq<bool>, i: nat, opts: Options)
    requires i < |vis| && HasHandler(opts)
    ensures |AfterClick(vis, i, false, opts)| == |vis|
    ensures AfterClick(vis, i, false, opts)[i] == !vis[i]
  {
  }

  /** Without the accordion a click touches no other summary. */
  lemma ClickLeavesOthers(vis: seq<bool>, i: nat, opts: Options)
    requires i < |vis| && !opts.accordion
    ensures forall k :: 0 <= k < |vis| && k != i ==> AfterClick(vis, i, false, opts)[k] == vis[k]
  {
  }

  /** With the accordion every other summary is hidden after a click, whatever was shown before. */
  lemma AccordionClosesOthers(vis: seq<bool>, i: nat, opts: Options)
    requires i < |vis| && HasHandler(opts) && opts.accordion
    ensures forall k :: 0 <= k < |vis| && k != i ==> !AfterClick(vis, i, false, opts)[k]
    ensures AtMostOneOpen(AfterClick(vis, i, false, opts))
  {
  }

  /**
   * The accordion's outcome depends only on the clicked summary before the
   * click: shown means every summary ends hidden, hidden means it alone ends shown.
   */
  lemma AccordionOutcome(vis: seq<bool>, i: nat, opts: Options)
    requires i < |vis| && HasHandler(opts) && opts.accordion
    ensures vis[i] ==> AfterClick(vis, i, false, opts) == AllClosed(|vis|)
    ensures !vis[i] ==> AfterClick(vis, i, false, opts) == AllClosed(|vis|)[i := true]
  {
    if vis[i] {
      assert AllClosed(|vis|)[i := false] == AllClosed(|vis|);
    }
  }

  /** Opening headline `b` of an accordion closes the summary of headline `a` that was open. */
  lemma OpeningOneClosesAnother(vis: seq<bool>, a: nat, b: nat, opts: Options)
    requires a < |vis| && b < |vis| && a != b
    requires HasHandler(opts) && opts.accordion
    requires vis[a] && !vis[b]
    ensures AfterClick(vis, b, false, opts)[b] && !AfterClick(vis, b, false, opts)[a]
  {
  }

  /** Without the accordion a second click on the same headline undoes the first. */
  lemma DoubleClickRestores(vis: seq<bool>, i: nat, opts: Options)
    requires i < |vis| && !opts.accordion
    ensures AfterClick(AfterClick(vis, i, false, opts), i, false, opts) == vis
  {
  }

  /**
   * With the accordion two clicks on the same headline hide every other
   * summary and leave the clicked one as it was, so a list with at most
   * that summary shown comes back unchanged.
   */
  lemma AccordionDoubleClick(vis: seq<bool>, i: nat, opts: Options)
    requires i < |vis| && HasHandler(opts) && opts.accordion
    ensures var twice := AfterClick(AfterClick(vis, i, false, opts), i, false, opts);
      twice[i] == vis[i] && forall k :: 0 <= k < |vis| && k != i ==> !twice[k]
    ensures (forall k :: 0 <= k < |vis| && k != i ==> !vis[k])
      ==> AfterClick(AfterClick(vis, i, false, opts), i, false, opts) == vis
  {
    var once := AfterClick(vis, i, false, opts);
    var twice := AfterClick(once, i, false, opts);
    assert once[i] == !vis[i];
    if forall k :: 0 <= k < |vis| && k != i ==> !vis[k] {
      assert forall k :: 0 <= k < |vis| ==> twice[k] == vis[k];
    }
  }

  /** The summaries of one block, as the handlers of its headlines see and change them. */
  class SummaryList {
    /** The options the handlers were built with. */
    const opts: Options
    /** Which summaries are shown, by the position of their headline in the list. */
    var visible: seq<bool>

    /** Without the handler every summary stays shown; an accordion never shows two. */
    predicate Valid()
      reads this
    {
      (!HasHandler(opts) ==> forall k :: 0 <= k < |visible| ==> visible[k])
      && (HasHandler(opts) && opts.accordion ==> AtMostOneOpen(visible))
    }

    /** The summaries of a block's list items as `build` creates them, one per entry item. */
    constructor (items: seq<ListItem>, opts: Options)
      ensures this.opts == opts
      ensures visible == InitialVisibility(SummaryCount(items), opts)
      ensures Valid()
    {
      this.opts := opts;
      visible := InitialVisibility(SummaryCount(items), opts);
    }

    /** The handler of headline `i`, for a click whose target is an `A` element (the arrow link) or not. */
    method Click(i: nat, targetIsLink: bool)
      requires Valid() && i < |visible|
      modifies this
      ensures visible == AfterClick(old(visible), i, targetIsLink, opts)
      ensures Valid()
    {
      if !HasHandler(opts) || targetIsLink {
        return;
      }
      var wasVisible := visible[i];
      if opts.accordion {
        visible := AllClosed(|visible|);
      }
      visible := visible[i := !wasVisible];
    }
  }
}
