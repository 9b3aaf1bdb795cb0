/**
 * The plugin's string helpers: `trim`, `getSentences`, `truncateAtWord` and
 * `convertToTag`, plus the `/(ol|ul)/` test on the list type. Each regular
 * expression of the plugin is written out as a small scanner over `string`.
 */
module TextHelpers {
  import opened Wrappers

  // ---------------------------------------------------------------------
  // Character classes of JavaScript regular expressions (no `u` flag)
  // ---------------------------------------------------------------------

  /** `\s`: the white space and line terminator characters. */
  predicate IsSpace(c: char)
  {
    c == ' ' || c == '\t' || c == '\n' || c == '\U{000B}' || c == '\U{000C}' || c == '\r'
    || c == '\U{00A0}' || c == '\U{1680}' || ('\U{2000}' <= c <= '\U{200A}')
    || c == '\U{2028}' || c == '\U{2029}' || c == '\U{202F}' || c == '\U{205F}'
    || c == '\U{3000}' || c == '\U{FEFF}'
  }

  /** The characters that `.` does not match. */
  predicate IsLineTerminator(c: char)
  {
    c == '\n' || c == '\r' || c == '\U{2028}' || c == '\U{2029}'
  }

  /** `\w`. */
  predicate IsWordChar(c: char)
  {
    ('a' <= c <= 'z') || ('A' <= c <= 'Z') || ('0' <= c <= '9') || c == '_'
  }

  /** `[\?\.\!]`, the end of a sentence. */
  predicate IsSentenceEnd(c: char)
  {
    c == '?' || c == '.' || c == '!'
  }

  /** `[\?\!\.,;:-]`, the punctuation `truncateAtWord` strips before the ellipsis. */
  predicate IsClosingPunct(c: char)
  {
    c == '?' || c == '!' || c == '.' || c == ',' || c == ';' || c == ':' || c == '-'
  }

  /** `[a-z]` under the `i` flag. */
  predicate IsLetter(c: char)
  {
    ('a' <= c <= 'z') || ('A' <= c <= 'Z')
  }

  /** `s` holds no character `.` refuses. */
  predicate NoLineTerminator(s: string)
  {
    forall k :: 0 <= k < |s| ==> !IsLineTerminator(s[k])
  }

  // ---------------------------------------------------------------------
  // trim
  // ---------------------------------------------------------------------

  /** The first index at or after `i` that does not hold white space. */
  function SpaceRunEnd(s: string, i: nat): (j: nat)
    requires i <= |s|
    ensures i <= j <= |s|
    ensures j == |s| || !IsSpace(s[j])
    decreases |s| - i
  {
    if i < |s| && IsSpace(s[i]) then SpaceRunEnd(s, i + 1) else i
  }

  /** The length `s[..n]` keeps once its trailing white space is dropped. */
  function SpaceRunStart(s: string, n: nat): (m: nat)
    requires n <= |s|
    ensures m <= n
    ensures m == 0 || !IsSpace(s[m - 1])
  {
    if n > 0 && IsSpace(s[n - 1]) then SpaceRunStart(s, n - 1) else n
  }

  // `replace(/^\s*/, '')`: drops the leading white space.
  function TrimStart(s: string): string
  {
    s[SpaceRunEnd(s, 0)..]
  }

  /** `replace(/\s*$/, '')`: drops the trailing white space. */
  function TrimEnd(s: string): string
  {
    s[..SpaceRunStart(s, |s|)]
  }

  /** `TrimStart` drops white space only. */
  lemma {:induction false} TrimStartDropsSpace(s: string, i: nat)
    requires i <= |s|
    ensures forall k :: i <= k < SpaceRunEnd(s, i) ==> IsSpace(s[k])
    decreases |s| - i
  {
    if i < |s| && IsSpace(s[i]) {
      TrimStartDropsSpace(s, i + 1);
    }
  }

  /** `TrimEnd` drops white space only. */
  lemma {:induction false} TrimEndDropsSpace(s: string, n: nat)
    requires n <= |s|
    ensures forall k :: SpaceRunStart(s, n) <= k < n ==> IsSpace(s[k])
  {
    if n > 0 && IsSpace(s[n - 1]) {
      TrimEndDropsSpace(s, n - 1);
    }
  }

  /** The index of the first `c` at or after `i`, or -1. */
  function IndexFrom(s: string, c: char, i: nat): (j: int)
    requires i <= |s|
    ensures j == -1 || (i <= j < |s| && s[j] == c)
    decreases |s| - i
  {
    if i == |s| then -1
    else if s[i] == c then i
    else IndexFrom(s, c, i + 1)
  }

  /** `s.indexOf(c)`. */
  function IndexOf(s: string, c: char): (j: int)
    ensures j == -1 || (0 <= j < |s| && s[j] == c)
  {
    IndexFrom(s, c, 0)
  }

  /** `IndexFrom` finds the first occurrence: none lies between `i` and it. */
  lemma {:induction false} IndexFromIsFirst(s: string, c: char, i: nat)
    requires i <= |s|
    ensures var j := IndexFrom(s, c, i);
      forall k :: i <= k < |s| && (j == -1 || k < j) ==> s[k] != c
    decreases |s| - i
  {
    if i < |s| && s[i] != c {
      IndexFromIsFirst(s, c, i + 1);
    }
  }

  /** The first index at or after `i` that does not hold a line feed. */
  function NewlineRunEnd(s: string, i: nat): (j: nat)
    requires i <= |s|
    ensures i <= j <= |s|
    ensures j == |s| || s[j] != '\n'
    ensures i < j ==> s[j - 1] == '\n'
    ensures forall k :: i <= k < j ==> s[k] == '\n'
    decreases |s| - i
  {
    if i < |s| && s[i] == '\n' then NewlineRunEnd(s, i + 1) else i
  }

  /** `replace(/\n+/, ' ')`: without the `g` flag only the FIRST run of line feeds becomes one space. */
  function ReplaceFirstNewlineRun(s: string): string
  {
    var j := IndexOf(s, '\n');
    if j < 0 then s else s[..j] + " " + s[NewlineRunEnd(s, j)..]
  }

  /** Splicing one space between `s[..j]` and `s[e..]`: where each part lands. */
  lemma SpliceShape(s: string, j: nat, e: nat)
    requires j <= e <= |s|
    ensures var r := s[..j] + " " + s[e..];
      |r| == j + 1 + (|s| - e) && r[..j] == s[..j] && r[j] == ' '
      && r[j + 1..] == s[e..] && (e < |s| ==> r[j + 1] == s[e])
  {
    var r := s[..j] + " " + s[e..];
    assert r[j + 1..] == s[e..];
  }

  /**
   * Text without a line feed is unchanged; otherwise the text before the
   * first line feed is kept, its whole run becomes exactly one space, and
   * the text after the run follows unchanged.
   */
  lemma ReplaceFirstNewlineRunShape(s: string)
    ensures IndexOf(s, '\n') < 0 <==> '\n' !in s
    ensures '\n' !in s ==> ReplaceFirstNewlineRun(s) == s
    ensures var j := IndexOf(s, '\n'); var r := ReplaceFirstNewlineRun(s);
      j >= 0 ==>
        j < |r| && r[..j] == s[..j] && '\n' !in s[..j] && r[j] == ' '
        && r[j + 1..] == s[NewlineRunEnd(s, j)..]
        && (j + 1 == |r| || r[j + 1] != '\n')
  {
    IndexFromIsFirst(s, '\n', 0);
    var j := IndexOf(s, '\n');
    if j >= 0 {
      var e := NewlineRunEnd(s, j);
      SpliceShape(s, j, e);
      assert ReplaceFirstNewlineRun(s) == s[..j] + " " + s[e..];
      assert '\n' !in s[..j] by {
        forall k | 0 <= k < j ensures s[..j][k] != '\n' {
          assert s[..j][k] == s[k];
        }
      }
    }
  }

  /** Replacing the first run of line feeds keeps the ends of text that has no white space at its ends. */
  lemma ReplaceFirstNewlineRunKeepsEnds(core: string)
    requires core == [] || (!IsSpace(core[0]) && !IsSpace(core[|core| - 1]))
    ensures var r := ReplaceFirstNewlineRun(core);
      |r| <= |core| && (r == [] || (!IsSpace(r[0]) && !IsSpace(r[|r| - 1])))
  {
    var j := IndexOf(core, '\n');
    if j >= 0 {
      var e := NewlineRunEnd(core, j);
      assert e < |core|;
      var r := core[..j] + " " + core[e..];
      assert r[|r| - 1] == core[|core| - 1];
    }
  }

  /** `trim(text)` of the plugin. */
  function Trim(text: string): (r: string)
    ensures |r| <= |text|
    ensures r == [] || (!IsSpace(r[0]) && !IsSpace(r[|r| - 1]))
  {
    var core := TrimEnd(TrimStart(text));
    ReplaceFirstNewlineRunKeepsEnds(core);
    ReplaceFirstNewlineRun(core)
  }

  /** `TrimStart` keeps a suffix of the text that does not start with white space, and drops only white space. */
  lemma TrimStartKeepsSuffix(s: string)
    ensures var r := TrimStart(s);
      r == s[|s| - |r|..]
      && (r == [] || !IsSpace(r[0]))
      && forall k :: 0 <= k < |s| - |r| ==> IsSpace(s[k])
  {
    TrimStartDropsSpace(s, 0);
  }

  /** `TrimEnd` keeps a prefix of the text that does not end with white space, and drops only white space. */
  lemma TrimEndKeepsPrefix(s: string)
    ensures var r := TrimEnd(s);
      r == s[..|r|]
      && (r == [] || !IsSpace(r[|r| - 1]))
      && forall k :: |r| <= k < |s| ==> IsSpace(s[k])
  {
    TrimEndDropsSpace(s, |s|);
  }

  /** Text without leading or trailing white space and without a line feed is left as it is. */
  lemma TrimKeepsCleanText(text: string)
    requires text == [] || (!IsSpace(text[0]) && !IsSpace(text[|text| - 1]))
    requires '\n' !in text
    ensures Trim(text) == text
  {
    assert TrimStart(text) == text;
    assert TrimEnd(text) == text;
  }

  /** Only the first run of line feeds becomes a space; a later one survives. */
  lemma TrimReplacesOnlyFirstRun()
    ensures Trim("a\nb\nc") == "a b\nc"
  {
    var s := "a\nb\nc";
    assert !IsSpace(s[0]) && !IsSpace(s[4]);
    assert TrimStart(s) == s;
    assert TrimEnd(s) == s;
    assert IndexFrom(s, '\n', 1) == 1;
    assert IndexOf(s, '\n') == 1;
    assert NewlineRunEnd(s, 2) == 2;
    assert NewlineRunEnd(s, 1) == 2;
    assert s[..1] + " " + s[2..] == "a b\nc";
    assert ReplaceFirstNewlineRun(s) == "a b\nc";
  }

  // ---------------------------------------------------------------------
  // getSentences: /\w.+?[\?\.\!]/g
  // ---------------------------------------------------------------------

  /**
   * `s[i..e]` is the match of `\w.+?[\?\.\!]` that starts at `i`: a word
   * character, then at least one character that is not a line terminator, up
   * to and including the FIRST sentence end after that (the `+?` is lazy).
   */
  predicate IsMatch(s: string, i: int, e: int)
  {
    0 <= i && i + 3 <= e <= |s|
    && IsWordChar(s[i])
    && IsSentenceEnd(s[e - 1])
    && (forall k :: i < k < e ==> !IsLineTerminator(s[k]))
    && (forall k :: i + 2 <= k < e - 1 ==> !IsSentenceEnd(s[k]))
  }

  /** A match of that expression starts at `i` and ends at no more than one place. */
  lemma MatchIsUnique(s: string, i: int, e1: int, e2: int)
    requires IsMatch(s, i, e1) && IsMatch(s, i, e2)
    ensures e1 == e2
  {
  }

  /** The lazy `.+?[\?\.\!]` scan, having reached position `k`. */
  function LazyEnd(s: string, i: nat, k: nat): (e: Option<nat>)
    requires i + 2 <= k <= |s| && IsWordChar(s[i])
    requires forall j :: i < j < k ==> !IsLineTerminator(s[j])
    requires forall j :: i + 2 <= j < k ==> !IsSentenceEnd(s[j])
    ensures e.Some? ==> IsMatch(s, i, e.value)
    ensures e.None? ==> forall e' :: !IsMatch(s, i, e')
    decreases |s| - k
  {
    if k == |s| then None
    else if IsSentenceEnd(s[k]) then Some(k + 1)
    else if IsLineTerminator(s[k]) then None
    else LazyEnd(s, i, k + 1)
  }

  /** The end of the match that starts at position `i`, if there is one. */
  function MatchAt(s: string, i: nat): (e: Option<nat>)
    requires i <= |s|
    ensures e.Some? ==> IsMatch(s, i, e.value)
    ensures e.None? ==> forall e' :: !IsMatch(s, i, e')
  {
    if i + 2 <= |s| && IsWordChar(s[i]) && !IsLineTerminator(s[i + 1]) then LazyEnd(s, i, i + 2)
    else None
  }

  /** The matches of the `g` scan from position `i` on, as index pairs. */
  function MatchSpans(s: string, i: nat): (spans: seq<(nat, nat)>)
    requires i <= |s|
    ensures forall k :: 0 <= k < |spans| ==> IsMatch(s, spans[k].0, spans[k].1)
    ensures forall k :: 0 <= k < |spans| ==> i <= spans[k].0
    decreases |s| - i
  {
    if i == |s| then []
    else
      match MatchAt(s, i)
      case Some(e) => [(i, e)] + MatchSpans(s, e)
      case None => MatchSpans(s, i + 1)
  }

  /** Each span ends at or before the start of every later one. */
  predicate Ordered(spans: seq<(nat, nat)>)
  {
    forall k, l :: 0 <= k < l < |spans| ==> spans[k].1 <= spans[l].0
  }

  /** A span that ends before the next one starts extends an ordered list of spans. */
  lemma OrderedCons(span: (nat, nat), rest: seq<(nat, nat)>)
    requires Ordered(rest)
    requires forall k :: 0 <= k < |rest| ==> span.1 <= rest[k].0
    ensures Ordered([span] + rest)
  {
    var spans := [span] + rest;
    forall k, l | 0 <= k < l < |spans| ensures spans[k].1 <= spans[l].0 {
      assert spans[l] == rest[l - 1];
      if k > 0 {
        assert spans[k] == rest[k - 1];
      }
    }
  }

  /** The matches come in order and do not overlap: the scan resumes after each one. */
  lemma {:induction false} MatchSpansOrdered(s: string, i: nat)
    requires i <= |s|
    ensures Ordered(MatchSpans(s, i))
    decreases |s| - i
  {
    if i < |s| {
      match MatchAt(s, i)
      case Some(e) =>
        MatchSpansOrdered(s, e);
        OrderedCons((i, e), MatchSpans(s, e));
      case None =>
        MatchSpansOrdered(s, i + 1);
    }
  }

  /** Position `j` lies inside one of the spans. */
  predicate Covered(spans: seq<(nat, nat)>, j: nat)
  {
    exists k :: 0 <= k < |spans| && spans[k].0 <= j < spans[k].1
  }

  /** Putting one more span in front keeps a covered position covered. */
  lemma CoveredCons(span: (nat, nat), rest: seq<(nat, nat)>, j: nat)
    requires Covered(rest, j)
    ensures Covered([span] + rest, j)
  {
    var k :| 0 <= k < |rest| && rest[k].0 <= j < rest[k].1;
    assert ([span] + rest)[k + 1] == rest[k];
  }

  /**
   * The scan misses nothing: every position at or after `i` where a match
   * could start lies inside one of the matches found.
   */
  lemma {:induction false} MatchSpansMissNothing(s: string, i: nat, j: nat)
    requires i <= j < |s|
    requires MatchAt(s, j).Some?
    ensures Covered(MatchSpans(s, i), j)
    decreases |s| - i
  {
    match MatchAt(s, i)
    case Some(e) =>
      var rest := MatchSpans(s, e);
      assert MatchSpans(s, i) == [(i, e)] + rest;
      if j < e {
        assert ([(i, e)] + rest)[0] == (i, e);
      } else {
        MatchSpansMissNothing(s, e, j);
        CoveredCons((i, e), rest, j);
      }
    case None =>
      MatchSpansMissNothing(s, i + 1, j);
  }

  /** One match as the text it covers. */
  predicate IsSentence(x: string)
  {
    |x| >= 3
    && IsWordChar(x[0])
    && IsSentenceEnd(x[|x| - 1])
    && (forall k :: 0 < k < |x| ==> !IsLineTerminator(x[k]))
    && (forall k :: 2 <= k < |x| - 1 ==> !IsSentenceEnd(x[k]))
  }

  /** The text of a match is a sentence. */
  lemma MatchText(s: string, i: int, e: int)
    requires IsMatch(s, i, e)
    ensures IsSentence(s[i..e])
  {
    var x := s[i..e];
    forall k | 0 < k < |x| ensures !IsLineTerminator(x[k]) {
      assert x[k] == s[i + k];
    }
    forall k | 2 <= k < |x| - 1 ensures !IsSentenceEnd(x[k]) {
      assert x[k] == s[i + k];
    }
  }

  /** `text.match(/\w.+?[\?\.\!]/g)`, with the empty sequence for `null`. */
  function Sentences(s: string): (r: seq<string>)
    ensures forall k :: 0 <= k < |r| ==> IsSentence(r[k])
  {
    var spans := MatchSpans(s, 0);
    var r := seq(|spans|, k requires 0 <= k < |spans| => s[spans[k].0..spans[k].1]);
    assert forall k :: 0 <= k < |r| ==> IsSentence(r[k]) by {
      forall k | 0 <= k < |r| ensures IsSentence(r[k]) {
        MatchText(s, spans[k].0, spans[k].1);
      }
    }
    r
  }

  /** `parts.join(sep)`. */
  function Join(parts: seq<string>, sep: string): string
  {
    if |parts| == 0 then ""
    else if |parts| == 1 then parts[0]
    else parts[0] + sep + Join(parts[1..], sep)
  }

  /** Joining the first `n` parts gives a prefix of joining them all. */
  lemma {:induction false} JoinPrefix(parts: seq<string>, sep: string, n: nat)
    requires n <= |parts|
    ensures Join(parts[..n], sep) <= Join(parts, sep)
  {
    if n >= 2 {
      assert parts[..n][1..] == parts[1..][..n - 1];
      JoinPrefix(parts[1..], sep, n - 1);
    }
  }

  /** The end index `Array.prototype.slice(0, end)` uses. */
  function SliceEnd(len: nat, end: int): (r: nat)
    ensures r <= len
  {
    if end >= 0 then Min(end, len)
    else if len + end >= 0 then len + end
    else 0
  }

  /** `getSentences(text, count)` of the plugin. */
  function GetSentences(text: string, count: int): string
  {
    var t := Trim(text);
    var matches := Sentences(t);
    if |matches| > 0 then
      if count == 0 then Join(matches, " ")
      else Join(matches[..SliceEnd(|matches|, count)], " ")
    else t
  }

  /**
   * Without a sentence the trimmed text comes back; otherwise a positive
   * limit starts with the first sentence, and no limit (or one that covers
   * every sentence) gives all of them joined by single spaces. A negative
   * limit drops that many sentences from the end, as `slice` does.
   */
  lemma GetSentencesFacts(text: string, count: int)
    ensures var all := Sentences(Trim(text));
      (all == [] ==> GetSentences(text, count) == Trim(text))
      && (all != [] && count > 0 ==> all[0] <= GetSentences(text, count))
      && (all != [] && count > 0 ==> GetSentences(text, count) == Join(all[..Min(count, |all|)], " "))
      && (all != [] && (count == 0 || count >= |all|) ==> GetSentences(text, count) == Join(all, " "))
      && (all != [] && count < 0 && |all| + count >= 0 ==> GetSentences(text, count) == Join(all[..|all| + count], " "))
      && (all != [] && |all| + count < 0 ==> GetSentences(text, count) == "")
  {
    var all := Sentences(Trim(text));
    if all != [] && count != 0 {
      var taken := all[..SliceEnd(|all|, count)];
      if count > 0 {
        assert taken[..1] == [all[0]];
        JoinPrefix(taken, " ", 1);
      }
      if count >= |all| {
        assert taken == all;
      }
    }
  }

  /** A positive sentence limit keeps a prefix of what the unlimited call returns. */
  lemma GetSentencesPrefix(text: string, count: int)
    requires count > 0
    ensures GetSentences(text, count) <= GetSentences(text, 0)
  {
    var matches := Sentences(Trim(text));
    if |matches| > 0 {
      JoinPrefix(matches, " ", SliceEnd(|matches|, count));
    }
  }

  /** The scan of "Ab. Cd!" finds two matches and skips the space between them. */
  lemma ScanExample()
    ensures MatchSpans("Ab. Cd!", 0) == [(0, 3), (4, 7)]
  {
    var s := "Ab. Cd!";
    assert MatchSpans(s, 7) == [];
    assert LazyEnd(s, 4, 6) == Some(7);
    assert MatchSpans(s, 4) == [(4, 7)];
    assert MatchAt(s, 3) == None;
    assert MatchSpans(s, 3) == [(4, 7)];
    assert LazyEnd(s, 0, 2) == Some(3);
  }

  /** The matched texts of the example. */
  lemma SentencesExample()
    ensures Sentences("Ab. Cd!") == ["Ab.", "Cd!"]
  {
    var s := "Ab. Cd!";
    ScanExample();
    assert s[0..3] == "Ab." && s[4..7] == "Cd!";
  }

  /** One sentence is kept by a limit of one; none drops nothing. */
  lemma GetSentencesExample()
    ensures GetSentences("Ab. Cd!", 1) == "Ab."
    ensures GetSentences("Ab. Cd!", 0) == "Ab. Cd!"
  {
    var s := "Ab. Cd!";
    SentencesExample();
    TrimKeepsCleanText(s);
    var all := ["Ab.", "Cd!"];
    assert all[..1] == ["Ab."];
    assert Join(all[1..], " ") == "Cd!";
  }

  // ---------------------------------------------------------------------
  // truncateAtWord
  // ---------------------------------------------------------------------

  const Ellipsis: string := "&hellip;"

  /** `s.lastIndexOf(c)`. */
  function LastIndexOf(s: string, c: char): (i: int)
    ensures -1 <= i < |s|
    ensures i >= 0 ==> s[i] == c
  {
    if s == [] then -1
    else if s[|s| - 1] == c then |s| - 1
    else LastIndexOf(s[..|s| - 1], c)
  }

  /** No `c` follows the index `LastIndexOf` returns; -1 means `c` does not occur. */
  lemma {:induction false} LastIndexOfIsLast(s: string, c: char)
    ensures forall k :: LastIndexOf(s, c) < k < |s| ==> s[k] != c
  {
    if s != [] && s[|s| - 1] != c {
      var t := s[..|s| - 1];
      LastIndexOfIsLast(t, c);
      forall k | LastIndexOf(s, c) < k < |s| ensures s[k] != c {
        if k < |t| {
          assert s[k] == t[k];
        }
      }
    }
  }

  /**
   * What `truncateAtWord` keeps before the ellipsis:
   * `text.substring(0, text.lastIndexOf(" ")).replace(/[\?\!\.,;:-]$/, '')`.
   * `substring(0, -1)` is `substring(0, 0)`, so text without a space keeps nothing.
   */
  function TruncatedBody(text: string): string
  {
    var space := LastIndexOf(text, ' ');
    var head := text[..if space < 0 then 0 else space];
    if head != [] && IsClosingPunct(head[|head| - 1]) then head[..|head| - 1] else head
  }

  /**
   * The body is the text before its last space, less one closing punctuation
   * character if that is where it ends; it is shorter than any non-empty text.
   */
  lemma TruncatedBodyShape(text: string)
    ensures var space := LastIndexOf(text, ' ');
      var cut := if space < 0 then 0 else space;
      var body := TruncatedBody(text);
      body <= text
      && (forall k :: space < k < |text| ==> text[k] != ' ')
      && cut - 1 <= |body| <= cut
      && (|body| < cut ==> IsClosingPunct(text[cut - 1]))
      && (|body| == cut && cut > 0 ==> !IsClosingPunct(text[cut - 1]))
      && (text != [] ==> |body| < |text|)
  {
    LastIndexOfIsLast(text, ' ');
  }

  /** `truncateAtWord(text)` of the plugin. */
  function TruncateAtWord(text: string): string
  {
    TruncatedBody(text) + Ellipsis
  }

  /** The result is the kept body followed by the eight characters of `&hellip;`. */
  lemma TruncateAtWordShape(text: string)
    ensures var r := TruncateAtWord(text);
      |r| == |TruncatedBody(text)| + 8
      && r[..|r| - 8] == TruncatedBody(text) && r[|r| - 8..] == Ellipsis
      && r[..|r| - 8] <= text
  {
    TruncatedBodyShape(text);
  }

  /** Text without a space truncates to the bare ellipsis. */
  lemma TruncateWithoutSpace(text: string)
    requires ' ' !in text
    ensures TruncateAtWord(text) == Ellipsis
  {
    assert LastIndexOf(text, ' ') < 0;
  }

  /** Only ONE punctuation character is stripped, so the body may still end with one. */
  lemma TruncateStripsOnePunctuation()
    ensures TruncatedBody("Wait.. now") == "Wait."
  {
    var s := "Wait.. now";
    assert LastIndexOf(s[..7], ' ') == 6;
    assert s[..8][..7] == s[..7];
    assert LastIndexOf(s[..8], ' ') == 6;
    assert s[..9][..8] == s[..8];
    assert LastIndexOf(s[..9], ' ') == 6;
    assert s[..9] == s[..|s| - 1];
    assert LastIndexOf(s, ' ') == 6;
  }

  /** No space is stripped: a space before the last one stays in front of the ellipsis. */
  lemma TruncateMayKeepSpace()
    ensures TruncateAtWord("a  b") == "a " + Ellipsis
  {
    var s := "a  b";
    assert LastIndexOf(s[..2], ' ') == 1;
    assert s[..3][..2] == s[..2];
    assert LastIndexOf(s[..3], ' ') == 2;
    assert s[..3] == s[..|s| - 1];
    assert LastIndexOf(s, ' ') == 2;
    assert s[..2] == "a ";
  }

  // ---------------------------------------------------------------------
  // convertToTag and the list type
  // ---------------------------------------------------------------------

  /** `/^<.*>$/.test(s)`. */
  predicate IsTag(s: string)
  {
    |s| >= 2 && s[0] == '<' && s[|s| - 1] == '>'
    && forall k :: 0 < k < |s| - 1 ==> !IsLineTerminator(s[k])
  }

  /** `convertToTag(input)` of the plugin. */
  function ConvertToTag(input: string): (r: string)
    ensures |r| >= 2 && r[0] == '<' && r[|r| - 1] == '>'
    ensures r == input || r == "<" + input + ">"
    ensures r == input <==> IsTag(input)
    ensures NoLineTerminator(input) ==> IsTag(r)
  {
    if !IsTag(input) then "<" + input + ">" else input
  }

  /** On input without line terminators, converting twice is converting once. */
  lemma ConvertToTagIdempotent(input: string)
    requires NoLineTerminator(input)
    ensures ConvertToTag(ConvertToTag(input)) == ConvertToTag(input)
  {
  }

  /** A line terminator inside defeats the `.*`, so the input is wrapped again on each call. */
  lemma ConvertToTagWrapsMultiline()
    ensures ConvertToTag("<a\nb>") == "<<a\nb>>"
    ensures ConvertToTag(ConvertToTag("<a\nb>")) == "<<<a\nb>>>"
  {
    assert "<a\nb>"[2] == '\n';
    assert "<<a\nb>>"[3] == '\n';
  }

  /**
   * Input holding a line terminator anywhere is never a tag, and neither is
   * its wrapped form, so every further call wraps it once more.
   */
  lemma ConvertToTagAlwaysWrapsMultiline(input: string)
    requires !NoLineTerminator(input)
    ensures ConvertToTag(input) == "<" + input + ">"
    ensures !NoLineTerminator(ConvertToTag(input))
  {
    var k :| 0 <= k < |input| && IsLineTerminator(input[k]);
    var r := "<" + input + ">";
    assert r[k + 1] == input[k];
  }

  /** `/(ol|ul)/.test(s)`: `ol` or `ul` occurs anywhere in `s`. */
  predicate MentionsList(s: string)
  {
    exists k :: 0 <= k < |s| - 1 && (s[k] == 'o' || s[k] == 'u') && s[k + 1] == 'l'
  }

  /** The tag of the summary list: `/(ol|ul)/.test(listType) ? convertToTag(listType) : '<ol>'`. */
  function ListTag(listType: string): (r: string)
    ensures MentionsList(r)
    ensures IsTag(r) || !NoLineTerminator(listType)
    ensures !MentionsList(listType) ==> r == "<ol>"
    ensures IsTag(listType) && MentionsList(listType) ==> r == listType
    ensures MentionsList(listType) && !IsTag(listType) ==> r == "<" + listType + ">"
  {
    if MentionsList(listType) then
      var r := ConvertToTag(listType);
      assert MentionsList(r) by {
        var k :| 0 <= k < |listType| - 1 && (listType[k] == 'o' || listType[k] == 'u') && listType[k + 1] == 'l';
        if r != listType {
          assert r[k + 1] == listType[k] && r[k + 2] == listType[k + 1];
        }
      }
      r
    else
      assert "<ol>"[1] == 'o' && "<ol>"[2] == 'l';
      "<ol>"
  }
}
