/**
 The trailing-comment locator (`getComment`, src/comment.cpp:19-51).

 Given the whole source text and a 1-based line number, it cuts out the
 line and returns what follows the first `//` met outside a double-quoted
 string, giving up on lines that hold a second statement (a second `;`)
 before any such marker. The quote tracking is a plain toggle on every `"`,
 with no notion of escapes.
 */
module CommentLocator {
  import opened Text

  /** The line-locating loop (lines 24-28): walks forward from `s`, counting
      newlines down from `line`, and stops once the count reaches 1. */
  function StartFrom(text: string, s: nat, line: int): (r: nat)
    requires s <= |text|
    ensures s <= r <= |text|
    decreases |text| - s
  {
    if s == |text| then s
    else
      var l := if text[s] == '\n' then line - 1 else line;
      if l <= 1 then s else StartFrom(text, s + 1, l)
  }

  /** Where the segment for `line` begins: index 0 for line 1, and for a
      later line the newline that ends the line before it, or the end of the
      text when the text has too few lines. */
  function SegmentStart(text: string, line: int): (s: nat)
    ensures s <= |text|
    ensures line <= 1 ==> s == 0
    ensures line >= 2 ==>
              || (s < |text| && text[s] == '\n' && Count(text[..s], '\n') == line - 2)
              || (s == |text| && Count(text, '\n') <= line - 2)
  {
    if line >= 2 then StartIsPrecedingNewline(text, 0, line, line); StartFrom(text, 0, line)
    else StartFrom(text, 0, line)
  }

  lemma {:induction false} StartIsPrecedingNewline(text: string, s: nat, l: int, line: int)
    requires s <= |text|
    requires l >= 2 && l == line - Count(text[..s], '\n')
    ensures var r := StartFrom(text, s, l);
            || (r < |text| && text[r] == '\n' && Count(text[..r], '\n') == line - 2)
            || (r == |text| && Count(text, '\n') <= line - 2)
    decreases |text| - s
  {
    if s == |text| {
      assert text[..s] == text;
    } else {
      CountStep(text, s, '\n');
      if text[s] != '\n' || l > 2 {
        StartIsPrecedingNewline(text, s + 1, if text[s] == '\n' then l - 1 else l, line);
      }
    }
  }

  /** Conversely, a newline preceded by exactly `line - 2` newlines is where
      the segment for `line` begins. */
  lemma SegmentStartAt(text: string, line: int, k: nat)
    requires line >= 2 && k < |text| && text[k] == '\n'
    requires Count(text[..k], '\n') == line - 2
    ensures SegmentStart(text, line) == k
  {
    StartReaches(text, 0, line, line, k);
  }

  lemma {:induction false} StartReaches(text: string, s: nat, l: int, line: int, k: nat)
    requires s <= k < |text| && text[k] == '\n'
    requires Count(text[..k], '\n') == line - 2
    requires l == line - Count(text[..s], '\n')
    ensures StartFrom(text, s, l) == k
    decreases k - s
  {
    CountStep(text, s, '\n');
    if s < k {
      CountSplit(text, s + 1, k, '\n');
      StartReaches(text, s + 1, if text[s] == '\n' then l - 1 else l, line, k);
    }
  }

  /** What `getComment` needs to stay inside the text (line 31): a newline
      after the first character of the segment. */
  predicate CommentDefined(text: string, line: int)
  {
    line < 1 || NewlineFrom(text, SegmentStart(text, line) + 1)
  }

  /** The segment `fulltext.substr(start, end - start)` (lines 30-33): from
      the segment start up to, not including, the next newline after it. */
  function Segment(text: string, line: int): (seg: string)
    requires line >= 1 && CommentDefined(text, line)
    ensures |seg| >= 1
    ensures SegmentStart(text, line) + |seg| < |text|
    ensures text[SegmentStart(text, line) + |seg|] == '\n'
    ensures seg == text[SegmentStart(text, line)..SegmentStart(text, line) + |seg|]
    ensures forall j :: 1 <= j < |seg| ==> seg[j] != '\n'
  {
    var s := SegmentStart(text, line);
    text[s..NextNewline(text, s + 1)]
  }

  /** Outcome of the marker search over one segment. */
  datatype Split = Marker(pos: nat) | NotFound | Blocked

  /** The marker-search loop (lines 36-46) from index `i`: `code` is the
      quote flag, `semis` the number of `;` seen outside strings. */
  function ScanLine(seg: string, i: nat, code: bool, semis: nat): (r: Split)
    ensures r.Marker? ==> i <= r.pos && MarkerAt(seg, r.pos, '/', '/')
    decreases |seg| - i
  {
    if i + 1 >= |seg| then NotFound
    else
      var code' := if seg[i] == '"' then !code else code;
      if code' && MarkerAt(seg, i, '/', '/') then Marker(i)
      else if code' && seg[i] == ';' && semis > 0 then Blocked
      else ScanLine(seg, i + 1, code', if code' && seg[i] == ';' then semis + 1 else semis)
  }

  /** getComment (lines 19-51). */
  function GetComment(text: string, line: int): (r: string)
    requires CommentDefined(text, line)
    ensures line < 1 ==> r == ""
    ensures '\n' !in r
  {
    if line < 1 then ""
    else
      var seg := Segment(text, line);
      match ScanLine(seg, 0, true, 0)
      case Marker(p) => seg[p + 2..]
      case _ => ""
  }

  // ----- What the scan computes, stated without the scan -----

  /** Position `i` of the segment lies outside a string: after `seg[i]` is
      read, an even number of `"` have been seen. */
  predicate InCode(seg: string, i: nat)
  {
    i < |seg| && Count(seg[..i + 1], '"') % 2 == 0
  }

  /** A `//` outside a string starts at `i`. */
  predicate CodeMarker(seg: string, i: nat)
  {
    MarkerAt(seg, i, '/', '/') && InCode(seg, i)
  }

  /** Number of `;` outside strings in `seg[..i]`. */
  function CodeSemicolons(seg: string, i: nat): nat
    requires i <= |seg|
  {
    if i == 0 then 0
    else CodeSemicolons(seg, i - 1) + (if seg[i - 1] == ';' && InCode(seg, i - 1) then 1 else 0)
  }

  lemma {:induction false} CodeSemicolonsMonotone(seg: string, i: nat, j: nat)
    requires i <= j <= |seg|
    ensures CodeSemicolons(seg, i) <= CodeSemicolons(seg, j)
    decreases j - i
  {
    if i < j {
      CodeSemicolonsMonotone(seg, i, j - 1);
    }
  }

  lemma {:induction false} CodeSemicolonsAtMostCount(seg: string, i: nat)
    requires i <= |seg|
    ensures CodeSemicolons(seg, i) <= Count(seg[..i], ';')
  {
    if i > 0 {
      CountStep(seg, i - 1, ';');
      CodeSemicolonsAtMostCount(seg, i - 1);
    }
  }

  /** `p` is where the comment text splits off: the first `//` outside a
      string, with fewer than two `;` outside strings before it. */
  predicate IsSplit(seg: string, p: nat)
  {
    && CodeMarker(seg, p)
    && (forall q :: 0 <= q < p ==> !CodeMarker(seg, q))
    && CodeSemicolons(seg, p) < 2
  }

  lemma {:induction false} ScanFindsSplit(seg: string, i: nat, code: bool, semis: nat)
    requires i <= |seg|
    requires code == (Count(seg[..i], '"') % 2 == 0)
    requires semis == CodeSemicolons(seg, i) && semis < 2
    requires forall q :: 0 <= q < i ==> !CodeMarker(seg, q)
    ensures ScanLine(seg, i, code, semis).Marker? ==> IsSplit(seg, ScanLine(seg, i, code, semis).pos)
    ensures forall p :: IsSplit(seg, p) ==> ScanLine(seg, i, code, semis) == Marker(p)
    decreases |seg| - i
  {
    if i + 1 < |seg| {
      CountStep(seg, i, '"');
      var code' := if seg[i] == '"' then !code else code;
      assert code' == InCode(seg, i);
      if code' && MarkerAt(seg, i, '/', '/') {
      } else if code' && seg[i] == ';' && semis > 0 {
        forall p | IsSplit(seg, p)
          ensures false
        {
          CodeSemicolonsMonotone(seg, i + 1, p);
        }
      } else {
        ScanFindsSplit(seg, i + 1, code', if code' && seg[i] == ';' then semis + 1 else semis);
      }
    }
  }

  /** The comment returned is exactly the rest of the segment after the
      split point, and empty when the segment has no split point. */
  lemma GetCommentIsTextAfterSplit(text: string, line: int)
    requires line >= 1 && CommentDefined(text, line)
    ensures forall p :: IsSplit(Segment(text, line), p) ==>
              GetComment(text, line) == Segment(text, line)[p + 2..]
    ensures (forall p :: !IsSplit(Segment(text, line), p)) ==> GetComment(text, line) == ""
    ensures GetComment(text, line) != "" ==>
              exists p :: IsSplit(Segment(text, line), p) && GetComment(text, line) == Segment(text, line)[p + 2..]
  {
    var seg := Segment(text, line);
    assert seg[..0] == [];
    ScanFindsSplit(seg, 0, true, 0);
  }

  /** A `//` preceded by an odd number of `"` on the line is never where the
      comment splits off; when every `//` on the line is like that, the
      result is empty. */
  lemma QuotedMarkersIgnored(text: string, line: int)
    requires line >= 1 && CommentDefined(text, line)
    requires forall q :: MarkerAt(Segment(text, line), q, '/', '/') ==>
               Count(Segment(text, line)[..q], '"') % 2 == 1
    ensures GetComment(text, line) == ""
  {
    var seg := Segment(text, line);
    forall p | IsSplit(seg, p)
      ensures false
    {
      CountStep(seg, p, '"');
    }
    GetCommentIsTextAfterSplit(text, line);
  }

  /** A second `;` outside strings before any `//` outside strings means the
      line holds another statement, and no comment is returned. */
  lemma SecondSemicolonBlocks(text: string, line: int, q: nat)
    requires line >= 1 && CommentDefined(text, line)
    requires q < |Segment(text, line)| && Segment(text, line)[q] == ';' && InCode(Segment(text, line), q)
    requires CodeSemicolons(Segment(text, line), q) >= 1
    requires forall j :: 0 <= j < q ==> !CodeMarker(Segment(text, line), j)
    ensures GetComment(text, line) == ""
  {
    NoSplitAfterSecondSemicolon(Segment(text, line), q);
    GetCommentIsTextAfterSplit(text, line);
  }

  lemma NoSplitAfterSecondSemicolon(seg: string, q: nat)
    requires q < |seg| && seg[q] == ';' && InCode(seg, q)
    requires CodeSemicolons(seg, q) >= 1
    requires forall j :: 0 <= j < q ==> !CodeMarker(seg, j)
    ensures forall p :: !IsSplit(seg, p)
  {
    assert CodeSemicolons(seg, q + 1) >= 2;
    forall p | IsSplit(seg, p)
      ensures false
    {
      assert !MarkerAt(seg, q, '/', '/');
      assert q < p;
      CodeSemicolonsMonotone(seg, q + 1, p);
    }
  }

  /** The segment for `line` of a text whose first `line - 1` lines are
      `before` is the newline ending `before` followed by the line itself. */
  lemma SegmentOfLine(before: string, body: string, after: string, line: int)
    requires line >= 2 && |before| > 0 && before[|before| - 1] == '\n'
    requires Count(before, '\n') == line - 1
    requires '\n' !in body
    ensures CommentDefined(before + body + "\n" + after, line)
    ensures Segment(before + body + "\n" + after, line) == ['\n'] + body
  {
    var text := before + body + "\n" + after;
    var k, e := |before| - 1, |before| + |body|;
    NewlinesBeforeLast(before, line);
    LineLayout(before, body, after, text);
    assert text[..k] == before[..k];
    SegmentBetween(text, line, k, e);
    assert Segment(text, line) == text[k..e] == ['\n'] + body;
  }

  /** Without its closing newline, `before` holds one newline fewer. */
  lemma NewlinesBeforeLast(before: string, line: int)
    requires |before| > 0 && before[|before| - 1] == '\n'
    requires Count(before, '\n') == line - 1
    ensures Count(before[..|before| - 1], '\n') == line - 2
  {
    CountStep(before, |before| - 1, '\n');
    assert before[..|before|] == before;
  }

  /** A segment that starts at the newline `k` ends at the next newline `e`. */
  lemma SegmentBetween(text: string, line: int, k: nat, e: nat)
    requires line >= 2 && k < e < |text| && text[k] == '\n' && text[e] == '\n'
    requires forall j :: k < j < e ==> text[j] != '\n'
    requires Count(text[..k], '\n') == line - 2
    ensures CommentDefined(text, line)
    ensures Segment(text, line) == text[k..e]
  {
    SegmentStartAt(text, line, k);
    assert NewlineFrom(text, k + 1);
    assert NextNewline(text, k + 1) == e;
  }

  /** Where the pieces of `before + body + "\n" + after` sit. */
  lemma LineLayout(before: string, body: string, after: string, text: string)
    requires |before| > 0 && before[|before| - 1] == '\n' && '\n' !in body
    requires text == before + body + "\n" + after
    ensures |before| + |body| < |text| && text[|before| + |body|] == '\n'
    ensures text[..|before| - 1] == before[..|before| - 1]
    ensures text[|before| - 1] == '\n'
    ensures forall j :: |before| <= j < |before| + |body| ==> text[j] != '\n'
    ensures text[|before| - 1..|before| + |body|] == ['\n'] + body
  {
    var e := |before| + |body|;
    assert forall j :: |before| <= j < e ==> text[j] == body[j - |before|];
    assert text[|before| - 1..e] == ['\n'] + body;
  }

  /** In `"\n" + code + "//" + comment`, with code free of `"`, of `//` and
      of a second `;`, the split point is the `//` after the code. */
  lemma SplitAfterCode(code: string, comment: string, body: string)
    requires '"' !in code && Count(code, ';') <= 1 && NoMarker(code, '/', '/')
    requires |code| == 0 || code[|code| - 1] != '/'
    requires body == code + "//" + comment
    ensures IsSplit(['\n'] + body, 1 + |code|)
    ensures (['\n'] + body)[|code| + 3..] == comment
  {
    var seg := ['\n'] + body;
    CodeThenMarker(['\n'], code, comment, body, seg, 1 + |code|);
    SplitAt(seg, ['\n'], code, 1 + |code|);
  }

  /** The same on line 1, whose segment has no leading newline: the split
      point is the `//` right after the code. */
  lemma SplitAfterCodeFirst(code: string, comment: string, body: string)
    requires '"' !in code && Count(code, ';') <= 1 && NoMarker(code, '/', '/')
    requires |code| == 0 || code[|code| - 1] != '/'
    requires body == code + "//" + comment
    ensures IsSplit(body, |code|)
    ensures body[|code| + 2..] == comment
  {
    var lead: string := [];
    assert lead + body == body && lead + code == code;
    CodeThenMarker(lead, code, comment, body, body, |code|);
    SplitAt(body, lead, code, |code|);
  }

  /** Where the pieces of `lead + code + "//" + comment` sit. */
  lemma CodeThenMarker(lead: string, code: string, comment: string, body: string, seg: string, p: nat)
    requires body == code + "//" + comment && seg == lead + body && p == |lead| + |code|
    ensures p + 1 < |seg|
    ensures seg[..p] == lead + code
    ensures seg[p] == '/' && seg[p + 1] == '/'
    ensures seg[p + 2..] == comment
  {
    assert seg == (lead + code) + ("//" + comment);
  }

  /** A `//` at `p` after a lead of at most a newline and code free of `"`,
      of `//` and of a second `;` is the split point. */
  lemma SplitAt(seg: string, lead: string, code: string, p: nat)
    requires lead == [] || lead == ['\n']
    requires '"' !in code && Count(code, ';') <= 1 && NoMarker(code, '/', '/')
    requires |code| == 0 || code[|code| - 1] != '/'
    requires p == |lead| + |code| && p + 1 < |seg|
    requires seg[..p] == lead + code && seg[p] == '/' && seg[p + 1] == '/'
    ensures IsSplit(seg, p)
  {
    assert '"' !in seg[..p + 1] by {
      assert seg[..p + 1] == seg[..p] + [seg[p]];
    }
    CountAbsent(seg[..p + 1], '"');
    forall q: nat | q < p
      ensures !CodeMarker(seg, q)
    {
      if |lead| <= q {
        assert seg[q] == seg[..p][q] == code[q - |lead|];
        if q + 1 < p {
          assert seg[q + 1] == seg[..p][q + 1] == code[q - |lead| + 1];
          assert !MarkerAt(code, q - |lead|, '/', '/');
        }
      } else {
        assert seg[q] == seg[..p][q] == '\n';
      }
    }
    CountAppend(lead, code, ';');
    CodeSemicolonsAtMostCount(seg, p);
  }

  /** The segment for line 1 is the first line itself, provided the line
      has at least one character: the newline search starts at index 1. */
  lemma SegmentOfFirstLine(body: string, after: string)
    requires |body| > 0 && '\n' !in body
    ensures CommentDefined(body + "\n" + after, 1)
    ensures Segment(body + "\n" + after, 1) == body
  {
    var text := body + "\n" + after;
    assert text[|body|] == '\n';
    assert forall j :: 0 <= j < |body| ==> text[j] == body[j];
    assert NewlineFrom(text, 1);
    assert NextNewline(text, 1) == |body|;
    assert text[0..|body|] == body;
  }

  /** Round trip: a line made of code with no `"`, no `//` and at most one
      `;`, then `//` and a comment, gives back the comment. */
  lemma CommentRoundTrip(before: string, code: string, comment: string, after: string, line: int)
    requires line >= 1
    requires if line == 1 then before == ""
             else |before| > 0 && before[|before| - 1] == '\n' && Count(before, '\n') == line - 1
    requires '"' !in code && '\n' !in code && Count(code, ';') <= 1 && NoMarker(code, '/', '/')
    requires |code| == 0 || code[|code| - 1] != '/'
    requires '\n' !in comment
    ensures CommentDefined(before + code + "//" + comment + "\n" + after, line)
    ensures GetComment(before + code + "//" + comment + "\n" + after, line) == comment
  {
    var body := code + "//" + comment;
    RegroupLine(before, code, comment, after);
    assert '\n' !in body by {
      assert forall j :: 0 <= j < |body| ==> body[j] in code || body[j] == '/' || body[j] in comment;
    }
    if line == 1 {
      FirstLineComment(before, code, comment, after, body);
    } else {
      LaterLineComment(before, code, comment, after, body, line);
    }
  }

  lemma FirstLineComment(before: string, code: string, comment: string, after: string, body: string)
    requires before == "" && body == code + "//" + comment && '\n' !in body
    requires '"' !in code && Count(code, ';') <= 1 && NoMarker(code, '/', '/')
    requires |code| == 0 || code[|code| - 1] != '/'
    ensures CommentDefined(before + body + "\n" + after, 1)
    ensures GetComment(before + body + "\n" + after, 1) == comment
  {
    assert before + body + "\n" + after == body + "\n" + after;
    SegmentOfFirstLine(body, after);
    SplitAfterCodeFirst(code, comment, body);
    CommentAtSplit(body + "\n" + after, 1, |code|);
  }

  lemma LaterLineComment(before: string, code: string, comment: string, after: string, body: string, line: int)
    requires line >= 2 && |before| > 0 && before[|before| - 1] == '\n' && Count(before, '\n') == line - 1
    requires body == code + "//" + comment && '\n' !in body
    requires '"' !in code && Count(code, ';') <= 1 && NoMarker(code, '/', '/')
    requires |code| == 0 || code[|code| - 1] != '/'
    ensures CommentDefined(before + body + "\n" + after, line)
    ensures GetComment(before + body + "\n" + after, line) == comment
  {
    SegmentOfLine(before, body, after, line);
    SplitAfterCode(code, comment, body);
    CommentAtSplit(before + body + "\n" + after, line, 1 + |code|);
  }

  lemma RegroupLine(before: string, code: string, comment: string, after: string)
    ensures before + code + "//" + comment + "\n" + after == before + (code + "//" + comment) + "\n" + after
  {
  }

  /** At a split point the comment is the rest of the segment. */
  lemma CommentAtSplit(text: string, line: int, p: nat)
    requires line >= 1 && CommentDefined(text, line) && IsSplit(Segment(text, line), p)
    ensures GetComment(text, line) == Segment(text, line)[p + 2..]
  {
    GetCommentIsTextAfterSplit(text, line);
  }
}
