// Completeness of collectGroups (src/comment.cpp:95-172): which block
// comments the pass records, and on which line.
module GroupHeadings {
  import opened Text
  import opened GroupCollector

  lemma CountFirst(text: string, i: nat, j: nat, c: char)
    requires i < j <= |text|
    ensures Count(text[i..j], c) == (if text[i] == c then 1 else 0) + Count(text[i + 1..j], c)
  {
    CountSlices(text, i, i + 1, j, c);
    assert text[i..i + 1][..0] == [];
  }

  /** Whether `p` is a stretch the pass reads outside strings, from start to end, without
      opening a block comment: plain characters; whole `//` comments, each
      ended by its newline; string literals closed within the stretch with
      no `//` inside; and lone `/` characters followed, within the stretch,
      by neither `*` nor `/`. Whatever a `//` comment or a string holds,
      comment openers included, is skipped. */
  function Skim(p: string): bool
    decreases |p|
  {
    if p == [] then true
    else if MarkerAt(p, 0, '/', '/') then NewlineFrom(p, 2) && Skim(p[NextNewline(p, 2) + 1..])
    else if p[0] == '"' then
      '"' in p[1..] &&
      var k := IndexOf(p[1..], '"') + 1;
      NoMarker(p[1..k], '/', '/') && Skim(p[k + 1..])
    else if p[0] == '/' then |p| > 1 && p[1] != '*' && Skim(p[1..])
    else Skim(p[1..])
  }

  /** `p` is skimmed. Stated as an equality so that a caller's copy of the
      fact is matched as one term rather than unfolded case by case. */
  predicate Skimmed(p: string)
  {
    Skim(p) == true
  }

  /** A `//` comment outside a block comment is skipped up to and including
      its newline, and the counter moves on by exactly one line: the pass
      from `i` gives what the pass from just after the newline gives on the
      next line. */
  lemma LineCommentSkipped(text: string, i: nat, lineNo: int, code: bool)
    requires MarkerAt(text, i, '/', '/') && NewlineFrom(text, i + 2)
    ensures ScanDefined(text, i, code) == ScanDefined(text, NextNewline(text, i + 2) + 1, code)
    ensures ScanDefined(text, i, code) ==>
              CollectFrom(text, i, lineNo, code) == CollectFrom(text, NextNewline(text, i + 2) + 1, lineNo + 1, code)
  {
  }

  /** A `//` comment that opens a stretch `p` at `i` ends, in the whole
      text, at the newline that ends it in `p`; the pass skips it and moves
      on by one line. */
  lemma LineCommentAt(text: string, i: nat, p: string, j: nat, lineNo: int, code: bool)
    requires j == i + |p| <= |text| && text[i..j] == p
    requires MarkerAt(p, 0, '/', '/') && NewlineFrom(p, 2)
    ensures Skips(text, i, lineNo, i + NextNewline(p, 2) + 1, lineNo + 1, code)
  {
    var k := NextNewline(p, 2);
    assert text[i] == p[0] && text[i + 1] == p[1] && text[i + k] == p[k];
    forall m | i + 2 <= m < i + k
      ensures text[m] != '\n'
    {
      assert text[m] == p[m - i];
    }
    assert NextNewline(text, i + 2) == i + k;
    LineCommentSkipped(text, i, lineNo, code);
  }

  /** The newlines of a text whose first newline is at `k`: that one, and
      those after it. */
  lemma FirstNewline(p: string, k: nat)
    requires k < |p| && p[k] == '\n' && forall m :: 0 <= m < k ==> p[m] != '\n'
    ensures Count(p, '\n') == 1 + Count(p[k + 1..], '\n')
  {
    assert p == p[..k + 1] + p[k + 1..];
    CountAppend(p[..k + 1], p[k + 1..], '\n');
    CountStep(p, k, '\n');
    assert p[..k + 1][..k] == p[..k];
    CountAbsent(p[..k], '\n');
  }

  /** What the pass from `i` on line `lineNo` comes to: whether it stays
      inside the text and, if so, the entries it records. */
  function Outcome(text: string, i: nat, lineNo: int, code: bool): (bool, seq<GroupEntry>)
    requires i <= |text|
  {
    if ScanDefined(text, i, code) then (true, CollectFrom(text, i, lineNo, code)) else (false, [])
  }

  /** Between `i` and `j` the pass with quote flag `code` records nothing
      and moves the counter from `lineNo` to `l`: it stays inside the text
      from `i` on exactly when it does from `j` on, and then records the
      same entries. */
  predicate Skips(text: string, i: nat, lineNo: int, j: nat, l: int, code: bool)
    requires i <= j <= |text|
  {
    Outcome(text, i, lineNo, code) == Outcome(text, j, l, code)
  }

  /** `Skips` spelled out. */
  lemma SkipsMeans(text: string, i: nat, lineNo: int, j: nat, l: int, code: bool)
    requires i <= j <= |text|
    ensures Skips(text, i, lineNo, j, l, code) <==>
              && ScanDefined(text, i, code) == ScanDefined(text, j, code)
              && (ScanDefined(text, j, code) ==> CollectFrom(text, i, lineNo, code) == CollectFrom(text, j, l, code))
  {
  }

  /** Skipping from `i` to `j` and then from `j` to `m` skips from `i` to `m`. */
  lemma SkipsChain(text: string, i: nat, lineNo: int, j: nat, l: int, m: nat, e: int, code: bool)
    requires i <= j <= m <= |text|
    requires Skips(text, i, lineNo, j, l, code) && Skips(text, j, l, m, e, code)
    ensures Skips(text, i, lineNo, m, e, code)
  {
  }

  /** A character that neither toggles the quote flag nor starts a `//`
      comment, nor a block comment outside strings, is passed over, moving
      the counter on when it is a newline. */
  lemma PlainSkipped(text: string, i: nat, lineNo: int, code: bool)
    requires i < |text| && text[i] != '"' && !MarkerAt(text, i, '/', '/')
    requires !(code && MarkerAt(text, i, '/', '*'))
    ensures Skips(text, i, lineNo, i + 1, if text[i] == '\n' then lineNo + 1 else lineNo, code)
  {
  }

  /** A skimmed stretch `p` reached at `i` outside strings adds no entry,
      leaves the pass outside strings and only moves the line counter on by
      its newlines: one per `//` comment, and one per newline elsewhere,
      inside string literals included. */
  lemma {:induction false} SkimStretch(text: string, i: nat, p: string, j: nat, lineNo: int, l: int)
    requires j == i + |p| <= |text| && text[i..j] == p && Skimmed(p)
    requires l == lineNo + Count(p, '\n')
    ensures Skips(text, i, lineNo, j, l, true)
    decreases |p|, 1
  {
    if p == [] {
      assert i == j;
    } else if MarkerAt(p, 0, '/', '/') {
      SkimLine(text, i, p, j, lineNo, l);
    } else if p[0] == '"' {
      SkimQuote(text, i, p, j, lineNo, l);
    } else {
      SkimChar(text, i, p, j, lineNo, l);
    }
  }

  /** The case of a stretch that opens with a `//` comment. */
  lemma {:induction false} SkimLine(text: string, i: nat, p: string, j: nat, lineNo: int, l: int)
    requires j == i + |p| <= |text| && text[i..j] == p && Skimmed(p) && MarkerAt(p, 0, '/', '/')
    requires l == lineNo + Count(p, '\n')
    ensures Skips(text, i, lineNo, j, l, true)
    decreases |p|, 0
  {
    var k := NextNewline(p, 2);
    FirstNewline(p, k);
    StretchTail(text, i, p, j, k + 1);
    LineCommentAt(text, i, p, j, lineNo, true);
    SkipThenStretch(text, i, lineNo, i + k + 1, p[k + 1..], j, lineNo + 1, l);
  }

  /** Skipping from `i` to `e`, then a skimmed rest from `e` to `j`, skips
      from `i` to `j`. */
  lemma {:induction false} SkipThenStretch(text: string, i: nat, lineNo: int, e: nat, rest: string, j: nat, m: int, l: int)
    requires i <= e && j == e + |rest| <= |text| && text[e..j] == rest && Skimmed(rest)
    requires Skips(text, i, lineNo, e, m, true) && l == m + Count(rest, '\n')
    ensures Skips(text, i, lineNo, j, l, true)
    decreases |rest|, 2
  {
    SkimStretch(text, e, rest, j, m, l);
    SkipsChain(text, i, lineNo, e, m, j, l, true);
  }

  /** The case of a stretch that opens with a string literal. */
  lemma {:induction false} SkimQuote(text: string, i: nat, p: string, j: nat, lineNo: int, l: int)
    requires j == i + |p| <= |text| && text[i..j] == p && Skimmed(p) && p != [] && p[0] == '"'
    requires l == lineNo + Count(p, '\n')
    ensures Skips(text, i, lineNo, j, l, true)
    decreases |p|, 0
  {
    var k := IndexOf(p[1..], '"') + 1;
    QuoteParts(p);
    QuoteLayout(text, i, p, j, k);
    QuoteCount(p, k);
    QuoteThenStretch(text, i, p[1..k], i + k, p[k + 1..], j, lineNo, lineNo + Count(p[1..k], '\n'), l);
  }

  /** A string literal closed at `e`, then a skimmed rest up to `j`. */
  lemma {:induction false} QuoteThenStretch(text: string, i: nat, s: string, e: nat, rest: string, j: nat, lineNo: int, m: int, l: int)
    requires e == i + 1 + |s| < |text| && text[i] == '"' && text[e] == '"'
    requires text[i + 1..e] == s && '"' !in s && NoMarker(s, '/', '/')
    requires m == lineNo + Count(s, '\n')
    requires j == e + 1 + |rest| <= |text| && text[e + 1..j] == rest && Skimmed(rest)
    requires l == m + Count(rest, '\n')
    ensures Skips(text, i, lineNo, j, l, true)
    decreases |rest|, 2
  {
    QuotedSkipped(text, i, s, e, lineNo, m);
    SkimStretch(text, e + 1, rest, j, m, l);
    SkipsChain(text, i, lineNo, e + 1, m, j, l, true);
  }

  /** Where a string literal that opens a stretch sits in the whole text. */
  lemma QuoteLayout(text: string, i: nat, p: string, j: nat, k: nat)
    requires j == i + |p| <= |text| && text[i..j] == p && 0 < k < |p| && p[0] == '"' && p[k] == '"'
    ensures text[i] == '"' && text[i + 1..i + k] == p[1..k] && text[i + k] == '"'
    ensures text[i + k + 1..j] == p[k + 1..]
  {
    assert forall a :: 0 <= a < |p| ==> text[i + a] == p[a];
    assert text[i] == p[0] && text[i + k] == p[k];
  }

  /** What a skimmed stretch that opens with a quote holds: a string
      literal closed at `k`, with no quote and no `//` inside, and a
      skimmed rest. */
  lemma QuoteParts(p: string)
    requires Skimmed(p) && p != [] && p[0] == '"'
    ensures '"' in p[1..]
    ensures var k := IndexOf(p[1..], '"') + 1;
            && 0 < k < |p| && p[k] == '"' && '"' !in p[1..k]
            && NoMarker(p[1..k], '/', '/') && Skimmed(p[k + 1..])
  {
    var k := IndexOf(p[1..], '"') + 1;
    assert p[1..k] == p[1..][..k - 1];
  }

  /** The converse of `QuoteParts`: a string literal closed at `k`, with
      no quote and no `//` inside, then a skimmed rest, is skimmed. */
  lemma QuoteJoin(p: string, k: nat)
    requires 0 < k < |p| && p[0] == '"' && p[k] == '"' && '"' !in p[1..k]
    requires NoMarker(p[1..k], '/', '/') && Skimmed(p[k + 1..])
    ensures Skimmed(p)
  {
    assert p[1..][k - 1] == '"' && p[1..][..k - 1] == p[1..k];
    assert IndexOf(p[1..], '"') == k - 1;
  }

  /** The newlines of a stretch that opens with the string literal closed
      at `k`: those inside the literal, and those after it. */
  lemma QuoteCount(p: string, k: nat)
    requires 0 < k < |p| && p[0] == '"' && p[k] == '"'
    ensures Count(p, '\n') == Count(p[1..k], '\n') + Count(p[k + 1..], '\n')
  {
    assert p == [p[0]] + p[1..k] + [p[k]] + p[k + 1..];
    CountAppend([p[0]] + p[1..k] + [p[k]], p[k + 1..], '\n');
    CountAppend([p[0]] + p[1..k], [p[k]], '\n');
    CountAppend([p[0]], p[1..k], '\n');
    assert [p[0]][..0] == [] && [p[k]][..0] == [];
  }

  /** A string literal reached outside strings (lines 110-113): its
      opening quote enters the string, its characters add no entry and
      move the counter on by its newlines, and its closing quote leaves the
      pass outside strings again. A block comment opener inside it opens
      nothing. */
  lemma QuotedSkipped(text: string, i: nat, s: string, e: nat, lineNo: int, l: int)
    requires e == i + 1 + |s| < |text| && text[i] == '"' && text[e] == '"'
    requires text[i + 1..e] == s && '"' !in s && NoMarker(s, '/', '/')
    requires l == lineNo + Count(s, '\n')
    ensures Skips(text, i, lineNo, e + 1, l, true)
  {
    StringRun(text, i + 1, s, e, lineNo, l);
    QuoteToggles(text, i, lineNo, true);
    QuoteToggles(text, e, l, false);
  }

  /** A quote flips the flag and adds nothing. */
  lemma QuoteToggles(text: string, i: nat, lineNo: int, code: bool)
    requires i < |text| && text[i] == '"'
    ensures Outcome(text, i, lineNo, code) == Outcome(text, i + 1, lineNo, !code)
  {
  }

  /** Inside a string, up to the closing quote at `j`, the pass adds no
      entry and counts the newlines. */
  lemma {:induction false} StringRun(text: string, i: nat, s: string, j: nat, lineNo: int, l: int)
    requires j == i + |s| < |text| && text[i..j] == s && text[j] == '"'
    requires '"' !in s && NoMarker(s, '/', '/')
    requires l == lineNo + Count(s, '\n')
    ensures Skips(text, i, lineNo, j, l, false)
    decreases |s|
  {
    if s != [] {
      var m := if s[0] == '\n' then lineNo + 1 else lineNo;
      StringStep(text, i, s, j);
      PlainSkipped(text, i, lineNo, false);
      StringRun(text, i + 1, s[1..], j, m, l);
      SkipsChain(text, i, lineNo, i + 1, m, j, l, false);
    }
  }

  /** The first character of a string's text is an ordinary one, and the
      rest of the text is again such a text. */
  lemma StringStep(text: string, i: nat, s: string, j: nat)
    requires j == i + |s| < |text| && text[i..j] == s && text[j] == '"'
    requires '"' !in s && NoMarker(s, '/', '/') && s != []
    ensures text[i] == s[0] && text[i] != '"' && !MarkerAt(text, i, '/', '/')
    ensures text[i + 1..j] == s[1..] && '"' !in s[1..] && NoMarker(s[1..], '/', '/')
    ensures Count(s, '\n') == (if s[0] == '\n' then 1 else 0) + Count(s[1..], '\n')
  {
    assert text[i] == s[0] && s[0] in s;
    assert text[i + 1] == (if |s| > 1 then s[1] else '"');
    assert !MarkerAt(s, 0, '/', '/');
    CountFirst(s, 0, |s|, '\n');
    assert s[0..|s|] == s && s[1..|s|] == s[1..];
    assert '"' !in s[1..] by { assert forall c :: c in s[1..] ==> c in s; }
    forall a | 0 <= a < |s| - 1
      ensures !MarkerAt(s[1..], a, '/', '/')
    {
      assert !MarkerAt(s, a + 1, '/', '/');
    }
  }

  /** The rest of a stretch from its `a`-th character on sits at `i + a`. */
  lemma StretchTail(text: string, i: nat, p: string, j: nat, a: nat)
    requires j == i + |p| <= |text| && text[i..j] == p && a <= |p|
    ensures text[i + a..j] == p[a..]
  {
  }

  /** The case of a stretch that opens with a character other than `"`,
      a lone `/` included. */
  lemma {:induction false} SkimChar(text: string, i: nat, p: string, j: nat, lineNo: int, l: int)
    requires j == i + |p| <= |text| && text[i..j] == p && Skimmed(p)
    requires p != [] && !MarkerAt(p, 0, '/', '/') && p[0] != '"'
    requires l == lineNo + Count(p, '\n')
    ensures Skips(text, i, lineNo, j, l, true)
    decreases |p|, 0
  {
    var m := if p[0] == '\n' then lineNo + 1 else lineNo;
    assert text[i] == p[0];
    if p[0] == '/' {
      assert text[i + 1] == p[1];
    }
    assert text[i + 1..j] == p[1..];
    PlainSkipped(text, i, lineNo, true);
    CountFirst(p, 0, |p|, '\n');
    assert p[0..|p|] == p && p[1..|p|] == p[1..];
    SkipThenStretch(text, i, lineNo, i + 1, p[1..], j, m, l);
  }

  /** Text with no `"` and no `/` is skimmed one character at a time. */
  lemma {:induction false} PlainIsSkimmed(p: string)
    requires '"' !in p && '/' !in p
    ensures Skimmed(p)
    decreases |p|
  {
    if p != [] {
      assert p[0] in p;
      assert forall c :: c in p[1..] ==> c in p;
      PlainIsSkimmed(p[1..]);
    }
  }

  /** Two skimmed stretches in a row make one. */
  lemma {:induction false} SkimmedAppend(a: string, b: string)
    requires Skimmed(a) && Skimmed(b)
    ensures Skimmed(a + b)
    decreases |a|, 1
  {
    if a == [] {
      assert a + b == b;
    } else if MarkerAt(a, 0, '/', '/') {
      AppendLine(a, b);
    } else if a[0] == '"' {
      AppendQuote(a, b);
    } else {
      AppendChar(a, b);
    }
  }

  /** The case of a first stretch that opens with a `//` comment. */
  lemma {:induction false} AppendLine(a: string, b: string)
    requires Skimmed(a) && Skimmed(b) && MarkerAt(a, 0, '/', '/')
    ensures Skimmed(a + b)
    decreases |a|, 0
  {
    var k := NextNewline(a, 2);
    assert (a + b)[k] == '\n';
    assert NewlineFrom(a + b, 2);
    assert NextNewline(a + b, 2) == k;
    assert (a + b)[k + 1..] == a[k + 1..] + b;
    SkimmedAppend(a[k + 1..], b);
  }

  /** The case of a first stretch that opens with a string literal. */
  lemma {:induction false} AppendQuote(a: string, b: string)
    requires Skimmed(a) && Skimmed(b) && a != [] && a[0] == '"'
    ensures Skimmed(a + b)
    decreases |a|, 0
  {
    var k := IndexOf(a[1..], '"') + 1;
    QuoteParts(a);
    assert (a + b)[1..k] == a[1..k] && (a + b)[k] == a[k];
    assert (a + b)[k + 1..] == a[k + 1..] + b;
    SkimmedAppend(a[k + 1..], b);
    QuoteJoin(a + b, k);
  }

  /** The case of a first stretch that opens with any other character. */
  lemma {:induction false} AppendChar(a: string, b: string)
    requires Skimmed(a) && Skimmed(b) && a != [] && !MarkerAt(a, 0, '/', '/') && a[0] != '"'
    ensures Skimmed(a + b)
    decreases |a|, 0
  {
    assert (a + b)[1..] == a[1..] + b;
    SkimmedAppend(a[1..], b);
  }

  /** A `//` comment with its newline is skimmed and holds one newline. */
  lemma LineOnly(comment: string)
    requires '\n' !in comment
    ensures Skimmed("//" + comment + "\n")
    ensures Count("//" + comment + "\n", '\n') == 1
  {
    var tail := "//" + comment + "\n";
    forall m | 2 <= m < |tail| - 1
      ensures tail[m] != '\n'
    {
      assert tail[m] == comment[m - 2];
    }
    assert tail[|tail| - 1] == '\n';
    assert NextNewline(tail, 2) == |tail| - 1;
    assert tail[|tail|..] == [];
    FirstNewline(tail, |tail| - 1);
  }

  /** A line of plain code ended by a `//` comment is skimmed, and it moves
      the counter on by the code's own newlines plus the comment's one,
      whatever the comment holds. */
  lemma CommentedLine(code: string, comment: string)
    requires '"' !in code && '/' !in code && '\n' !in comment
    ensures Skimmed(code + "//" + comment + "\n")
    ensures Count(code + "//" + comment + "\n", '\n') == Count(code, '\n') + 1
  {
    var tail := "//" + comment + "\n";
    assert code + "//" + comment + "\n" == code + tail;
    LineOnly(comment);
    PlainIsSkimmed(code);
    SkimmedAppend(code, tail);
    CountAppend(code, tail, '\n');
  }

  /** A string literal with no quote and no `//` inside is skimmed, and it
      holds the newlines of its text. */
  lemma StringLiteral(s: string)
    requires '"' !in s && NoMarker(s, '/', '/')
    ensures Skimmed("\"" + s + "\"")
    ensures Count("\"" + s + "\"", '\n') == Count(s, '\n')
  {
    var q := "\"" + s + "\"";
    assert q[1..|s| + 1] == s && q[|s| + 2..] == [];
    QuoteJoin(q, |s| + 1);
    CountAppend("\"" + s, "\"", '\n');
    CountAppend("\"", s, '\n');
  }

  /** A `/` followed by a skimmed rest that starts with neither `*` nor
      `/`, as in a division, is skimmed and adds no newline. */
  lemma LoneSlash(rest: string)
    requires Skimmed(rest) && rest != [] && rest[0] != '*' && rest[0] != '/'
    ensures Skimmed("/" + rest) && Count("/" + rest, '\n') == Count(rest, '\n')
  {
    assert ("/" + rest)[1..] == rest;
    CountAppend("/", rest, '\n');
  }

  /** A block comment opened outside a string at `j`, whose inner text
      `body` never closes it early: the pass records one entry for it,
      labelled from `body` and on the counter's current line, and resumes
      on the closing `/`. */
  lemma BlockRecorded(text: string, j: nat, body: string, lineNo: int)
    requires MarkerAt(text, j, '/', '*') && NoMarker(body, '*', '/')
    requires j + 2 + |body| <= |text| && text[j + 2..j + 2 + |body|] == body
    requires MarkerAt(text, j + 2 + |body|, '*', '/')
    ensures ScanDefined(text, j, true) == ScanDefined(text, j + |body| + 3, true)
    ensures ScanDefined(text, j, true) ==>
              CollectFrom(text, j, lineNo, true) ==
              [GroupEntry(Label(body), lineNo)] + CollectFrom(text, j + |body| + 3, lineNo, true)
  {
    var k := j + 2 + |body|;
    forall m | j + 2 <= m < k
      ensures !MarkerAt(text, m, '*', '/')
    {
      if m + 1 < k {
        assert text[m] == body[m - j - 2] && text[m + 1] == body[m - j - 1];
        assert !MarkerAt(body, m - j - 2, '*', '/');
      }
    }
    assert MarkerFrom(text, j + 2, '*', '/');
    assert NextMarker(text, j + 2, '*', '/') == k;
  }

  /** A heading after a skimmed start: when the text before the first
      comment opener is plain code and `//` comments, the first entry is
      that block comment's label, on the line the comment starts on. Each
      `//` comment before it counts for exactly one line. */
  lemma HeadingFound(text: string, before: string, body: string, after: string)
    requires text == before + "/*" + body + "*/" + after
    requires Skimmed(before) && NoMarker(body, '*', '/')
    requires ScanDefined(text, 0, true)
    ensures |CollectGroups(text)| > 0
    ensures CollectGroups(text)[0] == GroupEntry(Label(body), 1 + Count(before, '\n'))
  {
    HeadingLayout(text, before, body, after);
    HeadingAt(text, |before|, body, 1 + Count(before, '\n'));
  }

  /** Where the pieces of `before + "/*" + body + "*/" + after` sit. */
  lemma HeadingLayout(text: string, before: string, body: string, after: string)
    requires text == before + "/*" + body + "*/" + after
    ensures |before| + |body| + 4 <= |text|
    ensures MarkerAt(text, |before|, '/', '*')
    ensures text[|before| + 2..|before| + 2 + |body|] == body
    ensures MarkerAt(text, |before| + 2 + |body|, '*', '/')
    ensures text[..|before|] == before
  {
    Layout(text, before, body, after);
  }

  /** Where the pieces of `p + "/*" + body + "*/" + rest` sit. */
  lemma Layout(u: string, p: string, body: string, rest: string)
    requires u == p + "/*" + body + "*/" + rest
    ensures |u| == |p| + |body| + 4 + |rest|
    ensures u[..|p|] == p
    ensures u[|p|] == '/' && u[|p| + 1] == '*'
    ensures u[|p| + 2..|p| + 2 + |body|] == body
    ensures u[|p| + 2 + |body|] == '*' && u[|p| + 3 + |body|] == '/'
    ensures u[|p| + |body| + 4..] == rest
  {
    var w1 := p + "/*";
    var w2 := w1 + body;
    var w3 := w2 + "*/";
    PrefixKept(u, w3, rest);
    PrefixKept(w3, w2, "*/");
    PrefixKept(w2, w1, body);
    PrefixKept(w1, p, "/*");
    assert u[|p|] == w1[|p|] && u[|p| + 1] == w1[|p| + 1];
    assert u[|w2|] == w3[|w2|] && u[|w2| + 1] == w3[|w2| + 1];
    SliceOfPrefix(u, w3, |w1|, |w2|);
    SliceOfPrefix(w3, w2, |w1|, |w2|);
    SliceOfPrefix(u, w3, 0, |p|);
    SliceOfPrefix(w3, w2, 0, |p|);
    SliceOfPrefix(w2, w1, 0, |p|);
    assert u[..|p|] == u[0..|p|];
  }

  /** Slices of a suffix are slices of the whole text, shifted. */
  lemma SuffixSlice(text: string, i: nat, a: nat, b: nat)
    requires i <= |text| && a <= b <= |text| - i
    ensures text[i + a..i + b] == text[i..][a..b]
    ensures text[i + a..] == text[i..][a..]
  {
  }

  /** A slice inside a known prefix is that prefix's slice. */
  lemma SliceOfPrefix(s: string, p: string, i: nat, j: nat)
    requires |p| <= |s| && s[..|p|] == p && i <= j <= |p|
    ensures s[i..j] == p[i..j]
  {
    assert forall k :: i <= k < j ==> s[k] == s[..|p|][k];
  }

  /** The first `|a|` characters of `a + b` are those of `a`, the rest those of `b`. */
  lemma PrefixKept(s: string, a: string, b: string)
    requires s == a + b
    ensures s[..|a|] == a && s[|a|..] == b
    ensures forall k :: 0 <= k < |a| ==> s[k] == a[k]
    ensures forall k :: 0 <= k < |b| ==> s[|a| + k] == b[k]
  {
  }

  /** The same, stated by positions: a skimmed start of length `n`, then
      a block comment with inner text `body`; `l` is the line the counter
      shows when it reaches the comment. */
  lemma HeadingAt(text: string, n: nat, body: string, l: int)
    requires n + |body| + 4 <= |text|
    requires Skimmed(text[..n])
    requires MarkerAt(text, n, '/', '*') && NoMarker(body, '*', '/')
    requires text[n + 2..n + 2 + |body|] == body && MarkerAt(text, n + 2 + |body|, '*', '/')
    requires l == 1 + Count(text[..n], '\n')
    ensures ScanDefined(text, 0, true) == ScanDefined(text, n + |body| + 3, true)
    ensures ScanDefined(text, 0, true) ==>
              && |CollectGroups(text)| > 0
              && CollectGroups(text)[0] == GroupEntry(Label(body), l)
              && CollectGroups(text)[1..] == CollectFrom(text, n + |body| + 3, l, true)
  {
    assert text[0..0 + n] == text[..n];
    SkimStretch(text, 0, text[..n], n, 1, l);
    CommentFrom(text, 0, n, body, 1, l);
  }

  /** The pass started at `i` on line `lineNo` stays inside the text and
      yields exactly `entries`. */
  predicate ReadsAs(text: string, i: nat, lineNo: int, entries: seq<GroupEntry>)
    requires i <= |text|
  {
    Outcome(text, i, lineNo, true) == (true, entries)
  }

  /** The outcome `o` of a later pass, with `found` recorded before it. */
  function After(found: seq<GroupEntry>, o: (bool, seq<GroupEntry>)): (bool, seq<GroupEntry>)
  {
    if o.0 then (true, found + o.1) else (false, [])
  }

  /** Between `i` and `j` the pass yields `found` and moves the counter
      from `lineNo` to `l`: it stays inside the text from `i` on exactly
      when it does from `j` on, and then records `found` before what it
      records from `j`. */
  predicate Leads(text: string, i: nat, lineNo: int, found: seq<GroupEntry>, j: nat, l: int)
    requires i <= j <= |text|
  {
    Outcome(text, i, lineNo, true) == After(found, Outcome(text, j, l, true))
  }

  /** The same, stated by positions from index `i`: a stretch of length
      `n` the pass skips from line `lineNo` to line `l`, then a block
      comment with inner text `body`, give exactly one entry, on line `l`. */
  lemma CommentFrom(text: string, i: nat, n: nat, body: string, lineNo: int, l: int)
    requires i + n + |body| + 4 <= |text| && Skips(text, i, lineNo, i + n, l, true)
    requires MarkerAt(text, i + n, '/', '*') && NoMarker(body, '*', '/')
    requires text[i + n + 2..i + n + 2 + |body|] == body && MarkerAt(text, i + n + 2 + |body|, '*', '/')
    ensures Leads(text, i, lineNo, [GroupEntry(Label(body), l)], i + n + |body| + 3, l)
  {
    BlockRecorded(text, i + n, body, l);
    SkipThenLead(text, i, lineNo, i + n, l, [GroupEntry(Label(body), l)], i + n + |body| + 3);
  }

  /** A `/` followed by neither `*` nor `/` (or ending the text) is passed
      over like any other character. */
  lemma SlashStep(text: string, k: nat, lineNo: int, rest: seq<GroupEntry>)
    requires k < |text| && text[k] == '/'
    requires k + 1 < |text| ==> text[k + 1] != '*' && text[k + 1] != '/'
    requires ReadsAs(text, k + 1, lineNo, rest)
    ensures ReadsAs(text, k, lineNo, rest)
  {
  }

  /** Skipping from `i` to `m` and then reading on to `j` reads from `i`
      to `j`. */
  lemma SkipThenLead(text: string, i: nat, lineNo: int, m: nat, l: int, found: seq<GroupEntry>, j: nat)
    requires i <= m <= j <= |text|
    requires Skips(text, i, lineNo, m, l, true) && Leads(text, m, l, found, j, l)
    ensures Leads(text, i, lineNo, found, j, l)
  {
  }

  /** Reading from `i` up to a comment's closing `/` at `k`, then on from
      just after it, reads from `i`. */
  lemma ClosedThenRead(text: string, i: nat, lineNo: int, found: seq<GroupEntry>, k: nat, l: int, rest: seq<GroupEntry>, all: seq<GroupEntry>)
    requires i <= k < |text| && text[k] == '/' && all == found + rest
    requires k + 1 < |text| ==> text[k + 1] != '*' && text[k + 1] != '/'
    requires Leads(text, i, lineNo, found, k, l) && ReadsAs(text, k + 1, l, rest)
    ensures ReadsAs(text, i, lineNo, all)
  {
    SlashStep(text, k, l, rest);
    Chain(text, i, lineNo, found, k, l, rest, all);
  }

  /** Reading from `i` to `j` and then on from `j` reads from `i`. */
  lemma Chain(text: string, i: nat, lineNo: int, found: seq<GroupEntry>, j: nat, l: int, rest: seq<GroupEntry>, all: seq<GroupEntry>)
    requires i <= j <= |text| && all == found + rest
    requires Leads(text, i, lineNo, found, j, l) && ReadsAs(text, j, l, rest)
    ensures ReadsAs(text, i, lineNo, all)
  {
  }

  /** Where the pieces of `p + "/*" + body + "*/" + rest` sit when it
      starts at index `i`. */
  lemma CommentLayout(text: string, i: nat, p: string, body: string, rest: string)
    requires i <= |text| && text[i..] == p + "/*" + body + "*/" + rest
    ensures i + |p| + |body| + 4 <= |text|
    ensures text[i..i + |p|] == p
    ensures forall k :: i <= k < i + |p| ==> text[k] == p[k - i]
    ensures MarkerAt(text, i + |p|, '/', '*')
    ensures text[i + |p| + 2..i + |p| + 2 + |body|] == body
    ensures MarkerAt(text, i + |p| + 2 + |body|, '*', '/')
    ensures text[i + |p| + |body| + 4..] == rest
  {
    var u := text[i..];
    Layout(u, p, body, rest);
    SuffixSlice(text, i, 0, |p|);
    SuffixSlice(text, i, |p| + 2, |p| + 2 + |body|);
    SuffixSlice(text, i, |p| + |body| + 4, |u|);
    assert u[..|p|] == u[0..|p|];
    forall k | i <= k < i + |p|
      ensures text[k] == p[k - i]
    {
      assert text[k] == u[k - i] == u[..|p|][k - i];
    }
    assert text[i + |p|] == u[|p|] && text[i + |p| + 1] == u[|p| + 1];
    assert text[i + |p| + 2 + |body|] == u[|p| + 2 + |body|] && text[i + |p| + 3 + |body|] == u[|p| + 3 + |body|];
  }

  /** A text of skimmed stretches with block comments between them:
      `plains[0] /* bodies[0] */ plains[1] ... /* bodies[n-1] */ plains[n]`. */
  function Document(plains: seq<string>, bodies: seq<string>): string
    requires |plains| == |bodies| + 1
    decreases |bodies|
  {
    if bodies == [] then plains[0]
    else plains[0] + "/*" + bodies[0] + "*/" + Document(plains[1..], bodies[1..])
  }

  /** The entries such a document is meant to give: one per comment, in
      order, labelled from its inner text, on the line reached by counting
      the newlines of the plain stretches only (newlines inside a block
      comment are not counted). */
  function Headings(plains: seq<string>, bodies: seq<string>, lineNo: int): seq<GroupEntry>
    requires |plains| == |bodies| + 1
    decreases |bodies|
  {
    if bodies == [] then []
    else
      var l := lineNo + Count(plains[0], '\n');
      [GroupEntry(Label(bodies[0]), l)] + Headings(plains[1..], bodies[1..], l)
  }

  /** A document the pass reads comment by comment: skimmed stretches,
      comments that do not close early, and after each comment a stretch
      that starts with neither `*` nor `/` and is not empty unless it ends
      the text. The pass resumes on the closing `/` of a comment, which
      would otherwise start a new comment, or a `//` comment, with the
      character after it. */
  predicate WellFormedDocument(plains: seq<string>, bodies: seq<string>)
  {
    && |plains| == |bodies| + 1
    && (forall n :: 0 <= n < |plains| ==> Skimmed(plains[n]))
    && (forall n :: 0 <= n < |bodies| ==> NoMarker(bodies[n], '*', '/'))
    && (forall n :: 0 < n < |bodies| ==> plains[n] != [])
    && (forall n :: 0 < n < |plains| ==> plains[n] != [] ==> plains[n][0] != '*' && plains[n][0] != '/')
  }

  /** Completeness on documents: every block comment gives exactly one
      entry, in order, with its own label and the line the counter shows. */
  lemma DocumentHeadings(plains: seq<string>, bodies: seq<string>)
    requires WellFormedDocument(plains, bodies)
    ensures ScanDefined(Document(plains, bodies), 0, true)
    ensures CollectGroups(Document(plains, bodies)) == Headings(plains, bodies, 1)
  {
    var text := Document(plains, bodies);
    assert text[0..] == text;
    DocumentFrom(text, 0, plains, bodies, 1);
  }

  lemma {:induction false} DocumentFrom(text: string, i: nat, plains: seq<string>, bodies: seq<string>, lineNo: int)
    requires WellFormedDocument(plains, bodies)
    requires i <= |text| && text[i..] == Document(plains, bodies)
    ensures ReadsAs(text, i, lineNo, Headings(plains, bodies, lineNo))
    decreases |bodies|
  {
    var p := plains[0];
    if bodies == [] {
      assert text[i..i + |p|] == p && i + |p| == |text|;
      SkimStretch(text, i, p, |text|, lineNo, lineNo + Count(p, '\n'));
    } else {
      var body := bodies[0];
      var e := i + |p| + |body| + 3;
      var l := lineNo + Count(p, '\n');
      var tail := Headings(plains[1..], bodies[1..], l);
      var all := Headings(plains, bodies, lineNo);
      assert all == [GroupEntry(Label(body), l)] + tail;
      DocumentStep(text, i, plains, bodies);
      SkimStretch(text, i, p, i + |p|, lineNo, l);
      CommentFrom(text, i, |p|, body, lineNo, l);
      DocumentFrom(text, e + 1, plains[1..], bodies[1..], l);
      ClosedThenRead(text, i, lineNo, [GroupEntry(Label(body), l)], e, l, tail, all);
    }
  }

  /** The first comment of a document and what follows it. */
  lemma DocumentStep(text: string, i: nat, plains: seq<string>, bodies: seq<string>)
    requires WellFormedDocument(plains, bodies) && bodies != []
    requires i <= |text| && text[i..] == Document(plains, bodies)
    ensures var e := i + |plains[0]| + |bodies[0]| + 3;
            && e < |text| && text[e] == '/' && text[e + 1..] == Document(plains[1..], bodies[1..])
            && (e + 1 < |text| ==> text[e + 1] != '*' && text[e + 1] != '/')
    ensures text[i..i + |plains[0]|] == plains[0]
    ensures MarkerAt(text, i + |plains[0]|, '/', '*')
    ensures text[i + |plains[0]| + 2..i + |plains[0]| + 2 + |bodies[0]|] == bodies[0]
    ensures MarkerAt(text, i + |plains[0]| + 2 + |bodies[0]|, '*', '/')
  {
    CommentLayout(text, i, plains[0], bodies[0], Document(plains[1..], bodies[1..]));
    var e := i + |plains[0]| + |bodies[0]| + 3;
    if e + 1 < |text| {
      NextStretchStarts(plains, bodies);
      assert text[e + 1] == Document(plains[1..], bodies[1..])[0];
    }
  }

  /** What follows a comment of a document starts with neither `*` nor `/`. */
  lemma NextStretchStarts(plains: seq<string>, bodies: seq<string>)
    requires WellFormedDocument(plains, bodies) && bodies != []
    ensures var rest := Document(plains[1..], bodies[1..]);
            rest != [] ==> rest[0] != '*' && rest[0] != '/'
  {
    var rest := Document(plains[1..], bodies[1..]);
    if rest != [] {
      assert plains[1] != [] && rest[0] == plains[1][0] by {
        if bodies[1..] != [] {
          assert rest == plains[1] + ("/*" + bodies[1] + "*/" + Document(plains[2..], bodies[2..]));
        }
      }
    }
  }
}
