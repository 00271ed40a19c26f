// The group collector (`collectGroups`, src/comment.cpp:95-172).
//
// One forward pass over the whole text keeps a line counter and a quote
// flag, skips `//` line comments, and for every `/*` block comment opened
// outside a string records a group entry: the dash-joined `[...]` segments
// of the comment's inner text and the line the counter shows at its start.
module GroupCollector {
  import opened Text

  /** GroupInfo (lines 7-10): a group label and the line it was found on. */
  datatype GroupEntry = GroupEntry(groupLabel: string, lineNo: int)

  /** Entries appear in non-decreasing line order. */
  predicate Ordered(r: seq<GroupEntry>)
  {
    forall m, n :: 0 <= m <= n < |r| ==> r[m].lineNo <= r[n].lineNo
  }

  // ----- Labels -----

  /** Adding a finished segment to the label (lines 151-155): joined with a
      dash, unless the label so far is empty. */
  function JoinLabel(acc: string, name: string): (r: string)
    ensures |r| == |acc| + |name| + (if acc == [] then 0 else 1)
    ensures r[..|acc|] == acc && r[|r| - |name|..] == name
    ensures forall c :: c in r ==> c in acc || c in name || c == '-'
  {
    if acc == [] then name else acc + "-" + name
  }

  /** The label loop over a block comment's inner text (lines 138-164) from
      index `i`: `inGroup` is the "inside brackets" flag, `name` the segment
      being collected and `acc` the label so far. */
  function LabelFrom(c: string, i: nat, inGroup: bool, name: string, acc: string): (r: string)
    requires i <= |c|
    ensures '[' !in acc && ']' !in acc && '[' !in name && ']' !in name ==> '[' !in r && ']' !in r
    decreases |c| - i
  {
    if i == |c| then acc
    else if c[i] == '[' then LabelFrom(c, i + 1, true, name, acc)
    else if c[i] == ']' then LabelFrom(c, i + 1, false, [], JoinLabel(acc, name))
    else if inGroup then LabelFrom(c, i + 1, true, name + [c[i]], acc)
    else LabelFrom(c, i + 1, false, name, acc)
  }

  /** The group label of a block comment's inner text. */
  function Label(c: string): (r: string)
    ensures '[' !in r && ']' !in r
  {
    LabelFrom(c, 0, false, [], [])
  }

  /** `p` with every `[` removed. */
  function Unbracketed(p: string): (r: string)
    ensures '[' !in r
    ensures forall x :: x in r ==> x in p
  {
    if p == [] then [] else (if p[0] == '[' then [] else [p[0]]) + Unbracketed(p[1..])
  }

  /** Index of the first `ch` in `p`. */
  function IndexOf(p: string, ch: char): (k: nat)
    requires ch in p
    ensures k < |p| && p[k] == ch && ch !in p[..k]
  {
    if p[0] == ch then 0
    else
      var k := IndexOf(p[1..], ch);
      assert p[..k + 1] == [p[0]] + p[1..][..k];
      k + 1
  }

  /** What one piece between two `]` contributes: the text after its first
      `[` with any further `[` dropped, or nothing when it has no `[`. */
  function SegmentOf(piece: string): (r: string)
    ensures forall x :: x in r ==> x in piece
  {
    if '[' in piece then Unbracketed(piece[IndexOf(piece, '[') + 1..]) else []
  }

  /** The completed `[...]` segments of a comment, one per `]`, in order. */
  function Segments(c: string): (r: seq<string>)
    ensures forall n :: 0 <= n < |r| ==> '[' !in r[n] && ']' !in r[n]
    decreases |c|
  {
    if ']' !in c then []
    else
      var j := IndexOf(c, ']');
      [SegmentOf(c[..j])] + Segments(c[j + 1..])
  }

  /** There is one completed segment per `]`. */
  lemma {:induction false} OneSegmentPerBracket(c: string)
    ensures |Segments(c)| == Count(c, ']')
    decreases |c|
  {
    if ']' !in c {
      CountAbsent(c, ']');
    } else {
      var j := IndexOf(c, ']');
      assert c == c[..j] + ([c[j]] + c[j + 1..]);
      CountAppend(c[..j], [c[j]] + c[j + 1..], ']');
      CountAppend([c[j]], c[j + 1..], ']');
      CountAbsent(c[..j], ']');
      assert [c[j]][..0] == [];
      OneSegmentPerBracket(c[j + 1..]);
    }
  }

  /** The label built from segments one by one, starting from `acc`. */
  function JoinAll(acc: string, segs: seq<string>): string
    decreases |segs|
  {
    if segs == [] then acc else JoinAll(JoinLabel(acc, segs[0]), segs[1..])
  }

  lemma SegmentOfSkip(x: char, p: string)
    requires x != '['
    ensures SegmentOf([x] + p) == SegmentOf(p)
    ensures ('[' in [x] + p) == ('[' in p)
  {
    var q := [x] + p;
    assert q[0] == x && q[1..] == p;
    if '[' in p {
      var k := IndexOf(p, '[');
      assert IndexOf(q, '[') == k + 1;
      assert q[k + 2..] == p[k + 1..];
    }
  }

  /** Scanning a stretch with no `]` just adds that stretch's segment text
      to the segment being collected. */
  lemma {:induction false} PieceScan(c: string, i: nat, j: nat, g: bool, name: string, acc: string)
    requires i <= j <= |c|
    requires ']' !in c[i..j]
    ensures LabelFrom(c, i, g, name, acc) ==
            LabelFrom(c, j, g || '[' in c[i..j], name + (if g then Unbracketed(c[i..j]) else SegmentOf(c[i..j])), acc)
    decreases j - i
  {
    if i == j {
      assert c[i..j] == [];
      assert name + [] == name;
    } else {
      var p := c[i + 1..j];
      assert c[i..j] == [c[i]] + p;
      assert c[i] != ']';
      if c[i] == '[' {
        PieceScan(c, i + 1, j, true, name, acc);
        assert Unbracketed(c[i..j]) == Unbracketed(p);
        assert IndexOf(c[i..j], '[') == 0;
        assert c[i..j][1..] == p;
      } else if g {
        PieceScan(c, i + 1, j, true, name + [c[i]], acc);
        assert Unbracketed(c[i..j]) == [c[i]] + Unbracketed(p);
        assert name + [c[i]] + Unbracketed(p) == name + ([c[i]] + Unbracketed(p));
      } else {
        PieceScan(c, i + 1, j, false, name, acc);
        SegmentOfSkip(c[i], p);
      }
    }
  }

  /** The first `]` from `i` on closes one segment: scanning up to and past
      it adds that segment to the label. */
  lemma ScanToBracket(c: string, i: nat, j: nat, acc: string)
    requires i <= j < |c| && c[j] == ']' && ']' !in c[i..j]
    ensures LabelFrom(c, i, false, [], acc) == LabelFrom(c, j + 1, false, [], JoinLabel(acc, SegmentOf(c[i..j])))
  {
    PieceScan(c, i, j, false, [], acc);
    assert [] + SegmentOf(c[i..j]) == SegmentOf(c[i..j]);
  }

  /** The segments from `i` on are the one closed by the first `]` followed
      by those after it. */
  lemma SegmentsStep(c: string, i: nat) returns (j: nat)
    requires i <= |c| && ']' in c[i..]
    ensures i <= j < |c| && c[j] == ']' && ']' !in c[i..j]
    ensures Segments(c[i..]) == [SegmentOf(c[i..j])] + Segments(c[j + 1..])
  {
    var j' := IndexOf(c[i..], ']');
    j := i + j';
    assert c[i..][..j'] == c[i..j];
    assert c[i..][j' + 1..] == c[j + 1..];
  }

  lemma JoinAllCons(acc: string, x: string, rest: seq<string>)
    ensures JoinAll(acc, [x] + rest) == JoinAll(JoinLabel(acc, x), rest)
  {
    assert ([x] + rest)[1..] == rest;
  }

  lemma {:induction false} ScanIsJoin(c: string, i: nat, acc: string)
    requires i <= |c|
    ensures LabelFrom(c, i, false, [], acc) == JoinAll(acc, Segments(c[i..]))
    decreases |c| - i
  {
    if ']' !in c[i..] {
      assert c[i..|c|] == c[i..];
      PieceScan(c, i, |c|, false, [], acc);
    } else {
      var j := SegmentsStep(c, i);
      var seg := SegmentOf(c[i..j]);
      ScanToBracket(c, i, j, acc);
      JoinAllCons(acc, seg, Segments(c[j + 1..]));
      ScanIsJoin(c, j + 1, JoinLabel(acc, seg));
    }
  }

  /** The label is the completed segments joined in order. */
  lemma LabelIsJoinedSegments(c: string)
    ensures Label(c) == JoinAll([], Segments(c))
  {
    assert c[0..] == c;
    ScanIsJoin(c, 0, []);
  }

  lemma {:induction false} SegmentsIgnoreTail(c: string, x: string)
    requires ']' !in x
    ensures Segments(c + x) == Segments(c)
    decreases |c|
  {
    if ']' in c {
      var j := IndexOf(c, ']');
      assert (c + x)[..j] == c[..j];
      assert (c + x)[j] == ']';
      assert IndexOf(c + x, ']') == j;
      assert (c + x)[j + 1..] == c[j + 1..] + x;
      SegmentsIgnoreTail(c[j + 1..], x);
    } else {
      assert ']' !in c + x;
    }
  }

  /** An unterminated trailing segment adds nothing to the label. */
  lemma UnterminatedSegmentDropped(c: string, x: string)
    requires ']' !in x
    ensures Label(c + x) == Label(c)
  {
    LabelIsJoinedSegments(c);
    LabelIsJoinedSegments(c + x);
    SegmentsIgnoreTail(c, x);
  }

  /** Removing `[` from a string that has none changes nothing. */
  lemma {:induction false} UnbracketedNoop(p: string)
    requires '[' !in p
    ensures Unbracketed(p) == p
  {
    if p != [] {
      assert '[' !in p[1..] by {
        assert forall x :: x in p[1..] ==> x in p;
      }
      UnbracketedNoop(p[1..]);
      assert [p[0]] + p[1..] == p;
    }
  }

  /** A comment holding one bracketed segment is labelled with that
      segment's text. */
  lemma SingleSegmentLabel(s: string)
    requires '[' !in s && ']' !in s
    ensures Label("[" + s + "]") == s
  {
    var c := "[" + s + "]";
    var j := |s| + 1;
    assert c[j] == ']';
    assert c[..j] == "[" + s && ']' !in c[..j];
    assert IndexOf(c, ']') == j;
    assert IndexOf(c[..j], '[') == 0;
    assert c[..j][1..] == s;
    UnbracketedNoop(s);
    assert c[j + 1..] == [];
    assert Segments(c) == [s];
    LabelIsJoinedSegments(c);
  }

  // ----- The pass over the text -----

  /** What the pass needs to stay inside the text (lines 117 and 128):
      every `//` it reaches is followed by a newline and every block
      comment it opens is closed later on. */
  predicate ScanDefined(text: string, i: nat, code: bool)
    requires i <= |text|
    decreases |text| - i
  {
    if i == |text| then true
    else if text[i] == '\n' then ScanDefined(text, i + 1, code)
    else if text[i] == '"' then ScanDefined(text, i + 1, !code)
    else if MarkerAt(text, i, '/', '/') then
      NewlineFrom(text, i + 2) && ScanDefined(text, NextNewline(text, i + 2) + 1, code)
    else if code && MarkerAt(text, i, '/', '*') then
      MarkerFrom(text, i + 2, '*', '/') && ScanDefined(text, NextMarker(text, i + 2, '*', '/') + 1, code)
    else ScanDefined(text, i + 1, code)
  }

  /** The pass can only leave the text at a `//` or at a block comment
      opener: from an index after which no `/` follows, it is defined. */
  lemma {:induction false} SlashFreeDefined(text: string, i: nat, code: bool)
    requires i <= |text| && '/' !in text[i..]
    ensures ScanDefined(text, i, code)
    decreases |text| - i
  {
    if i < |text| {
      assert text[i] == text[i..][0];
      assert text[i + 1..] == text[i..][1..];
      SlashFreeDefined(text, i + 1, if text[i] == '"' then !code else code);
    }
  }

  /** The main loop (lines 102-170) from index `i` with line counter
      `lineNo` and quote flag `code` (true outside strings). A block
      comment resumes the pass on its closing slash, and newlines inside
      it are not counted. */
  function CollectFrom(text: string, i: nat, lineNo: int, code: bool): (r: seq<GroupEntry>)
    requires i <= |text| && ScanDefined(text, i, code)
    ensures forall n :: 0 <= n < |r| ==> lineNo <= r[n].lineNo
    ensures Ordered(r)
    ensures forall n :: 0 <= n < |r| ==> '[' !in r[n].groupLabel && ']' !in r[n].groupLabel
    decreases |text| - i
  {
    if i == |text| then []
    else if text[i] == '\n' then CollectFrom(text, i + 1, lineNo + 1, code)
    else if text[i] == '"' then CollectFrom(text, i + 1, lineNo, !code)
    else if MarkerAt(text, i, '/', '/') then
      CollectFrom(text, NextNewline(text, i + 2) + 1, lineNo + 1, code)
    else if code && MarkerAt(text, i, '/', '*') then
      var k := NextMarker(text, i + 2, '*', '/');
      [GroupEntry(Label(text[i + 2..k]), lineNo)] + CollectFrom(text, k + 1, lineNo, code)
    else CollectFrom(text, i + 1, lineNo, code)
  }

  /** collectGroups (lines 95-172). */
  function CollectGroups(text: string): (r: seq<GroupEntry>)
    requires ScanDefined(text, 0, true)
    ensures Ordered(r)
    ensures forall n :: 0 <= n < |r| ==> r[n].lineNo >= 1
    ensures forall n :: 0 <= n < |r| ==> '[' !in r[n].groupLabel && ']' !in r[n].groupLabel
  {
    CollectFrom(text, 0, 1, true)
  }

  /** A block comment opens at `j` and is closed later on. */
  predicate ClosedBlockAt(text: string, j: nat)
  {
    MarkerAt(text, j, '/', '*') && MarkerFrom(text, j + 2, '*', '/')
  }

  /** The inner text of the block comment opening at `j`. */
  function BlockBody(text: string, j: nat): string
    requires ClosedBlockAt(text, j)
  {
    text[j + 2..NextMarker(text, j + 2, '*', '/')]
  }

  lemma CountSlices(text: string, i: nat, m: nat, j: nat, c: char)
    requires i <= m <= j <= |text|
    ensures Count(text[i..j], c) == Count(text[i..m], c) + Count(text[m..j], c)
  {
    assert text[i..j] == text[i..m] + text[m..j];
    CountAppend(text[i..m], text[m..j], c);
  }

  /** Entry `e` comes from a block comment at or after `i`: its label is
      that comment's label, and its line is at most `lineNo` plus the
      newlines between `i` and the comment. */
  predicate EntryFromBlock(text: string, i: nat, lineNo: int, e: GroupEntry)
  {
    exists j :: i <= j < |text| && ClosedBlockAt(text, j) && e.groupLabel == Label(BlockBody(text, j)) &&
      e.lineNo <= lineNo + Count(text[i..j], '\n')
  }

  lemma EntryFromEarlier(text: string, i: nat, next: nat, lineNo: int, line': int, e: GroupEntry)
    requires i <= next <= |text|
    requires line' - lineNo <= Count(text[i..next], '\n')
    requires EntryFromBlock(text, next, line', e)
    ensures EntryFromBlock(text, i, lineNo, e)
  {
    var j :| next <= j < |text| && ClosedBlockAt(text, j) && e.groupLabel == Label(BlockBody(text, j)) &&
             e.lineNo <= line' + Count(text[next..j], '\n');
    CountSlices(text, i, next, j, '\n');
  }

  /** Every entry comes from a block comment in the text: its label is that
      comment's label, and its line is at most the line the comment really
      starts on. */
  lemma {:induction false} EntriesFromBlocks(text: string, i: nat, lineNo: int, code: bool)
    requires i <= |text| && ScanDefined(text, i, code)
    ensures forall n :: 0 <= n < |CollectFrom(text, i, lineNo, code)| ==>
              EntryFromBlock(text, i, lineNo, CollectFrom(text, i, lineNo, code)[n])
    decreases |text| - i, 1
  {
    var r := CollectFrom(text, i, lineNo, code);
    if i == |text| {
    } else if text[i] == '\n' || text[i] == '"' || MarkerAt(text, i, '/', '/') || !(code && MarkerAt(text, i, '/', '*')) {
      var t: (nat, int, bool) :=
        if text[i] == '\n' then (i + 1, lineNo + 1, code)
        else if text[i] == '"' then (i + 1, lineNo, !code)
        else if MarkerAt(text, i, '/', '/') then (NextNewline(text, i + 2) + 1, lineNo + 1, code)
        else (i + 1, lineNo, code);
      var next, line', code' := t.0, t.1, t.2;
      assert r == CollectFrom(text, next, line', code');
      if line' > lineNo {
        assert text[next - 1] == '\n';
        assert text[i..next][next - 1 - i] == '\n';
        CountPositive(text[i..next], '\n');
      }
      EntriesFromBlocks(text, next, line', code');
      forall n | 0 <= n < |r|
        ensures EntryFromBlock(text, i, lineNo, r[n])
      {
        EntryFromEarlier(text, i, next, lineNo, line', r[n]);
      }
    } else {
      EntriesAtBlock(text, i, lineNo, code);
    }
  }

  /** The block-comment step of the above: the entry pushed for the comment
      at `i`, then the entries of the rest of the pass. */
  lemma {:induction false} EntriesAtBlock(text: string, i: nat, lineNo: int, code: bool)
    requires i < |text| && ScanDefined(text, i, code)
    requires text[i] != '\n' && text[i] != '"' && !MarkerAt(text, i, '/', '/') && code && MarkerAt(text, i, '/', '*')
    ensures forall n :: 0 <= n < |CollectFrom(text, i, lineNo, code)| ==>
              EntryFromBlock(text, i, lineNo, CollectFrom(text, i, lineNo, code)[n])
    decreases |text| - i, 0
  {
    var r := CollectFrom(text, i, lineNo, code);
    var k := NextMarker(text, i + 2, '*', '/');
    var rest := CollectFrom(text, k + 1, lineNo, code);
    assert r == [GroupEntry(Label(text[i + 2..k]), lineNo)] + rest;
    EntriesFromBlocks(text, k + 1, lineNo, code);
    forall n | 0 <= n < |r|
      ensures EntryFromBlock(text, i, lineNo, r[n])
    {
      if n == 0 {
        assert ClosedBlockAt(text, i) && BlockBody(text, i) == text[i + 2..k];
        assert text[i..i] == [];
      } else {
        assert r[n] == rest[n - 1];
        EntryFromEarlier(text, i, k + 1, lineNo, lineNo, r[n]);
      }
    }
  }

  /** A text with no block comment opener at all yields no groups. */
  lemma {:induction false} NoBlockNoGroups(text: string, i: nat, lineNo: int, code: bool)
    requires i <= |text| && ScanDefined(text, i, code)
    requires NoMarker(text, '/', '*')
    ensures CollectFrom(text, i, lineNo, code) == []
    decreases |text| - i
  {
    if i < |text| {
      if text[i] == '\n' {
        NoBlockNoGroups(text, i + 1, lineNo + 1, code);
      } else if text[i] == '"' {
        NoBlockNoGroups(text, i + 1, lineNo, !code);
      } else if MarkerAt(text, i, '/', '/') {
        NoBlockNoGroups(text, NextNewline(text, i + 2) + 1, lineNo + 1, code);
      } else {
        assert !MarkerAt(text, i, '/', '*');
        NoBlockNoGroups(text, i + 1, lineNo, code);
      }
    }
  }

  /** A simple condition under which the pass stays inside the text: the
      text ends with a newline and every block comment opener in it is
      closed later on. */
  predicate ClosedComments(text: string)
  {
    && (|text| == 0 || text[|text| - 1] == '\n')
    && forall j :: 0 <= j < |text| && MarkerAt(text, j, '/', '*') ==> MarkerFrom(text, j + 2, '*', '/')
  }

  lemma {:induction false} ClosedCommentsSuffice(text: string, i: nat, code: bool)
    requires i <= |text| && ClosedComments(text)
    ensures ScanDefined(text, i, code)
    decreases |text| - i
  {
    if i < |text| {
      if text[i] == '\n' || text[i] == '"' {
        ClosedCommentsSuffice(text, i + 1, if text[i] == '"' then !code else code);
      } else if MarkerAt(text, i, '/', '/') {
        assert text[|text| - 1] == '\n' && i + 2 <= |text| - 1;
        assert NewlineFrom(text, i + 2);
        ClosedCommentsSuffice(text, NextNewline(text, i + 2) + 1, code);
      } else if code && MarkerAt(text, i, '/', '*') {
        ClosedCommentsSuffice(text, NextMarker(text, i + 2, '*', '/') + 1, code);
      } else {
        ClosedCommentsSuffice(text, i + 1, code);
      }
    }
  }
}
