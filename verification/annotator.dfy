/**
 The per-assignment annotation pass of `CommentParser::addParameter`
 (src/comment.cpp:178-224).

 The groups are collected once for the whole text. Then every literal
 assignment, identified by the line it starts on, gets a list of
 annotations: its Parameter (the parsed trailing comment), then a
 Description (the comment line just above it) when there is one, then a
 Group (the label of the last group heading whose recorded line is
 earlier than its own) when there is one.
 The expression parser is not part of this model; it is a function
 parameter that may fail.
 */
module Annotator {
  import opened Text
  import CommentLocator
  import DescriptionExtractor
  import GroupCollector

  /** An annotation value: either a string literal built by the pass itself,
      or a node the expression parser produced (its inside is not modelled,
      only its identity). */
  datatype Expr = StringLiteral(value: string) | ParsedNode(id: nat)

  /** The three annotation names the pass uses. */
  datatype Kind = Parameter | Description | Group

  datatype Annotation = Annotation(kind: Kind, value: Expr)

  /** What the pass reads from an assignment: whether its right-hand side
      is a literal, and the first line of its location. */
  datatype Assignment = Assignment(isLiteral: bool, firstLine: int)

  /** The order in which the pass pushes the kinds. */
  function Rank(k: Kind): nat
  {
    match k
    case Parameter => 0
    case Description => 1
    case Group => 2
  }

  predicate HasKind(r: seq<Annotation>, k: Kind)
  {
    exists n :: 0 <= n < |r| && r[n].kind == k
  }

  /** What survives a round trip through `c_str()`: the text up to the
      first NUL character. */
  function UpToNul(s: string): (r: string)
    ensures '\0' !in r
    ensures |r| <= |s| && r == s[..|r|]
    ensures |r| < |s| ==> s[|r|] == '\0'
    ensures '\0' !in s ==> r == s
  {
    if s == [] || s[0] == '\0' then [] else [s[0]] + UpToNul(s[1..])
  }

  // ----- Group lookup -----

  /** The search loop (lines 213-214) from index `i`: the first index whose
      entry's recorded line is not earlier than `line`, or the end of the
      list. */
  function FindFrom(groups: seq<GroupCollector.GroupEntry>, i: nat, line: int): (k: nat)
    requires i <= |groups|
    ensures i <= k <= |groups|
    ensures k < |groups| ==> groups[k].lineNo >= line
    ensures forall n :: i <= n < k ==> groups[n].lineNo < line
    decreases |groups| - i
  {
    if i < |groups| && groups[i].lineNo < line then FindFrom(groups, i + 1, line) else i
  }

  /** The group lookup (lines 212-221): the entry just before the one the
      search stops at, if there is one. */
  function GroupFor(groups: seq<GroupCollector.GroupEntry>, line: int): (r: Option<string>)
    ensures r.Some? <==> |groups| > 0 && groups[0].lineNo < line
    ensures r.Some? ==>
              exists n :: 0 <= n < |groups| && groups[n].lineNo < line && r.value == groups[n].groupLabel &&
                          (n + 1 == |groups| || groups[n + 1].lineNo >= line)
  {
    var i := FindFrom(groups, 0, line) - 1;
    if i >= 0 then Some(groups[i].groupLabel) else None
  }

  /** Reference definition: the label of the last entry recorded before
      `line`, or nothing when there is none. */
  function LastBefore(groups: seq<GroupCollector.GroupEntry>, line: int): Option<string>
  {
    if groups == [] then None
    else if groups[|groups| - 1].lineNo < line then Some(groups[|groups| - 1].groupLabel)
    else LastBefore(groups[..|groups| - 1], line)
  }

  /** The reference is present exactly when some entry is recorded before `line`,
      and then it is the label of the last such entry. */
  lemma {:induction false} LastBeforeIsLast(groups: seq<GroupCollector.GroupEntry>, line: int)
    ensures LastBefore(groups, line).Some? <==> exists n :: 0 <= n < |groups| && groups[n].lineNo < line
    ensures LastBefore(groups, line).Some? ==>
              exists n :: 0 <= n < |groups| && groups[n].lineNo < line &&
                          LastBefore(groups, line).value == groups[n].groupLabel &&
                          forall m :: n < m < |groups| ==> groups[m].lineNo >= line
    decreases |groups|
  {
    if groups != [] {
      var last := |groups| - 1;
      if groups[last].lineNo >= line {
        var init := groups[..last];
        LastBeforeIsLast(init, line);
        assert forall n :: 0 <= n < last ==> init[n] == groups[n];
        if LastBefore(init, line).Some? {
          var n :| 0 <= n < last && init[n].lineNo < line && LastBefore(init, line).value == init[n].groupLabel &&
                   forall m :: n < m < last ==> init[m].lineNo >= line;
          assert forall m :: n < m < |groups| ==> groups[m].lineNo >= line;
        }
      }
    }
  }

  /** On a list in line order the lookup finds the last heading recorded
      before the assignment's line. */
  lemma GroupLookupIsLastBefore(groups: seq<GroupCollector.GroupEntry>, line: int)
    requires GroupCollector.Ordered(groups)
    ensures GroupFor(groups, line) == LastBefore(groups, line)
  {
    var g := GroupFor(groups, line);
    var l := LastBefore(groups, line);
    LastBeforeIsLast(groups, line);
    if g.Some? {
      var n' :| 0 <= n' < |groups| && groups[n'].lineNo < line && g.value == groups[n'].groupLabel &&
                (n' + 1 == |groups| || groups[n' + 1].lineNo >= line);
      var n :| 0 <= n < |groups| && groups[n].lineNo < line && l.value == groups[n].groupLabel &&
               forall m :: n < m < |groups| ==> groups[m].lineNo >= line;
    }
  }

  // ----- Annotations of one assignment -----

  /** What the pass needs of the text for an assignment on `line`: both
      comment scanners stay inside the text. */
  predicate AnnotationDefined(text: string, line: int)
  {
    CommentLocator.CommentDefined(text, line) && DescriptionExtractor.DescriptionDefined(text, line - 1)
  }

  /** The list assembled from the parsed parameter, the description and the
      group found (lines 198-221): the Parameter first, then a Description
      only when the description is non-empty, then a Group only when a group
      was found. */
  function Assemble(param: Expr, descr: string, group: Option<string>): (r: seq<Annotation>)
    ensures 1 <= |r| <= 3 && r[0] == Annotation(Parameter, param)
    ensures forall m, n :: 0 <= m < n < |r| ==> Rank(r[m].kind) < Rank(r[n].kind)
    ensures HasKind(r, Description) <==> descr != ""
    ensures descr != "" ==> |r| >= 2 && r[1] == Annotation(Description, StringLiteral(UpToNul(descr)))
    ensures forall n :: 0 <= n < |r| && r[n].kind == Description ==> r[n].value == StringLiteral(UpToNul(descr))
    ensures HasKind(r, Group) <==> group.Some?
    ensures forall n :: 0 <= n < |r| && r[n].kind == Group ==> group.Some? && r[n].value == StringLiteral(group.value)
  {
    var p := Annotation(Parameter, param);
    var d := Annotation(Description, StringLiteral(UpToNul(descr)));
    match group
    case Some(heading) =>
      var g := Annotation(Group, StringLiteral(heading));
      if descr != "" then assert [p, d, g][1] == d && [p, d, g][2] == g; [p, d, g] else assert [p, g][1] == g; [p, g]
    case None =>
      if descr != "" then assert [p, d][1] == d; [p, d] else [p]
  }

  /** The Parameter value (lines 194-200): what the parser makes of the
      trailing comment, or an empty string literal when it fails. */
  function ParameterOf(comment: string, parse: string -> Option<Expr>): (e: Expr)
    ensures parse(UpToNul(comment)).Some? ==> e == parse(UpToNul(comment)).value
    ensures parse(UpToNul(comment)).None? ==> e == StringLiteral("")
  {
    match parse(UpToNul(comment))
    case Some(x) => x
    case None => StringLiteral("")
  }

  /** The annotation list built for a literal assignment on `line`
      (lines 187-221), given the collected groups and the parser. */
  function AnnotationsFor(text: string, groups: seq<GroupCollector.GroupEntry>, line: int,
                          parse: string -> Option<Expr>): (r: seq<Annotation>)
    requires AnnotationDefined(text, line)
    ensures 1 <= |r| <= 3 && r[0].kind == Parameter
    ensures forall m, n :: 0 <= m < n < |r| ==> Rank(r[m].kind) < Rank(r[n].kind)
    ensures var p := parse(UpToNul(CommentLocator.GetComment(text, line)));
            && (p.Some? ==> r[0].value == p.value)
            && (p.None? ==> r[0].value == StringLiteral(""))
    ensures var d := DescriptionExtractor.GetDescription(text, line - 1);
            && (HasKind(r, Description) <==> d != "")
            && (d != "" ==> |r| >= 2 && r[1] == Annotation(Description, StringLiteral(UpToNul(d))))
            && forall n :: 0 <= n < |r| && r[n].kind == Description ==> r[n].value == StringLiteral(UpToNul(d))
    ensures HasKind(r, Group) <==> GroupFor(groups, line).Some?
    ensures forall n :: 0 <= n < |r| && r[n].kind == Group ==>
              GroupFor(groups, line).Some? && r[n].value == StringLiteral(GroupFor(groups, line).value)
  {
    Assemble(ParameterOf(CommentLocator.GetComment(text, line), parse),
             DescriptionExtractor.GetDescription(text, line - 1), GroupFor(groups, line))
  }

  /** A literal assignment gets its Group from the last group heading in
      the text whose recorded line is earlier than its own, and none when
      no heading's is. The recorded line does not count newlines inside
      block comments, so it can be smaller than the line the heading sits
      on. */
  lemma GroupIsLastHeadingBefore(text: string, line: int, parse: string -> Option<Expr>)
    requires GroupCollector.ScanDefined(text, 0, true) && AnnotationDefined(text, line)
    ensures var groups := GroupCollector.CollectGroups(text);
            var r := AnnotationsFor(text, groups, line, parse);
            && (HasKind(r, Group) <==> exists n :: 0 <= n < |groups| && groups[n].lineNo < line)
            && forall n :: 0 <= n < |r| && r[n].kind == Group ==>
                 LastBefore(groups, line).Some? && r[n].value == StringLiteral(LastBefore(groups, line).value)
  {
    GroupLookupIsLastBefore(GroupCollector.CollectGroups(text), line);
    LastBeforeIsLast(GroupCollector.CollectGroups(text), line);
  }

  /** A documented literal assignment: a `//` description line, then the
      assignment's code with its `//` parameter comment. The Parameter
      comes from the comment and the Description is the description text. */
  lemma DocumentedAssignment(before: string, blanks: string, d: string, code: string, comment: string,
                             after: string, groups: seq<GroupCollector.GroupEntry>, line: int,
                             parse: string -> Option<Expr>)
    requires line >= 2
    requires if line == 2 then before == "" else |before| > 0 && before[|before| - 1] == '\n' && Count(before, '\n') == line - 2
    requires forall k :: 0 <= k < |blanks| ==> blanks[k] == ' ' || blanks[k] == '\t'
    requires '\n' !in d && NoMarker(d, '/', '/') && (|d| > 0 ==> d[0] != ' ' && d[0] != '\t')
    requires '"' !in code && '\n' !in code && Count(code, ';') <= 1 && NoMarker(code, '/', '/')
    requires |code| == 0 || code[|code| - 1] != '/'
    requires '\n' !in comment
    ensures var text := before + "//" + blanks + d + "\n" + code + "//" + comment + "\n" + after;
            && AnnotationDefined(text, line)
            && var r := AnnotationsFor(text, groups, line, parse);
               && r[0] == Annotation(Parameter, ParameterOf(comment, parse))
               && (d != "" ==> |r| >= 2 && r[1] == Annotation(Description, StringLiteral(UpToNul(d))))
               && (d == "" ==> !HasKind(r, Description))
  {
    var text := before + "//" + blanks + d + "\n" + code + "//" + comment + "\n" + after;
    DocumentedText(before, blanks, d, code, comment, after, line, text);
  }

  /** In a documented assignment's text both scanners find what was put
      there. */
  lemma DocumentedText(before: string, blanks: string, d: string, code: string, comment: string,
                       after: string, line: int, text: string)
    requires line >= 2
    requires if line == 2 then before == "" else |before| > 0 && before[|before| - 1] == '\n' && Count(before, '\n') == line - 2
    requires forall k :: 0 <= k < |blanks| ==> blanks[k] == ' ' || blanks[k] == '\t'
    requires '\n' !in d && NoMarker(d, '/', '/') && (|d| > 0 ==> d[0] != ' ' && d[0] != '\t')
    requires '"' !in code && '\n' !in code && Count(code, ';') <= 1 && NoMarker(code, '/', '/')
    requires |code| == 0 || code[|code| - 1] != '/'
    requires '\n' !in comment
    requires text == before + "//" + blanks + d + "\n" + code + "//" + comment + "\n" + after
    ensures AnnotationDefined(text, line)
    ensures CommentLocator.GetComment(text, line) == comment
    ensures DescriptionExtractor.GetDescription(text, line - 1) == d
  {
    var after1 := code + "//" + comment + "\n" + after;
    var before2 := before + ("//" + blanks + d + "\n");
    Regroup(before, blanks, d, code, comment, after);
    DescriptionExtractor.DescriptionRoundTrip(before, blanks, d, after1, line - 1);
    NewlinesThroughDescription(before, blanks, d, line);
    CommentLocator.CommentRoundTrip(before2, code, comment, after, line);
  }

  lemma Regroup(before: string, blanks: string, d: string, code: string, comment: string, after: string)
    ensures var text := before + "//" + blanks + d + "\n" + code + "//" + comment + "\n" + after;
            && text == before + ("//" + blanks + d + "\n" + (code + "//" + comment + "\n" + after))
            && text == before + ("//" + blanks + d + "\n") + code + "//" + comment + "\n" + after
  {
  }

  lemma NewlinesThroughDescription(before: string, blanks: string, d: string, line: int)
    requires line >= 2
    requires if line == 2 then before == "" else Count(before, '\n') == line - 2
    requires forall k :: 0 <= k < |blanks| ==> blanks[k] == ' ' || blanks[k] == '\t'
    requires '\n' !in d
    ensures Count(before + ("//" + blanks + d + "\n"), '\n') == line - 1
    ensures var b := before + ("//" + blanks + d + "\n"); |b| > 0 && b[|b| - 1] == '\n'
  {
    var head := "//" + blanks + d;
    assert forall k :: 0 <= k < |head| ==> head[k] == (if k < 2 + |blanks| then ("//" + blanks)[k] else d[k - 2 - |blanks|]);
    assert '\n' !in head;
    CountAbsent(head, '\n');
    CountAppend(head, "\n", '\n');
    assert "\n"[..0] == [];
    CountAppend(before, head + "\n", '\n');
    assert head + "\n" == "//" + blanks + d + "\n";
  }

  // ----- The pass over all assignments -----

  /** What the pass needs of the text: the group scan and both comment
      scanners stay inside the C string the text holds (the part before the
      first NUL) for every literal assignment. */
  predicate PassDefined(text: string, assignments: seq<Assignment>)
  {
    var t := UpToNul(text);
    && GroupCollector.ScanDefined(t, 0, true)
    && forall n :: 0 <= n < |assignments| && assignments[n].isLiteral ==> AnnotationDefined(t, assignments[n].firstLine)
  }

  /** addParameter (lines 178-224): the text is read as a C string, so only
      the part before its first NUL counts; the groups are collected once,
      then the loop over the assignments yields the list handed to
      `add_annotations` for each literal assignment, and nothing for the
      rest. */
  function AddParameter(text: string, assignments: seq<Assignment>, parse: string -> Option<Expr>): (r: seq<Option<seq<Annotation>>>)
    requires PassDefined(text, assignments)
    ensures |r| == |assignments|
    ensures forall n :: 0 <= n < |r| ==> (r[n].Some? <==> assignments[n].isLiteral)
    ensures forall n :: 0 <= n < |r| && r[n].Some? ==>
              r[n].value == AnnotationsFor(UpToNul(text), GroupCollector.CollectGroups(UpToNul(text)),
                                           assignments[n].firstLine, parse)
  {
    var t := UpToNul(text);
    var groups := GroupCollector.CollectGroups(t);
    seq(|assignments|, n requires 0 <= n < |assignments| =>
      if assignments[n].isLiteral then Some(AnnotationsFor(t, groups, assignments[n].firstLine, parse)) else None)
  }

  /** A NUL ends the text the pass reads: whatever follows the first NUL
      changes nothing. */
  lemma TextEndsAtNul(text: string, rest: string, assignments: seq<Assignment>, parse: string -> Option<Expr>)
    requires '\0' !in text
    ensures PassDefined(text + ['\0'] + rest, assignments) == PassDefined(text, assignments)
    ensures PassDefined(text, assignments) ==>
              AddParameter(text + ['\0'] + rest, assignments, parse) == AddParameter(text, assignments, parse)
  {
    UpToFirstNul(text, rest);
  }

  /** Cutting at the first NUL gives back the part before it. */
  lemma {:induction false} UpToFirstNul(s: string, rest: string)
    requires '\0' !in s
    ensures UpToNul(s + ['\0'] + rest) == s
    decreases |s|
  {
    if s == [] {
      assert (s + ['\0'] + rest)[0] == '\0';
    } else {
      assert (s + ['\0'] + rest)[1..] == s[1..] + ['\0'] + rest;
      UpToFirstNul(s[1..], rest);
      assert [s[0]] + s[1..] == s;
    }
  }


  /** Each literal assignment gets exactly one Parameter annotation, and it
      comes first. */
  lemma OneParameterEach(text: string, assignments: seq<Assignment>, parse: string -> Option<Expr>, n: nat)
    requires PassDefined(text, assignments)
    requires n < |assignments| && assignments[n].isLiteral
    ensures var r := AddParameter(text, assignments, parse)[n];
            && r.Some? && r.value[0].kind == Parameter
            && forall m :: 1 <= m < |r.value| ==> r.value[m].kind != Parameter
  {
    var r := AddParameter(text, assignments, parse)[n].value;
    forall m | 1 <= m < |r|
      ensures r[m].kind != Parameter
    {
      assert Rank(r[0].kind) < Rank(r[m].kind);
    }
  }
}
