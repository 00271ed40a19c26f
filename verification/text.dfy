// Character-level helpers shared by the comment scanners: counting a
// character, two-character markers (`//`, `/*`, `*/`) and the search for the
// next newline or marker. The source text is a `string`; like the scanners it
// serves, nothing here splits the text into lines.
module Text {

  /** Some/None, for the external expression parser's fallible result. */
  datatype Option<+T> = None | Some(value: T)

  /** Number of occurrences of `c` in `s`. */
  function Count(s: string, c: char): nat
  {
    if |s| == 0 then 0 else Count(s[..|s| - 1], c) + (if s[|s| - 1] == c then 1 else 0)
  }

  /** Counting over a concatenation adds up. */
  lemma {:induction false} CountAppend(a: string, b: string, c: char)
    ensures Count(a + b, c) == Count(a, c) + Count(b, c)
    decreases |b|
  {
    if |b| == 0 {
      assert a + b == a;
    } else {
      assert (a + b)[..|a + b| - 1] == a + b[..|b| - 1];
      CountAppend(a, b[..|b| - 1], c);
    }
  }

  /** Counting over a prefix `s[..j]` splits at any `i <= j`. */
  lemma CountSplit(s: string, i: nat, j: nat, c: char)
    requires i <= j <= |s|
    ensures Count(s[..j], c) == Count(s[..i], c) + Count(s[i..j], c)
  {
    assert s[..j] == s[..i] + s[i..j];
    CountAppend(s[..i], s[i..j], c);
  }

  /** Extending a prefix by one character adds that character's count. */
  lemma CountStep(s: string, i: nat, c: char)
    requires i < |s|
    ensures Count(s[..i + 1], c) == Count(s[..i], c) + (if s[i] == c then 1 else 0)
  {
    assert s[..i + 1][..i] == s[..i];
  }

  /** A string holding `c` counts it at least once. */
  lemma {:induction false} CountPositive(s: string, c: char)
    requires c in s
    ensures Count(s, c) >= 1
    decreases |s|
  {
    if s[|s| - 1] != c {
      assert s == s[..|s| - 1] + [s[|s| - 1]];
      CountPositive(s[..|s| - 1], c);
    }
  }

  /** A string without `c` counts it zero times. */
  lemma {:induction false} CountAbsent(s: string, c: char)
    requires c !in s
    ensures Count(s, c) == 0
    decreases |s|
  {
    if |s| > 0 {
      assert forall k :: 0 <= k < |s| - 1 ==> s[..|s| - 1][k] == s[k];
      CountAbsent(s[..|s| - 1], c);
    }
  }

  /** The pieces in order, with `sep` between neighbours. */
  function Join(pieces: seq<string>, sep: string): string
  {
    if |pieces| == 0 then []
    else if |pieces| == 1 then pieces[0]
    else pieces[0] + sep + Join(pieces[1..], sep)
  }

  /** Two or more pieces: the first, the separator, then the rest joined. */
  lemma JoinFirst(pieces: seq<string>, sep: string)
    requires |pieces| >= 1
    ensures |pieces| == 1 ==> Join(pieces, sep) == pieces[0]
    ensures |pieces| > 1 ==> Join(pieces, sep) == pieces[0] + sep + Join(pieces[1..], sep)
    ensures Join(pieces, sep)[..|pieces[0]|] == pieces[0]
  {
  }

  /** Putting a character in front of the first piece puts it in front of
      the joined string. */
  lemma JoinPrepend(c: char, pieces: seq<string>, sep: string)
    requires |pieces| >= 1
    ensures Join([[c] + pieces[0]] + pieces[1..], sep) == [c] + Join(pieces, sep)
  {
    var q := [[c] + pieces[0]] + pieces[1..];
    assert q[1..] == pieces[1..];
  }

  /** `s` holds the two-character marker `a b` at index `i`
      (what `std::string::compare(i, 2, "ab") == 0` tests). */
  predicate MarkerAt(s: string, i: int, a: char, b: char)
  {
    0 <= i && i + 1 < |s| && s[i] == a && s[i + 1] == b
  }

  /** `s` holds the marker `a b` at no index. */
  predicate NoMarker(s: string, a: char, b: char)
  {
    forall i :: 0 <= i < |s| ==> !MarkerAt(s, i, a, b)
  }

  /** A newline occurs in `s` at or after index `from`. */
  predicate NewlineFrom(s: string, from: nat)
  {
    exists k :: from <= k < |s| && s[k] == '\n'
  }

  /** The first newline at or after `from`. */
  function NextNewline(s: string, from: nat): (k: nat)
    requires NewlineFrom(s, from)
    ensures from <= k < |s| && s[k] == '\n'
    ensures forall j :: from <= j < k ==> s[j] != '\n'
    decreases |s| - from
  {
    if s[from] == '\n' then from else NextNewline(s, from + 1)
  }

  /** The marker `a b` occurs in `s` at or after index `from`. */
  predicate MarkerFrom(s: string, from: nat, a: char, b: char)
  {
    exists k :: from <= k < |s| && MarkerAt(s, k, a, b)
  }

  /** The first occurrence of the marker `a b` at or after `from`. */
  function NextMarker(s: string, from: nat, a: char, b: char): (k: nat)
    requires MarkerFrom(s, from, a, b)
    ensures from <= k && MarkerAt(s, k, a, b)
    ensures forall j :: from <= j < k ==> !MarkerAt(s, j, a, b)
    decreases |s| - from
  {
    if MarkerAt(s, from, a, b) then from else NextMarker(s, from + 1, a, b)
  }
}
