/**
 The string operations the listing parser is built from: searching for a
 character (what a regular expression does when it scans for a separator),
 splitting text on line feeds the way JavaScript's `String.prototype.split("\n")`
 does, and dropping empty strings the way `filter(Boolean)` does.
 */
module Text {

  /** Position of the first `c` in `s`, or `|s|` when `s` holds no `c`. */
  function FirstIndex(s: string, c: char): (k: nat)
    ensures k <= |s|
    ensures k < |s| ==> s[k] == c
    ensures forall j :: 0 <= j < k ==> s[j] != c
  {
    if s == [] then 0
    else if s[0] == c then 0
    else 1 + FirstIndex(s[1..], c)
  }

  /** The index found is the only one that can be "the first `c`". */
  lemma FirstIndexUnique(s: string, c: char, k: nat)
    requires k <= |s|
    requires k < |s| ==> s[k] == c
    requires forall j :: 0 <= j < k ==> s[j] != c
    ensures FirstIndex(s, c) == k
  {
  }

  /**
   `s.split("\n")`: the segments between line feeds, in order. There is always
   at least one segment; a trailing line feed yields a final empty segment and
   the empty text yields `[""]`.
   */
  function Split(s: string): (parts: seq<string>)
    ensures |parts| >= 1
    ensures forall i :: 0 <= i < |parts| ==> '\n' !in parts[i]
    decreases |s|
  {
    var k := FirstIndex(s, '\n');
    if k == |s| then [s] else [s[..k]] + Split(s[k + 1..])
  }

  /** The segments glued back together with line feeds (the inverse of Split). */
  function Join(parts: seq<string>): string
  {
    if |parts| == 0 then ""
    else if |parts| == 1 then parts[0]
    else parts[0] + "\n" + Join(parts[1..])
  }

  /** Splitting one segment off the front when it holds no line feed. */
  lemma SplitFront(a: string, rest: string)
    requires '\n' !in a
    ensures Split(a + "\n" + rest) == [a] + Split(rest)
  {
    var s := a + "\n" + rest;
    FirstIndexUnique(s, '\n', |a|);
    assert s[..|a|] == a;
    assert s[|a| + 1..] == rest;
  }

  /** Gluing the segments of a text gives the text back: nothing is lost by Split. */
  lemma {:induction false} JoinSplit(s: string)
    ensures Join(Split(s)) == s
    decreases |s|
  {
    var k := FirstIndex(s, '\n');
    if k < |s| {
      JoinSplit(s[k + 1..]);
      assert s == s[..k] + "\n" + s[k + 1..];
    }
  }

  /** Splitting glued segments recovers them, provided none holds a line feed. */
  lemma {:induction false} SplitJoin(parts: seq<string>)
    requires |parts| >= 1
    requires forall i :: 0 <= i < |parts| ==> '\n' !in parts[i]
    ensures Split(Join(parts)) == parts
  {
    if |parts| == 1 {
      FirstIndexUnique(parts[0], '\n', |parts[0]|);
    } else {
      SplitJoin(parts[1..]);
      SplitFront(parts[0], Join(parts[1..]));
      assert [parts[0]] + parts[1..] == parts;
    }
  }

  /** `lines.filter(Boolean)`: the non-empty strings, in their original order. */
  function NonEmpty(lines: seq<string>): (kept: seq<string>)
    ensures |kept| <= |lines|
    ensures forall i :: 0 <= i < |kept| ==> kept[i] != "" && kept[i] in lines
  {
    if lines == [] then []
    else if lines[0] == "" then NonEmpty(lines[1..])
    else [lines[0]] + NonEmpty(lines[1..])
  }

  /** Every non-empty string survives the filter. */
  lemma {:induction false} NonEmptyKeeps(lines: seq<string>, i: nat)
    requires i < |lines| && lines[i] != ""
    ensures lines[i] in NonEmpty(lines)
  {
    if i > 0 {
      NonEmptyKeeps(lines[1..], i - 1);
      assert lines[1..][i - 1] == lines[i];
    }
  }

  /** The filter works element by element, so it keeps relative order. */
  lemma {:induction false} NonEmptyAppend(a: seq<string>, b: seq<string>)
    ensures NonEmpty(a + b) == NonEmpty(a) + NonEmpty(b)
  {
    if a == [] {
      assert a + b == b;
    } else {
      NonEmptyAppend(a[1..], b);
      assert (a + b)[1..] == a[1..] + b;
    }
  }

  /** A list without empty strings passes the filter unchanged. */
  lemma {:induction false} NonEmptyOfNonEmpty(lines: seq<string>)
    requires forall i :: 0 <= i < |lines| ==> lines[i] != ""
    ensures NonEmpty(lines) == lines
  {
    if lines != [] {
      NonEmptyOfNonEmpty(lines[1..]);
      assert [lines[0]] + lines[1..] == lines;
    }
  }
}
