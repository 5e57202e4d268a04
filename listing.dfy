/**
 `getExtensions`: the text printed by `code --list-extensions --show-versions`
 turned into extension records. Every line is matched against the pattern
 `^([^.]+)\.([^\@]+)\@(.+)$`; a matching line yields
 `{publisher, extension, version}` from the three groups, any other line is
 dropped without a word, and the surviving records keep the order of their lines.
 The matcher is written out by hand; `WellFormed` and `Line` are the
 declarative reading of the pattern, and the lemmas prove the two agree.
 */
module Listing {
  import opened Text

  datatype Option<T> = None | Some(value: T)

  /** One installed extension, as named by one line of the listing. */
  datatype Extension = Extension(publisher: string, extension: string, version: string)

  /** The characters JavaScript's `.` refuses to match. */
  predicate IsLineTerminator(c: char)
  {
    c == '\n' || c == '\r' || c == '\U{2028}' || c == '\U{2029}'
  }

  /** No character of `s` is a line terminator, so `.+` can consume all of it. */
  predicate NoLineTerminator(s: string)
  {
    forall i :: 0 <= i < |s| ==> !IsLineTerminator(s[i])
  }

  /**
   The three groups of the pattern: `[^.]+` (non-empty, no `.`, but `@` allowed),
   `[^\@]+` (non-empty, no `@`, but `.` allowed) and `.+` (non-empty, no line
   terminator).
   */
  predicate WellFormed(x: Extension)
  {
    && x.publisher != [] && '.' !in x.publisher
    && x.extension != [] && '@' !in x.extension
    && x.version != [] && NoLineTerminator(x.version)
  }

  /** The text `publisher.extension@version` whose groups are the record's fields. */
  function Line(x: Extension): string
  {
    x.publisher + "." + x.extension + "@" + x.version
  }

  /**
   `line.match(/^([^.]+)\.([^\@]+)\@(.+)$/)`. The first group cannot hold a `.`,
   so it ends at the first `.` of the line; the second cannot hold an `@`, so it
   ends at the first `@` after that; the third is the rest. A result means the
   line is exactly the record's fields around the two separators.
   */
  function ParseLine(line: string): (r: Option<Extension>)
    ensures r.Some? ==> WellFormed(r.value) && Line(r.value) == line
  {
    var dot := FirstIndex(line, '.');
    if dot == 0 || dot == |line| then None
    else
      var rest := line[dot + 1..];
      var at := FirstIndex(rest, '@');
      if at == 0 || at == |rest| then None
      else
        var version := rest[at + 1..];
        if version == [] || !NoLineTerminator(version) then None
        else
          assert line == line[..dot] + "." + rest[..at] + "@" + version;
          Some(Extension(line[..dot], rest[..at], version))
  }

  /** Every text of the pattern's shape is matched, with the intended groups. */
  lemma ParseLineComplete(x: Extension)
    requires WellFormed(x)
    ensures ParseLine(Line(x)) == Some(x)
  {
    var line := Line(x);
    var p := |x.publisher|;
    FirstIndexUnique(line, '.', p);
    var rest := line[p + 1..];
    assert rest == x.extension + "@" + x.version;
    FirstIndexUnique(rest, '@', |x.extension|);
    assert rest[|x.extension| + 1..] == x.version;
    assert line[..p] == x.publisher;
    assert rest[..|x.extension|] == x.extension;
  }

  /** The matcher and the pattern agree in both directions. */
  lemma ParseLineIff(line: string, x: Extension)
    ensures ParseLine(line) == Some(x) <==> WellFormed(x) && Line(x) == line
  {
    if WellFormed(x) && Line(x) == line {
      ParseLineComplete(x);
    }
  }

  /** A line splits into the three groups in at most one way. */
  lemma SplitIsUnique(x: Extension, y: Extension)
    requires WellFormed(x) && WellFormed(y)
    requires Line(x) == Line(y)
    ensures x == y
  {
    ParseLineComplete(x);
    ParseLineComplete(y);
  }

  /**
   The publisher is the text before the line's first `.`, and the extension
   runs from there to the first `@` after it.
   */
  lemma SplitPoints(line: string)
    requires ParseLine(line).Some?
    ensures var x := ParseLine(line).value;
      && FirstIndex(line, '.') == |x.publisher|
      && x.publisher == line[..|x.publisher|]
      && FirstIndex(line[|x.publisher| + 1..], '@') == |x.extension|
  {
    var x := ParseLine(line).value;
    ParseLineComplete(x);
  }

  /** A line yields nothing exactly when no record's fields spell it. */
  lemma ParseLineNone(line: string)
    ensures ParseLine(line) == None <==> forall x :: WellFormed(x) ==> Line(x) != line
  {
    if ParseLine(line) == None {
      forall x | WellFormed(x) ensures Line(x) != line {
        ParseLineComplete(x);
      }
    }
  }

  /** A line without a `.` is dropped. */
  lemma RejectsNoDot(line: string)
    requires '.' !in line
    ensures ParseLine(line) == None
  {
  }

  /** A line starting with a `.` is dropped: the publisher would be empty. */
  lemma RejectsLeadingDot(line: string)
    requires |line| > 0 && line[0] == '.'
    ensures ParseLine(line) == None
  {
  }

  /** A line with no `@` after its first `.` is dropped. */
  lemma RejectsNoAt(line: string)
    requires FirstIndex(line, '.') < |line|
    requires '@' !in line[FirstIndex(line, '.') + 1..]
    ensures ParseLine(line) == None
  {
  }

  /** A line whose first `.` is directly followed by `@` is dropped: the extension would be empty. */
  lemma RejectsEmptyExtension(line: string)
    requires FirstIndex(line, '.') + 1 < |line|
    requires line[FirstIndex(line, '.') + 1] == '@'
    ensures ParseLine(line) == None
  {
  }

  /**
   A line whose text after the separating `@` is empty or holds a line
   terminator is dropped.
   */
  lemma RejectsBadVersion(line: string, dot: nat, at: nat)
    requires dot == FirstIndex(line, '.') && dot < |line|
    requires at == dot + 1 + FirstIndex(line[dot + 1..], '@') && at < |line|
    requires at + 1 == |line| || !NoLineTerminator(line[at + 1..])
    ensures ParseLine(line) == None
  {
  }

  /** A line ending in a carriage return (CRLF output) never matches. */
  lemma CarriageReturnLineDropped(line: string)
    requires |line| > 0 && line[|line| - 1] == '\r'
    ensures ParseLine(line) == None
  {
  }

  /** `s.map(f).filter(Boolean)`, for a mapping that yields a value or nothing. */
  function FilterMap<A, B>(f: A -> Option<B>, s: seq<A>): (r: seq<B>)
    ensures |r| <= |s|
  {
    if s == [] then []
    else
      match f(s[0])
      case Some(y) => [y] + FilterMap(f, s[1..])
      case None => FilterMap(f, s[1..])
  }

  /** What one element contributes: its value, or nothing. */
  function Kept<A, B>(f: A -> Option<B>, a: A): seq<B>
  {
    match f(a)
    case Some(y) => [y]
    case None => []
  }

  lemma FilterMapCons<A, B>(f: A -> Option<B>, s: seq<A>)
    requires s != []
    ensures FilterMap(f, s) == Kept(f, s[0]) + FilterMap(f, s[1..])
  {
  }

  lemma {:induction false} FilterMapAppend<A, B>(f: A -> Option<B>, a: seq<A>, b: seq<A>)
    ensures FilterMap(f, a + b) == FilterMap(f, a) + FilterMap(f, b)
  {
    if a == [] {
      assert a + b == b;
    } else {
      var ab := a + b;
      assert ab[1..] == a[1..] + b;
      assert ab[0] == a[0];
      FilterMapCons(f, ab);
      FilterMapCons(f, a);
      FilterMapAppend(f, a[1..], b);
      calc {
        FilterMap(f, ab);
        Kept(f, a[0]) + FilterMap(f, a[1..] + b);
        Kept(f, a[0]) + (FilterMap(f, a[1..]) + FilterMap(f, b));
        (Kept(f, a[0]) + FilterMap(f, a[1..])) + FilterMap(f, b);
        FilterMap(f, a) + FilterMap(f, b);
      }
    }
  }

  lemma {:induction false} FilterMapOrder<A, B>(f: A -> Option<B>, s: seq<A>) returns (idx: seq<nat>)
    ensures |idx| == |FilterMap(f, s)|
    ensures forall k :: 0 <= k < |idx| ==> idx[k] < |s| && f(s[idx[k]]) == Some(FilterMap(f, s)[k])
    ensures forall k, m :: 0 <= k < m < |idx| ==> idx[k] < idx[m]
  {
    if s == [] {
      idx := [];
    } else {
      var tail := FilterMapOrder(f, s[1..]);
      var rest := FilterMap(f, s[1..]);
      var shifted := Shift(tail);
      forall k | 0 <= k < |shifted|
        ensures 0 < shifted[k] < |s| && f(s[shifted[k]]) == Some(rest[k])
      {
        assert s[shifted[k]] == s[1..][tail[k]];
      }
      if f(s[0]).Some? {
        idx := ConsIndex(shifted);
        assert FilterMap(f, s) == [f(s[0]).value] + rest;
      } else {
        idx := shifted;
        assert FilterMap(f, s) == rest;
      }
    }
  }

  /** Every position one further on. */
  function Shift(t: seq<nat>): (r: seq<nat>)
    ensures |r| == |t|
    ensures forall k :: 0 <= k < |t| ==> r[k] == t[k] + 1
  {
    if t == [] then [] else [t[0] + 1] + Shift(t[1..])
  }

  lemma ConsIndex(shifted: seq<nat>) returns (idx: seq<nat>)
    requires forall k, m :: 0 <= k < m < |shifted| ==> shifted[k] < shifted[m]
    requires forall k :: 0 <= k < |shifted| ==> 0 < shifted[k]
    ensures idx == [0] + shifted
    ensures forall k, m :: 0 <= k < m < |idx| ==> idx[k] < idx[m]
  {
    idx := [0] + shifted;
    forall k, m | 0 <= k < m < |idx| ensures idx[k] < idx[m] {
      if k > 0 {
        assert idx[k] == shifted[k - 1] && idx[m] == shifted[m - 1];
      } else {
        assert idx[m] == shifted[m - 1];
      }
    }
  }

  /**
   `lines.map(ParseLine).filter(Boolean)`: the records of the matching lines,
   in the order of those lines.
   */
  function ParseLines(lines: seq<string>): (xs: seq<Extension>)
    ensures |xs| <= |lines|
    ensures forall k :: 0 <= k < |xs| ==> WellFormed(xs[k])
  {
    var xs := FilterMap(ParseLine, lines);
    assert forall k :: 0 <= k < |xs| ==> WellFormed(xs[k]) by {
      var idx := FilterMapOrder(ParseLine, lines);
      forall k | 0 <= k < |xs| ensures WellFormed(xs[k]) {
        assert ParseLine(lines[idx[k]]) == Some(xs[k]);
      }
    }
    xs
  }

  /** Parsing works line by line, so records keep the relative order of their lines. */
  lemma ParseLinesAppend(a: seq<string>, b: seq<string>)
    ensures ParseLines(a + b) == ParseLines(a) + ParseLines(b)
  {
    FilterMapAppend(ParseLine, a, b);
  }

  /**
   Order, stated with positions: the k-th record is parsed from line `idx[k]`,
   and the positions strictly increase. That every matching line has its
   record in the result, at its place, is ParseLinesAt.
   */
  lemma ParseLinesOrder(lines: seq<string>) returns (idx: seq<nat>)
    ensures |idx| == |ParseLines(lines)|
    ensures forall k :: 0 <= k < |idx| ==>
      idx[k] < |lines| && ParseLine(lines[idx[k]]) == Some(ParseLines(lines)[k])
    ensures forall k, m :: 0 <= k < m < |idx| ==> idx[k] < idx[m]
  {
    idx := FilterMapOrder(ParseLine, lines);
  }

  /**
   A matching line contributes its record exactly at its place: after the
   records of the lines before it and before those of the lines after it.
   */
  lemma ParseLinesAt(lines: seq<string>, i: nat)
    requires i < |lines| && ParseLine(lines[i]).Some?
    ensures ParseLines(lines)
      == ParseLines(lines[..i]) + [ParseLine(lines[i]).value] + ParseLines(lines[i + 1..])
  {
    assert lines == lines[..i] + ([lines[i]] + lines[i + 1..]);
    ParseLinesAppend(lines[..i], [lines[i]] + lines[i + 1..]);
    ParseLinesAppend([lines[i]], lines[i + 1..]);
    assert ParseLines([lines[i]]) == [ParseLine(lines[i]).value];
  }

  /** `getExtensions` on the listing command's output. */
  function ParseOutput(stdout: string): (xs: seq<Extension>)
    ensures |xs| <= |NonEmpty(Split(stdout))|
    ensures forall k :: 0 <= k < |xs| ==> WellFormed(xs[k]) && Line(xs[k]) in Split(stdout)
  {
    var xs := ParseLines(NonEmpty(Split(stdout)));
    assert forall k :: 0 <= k < |xs| ==> Line(xs[k]) in NonEmpty(Split(stdout)) by {
      var idx := ParseLinesOrder(NonEmpty(Split(stdout)));
      forall k | 0 <= k < |xs| ensures Line(xs[k]) in NonEmpty(Split(stdout)) {
        assert Line(xs[k]) == NonEmpty(Split(stdout))[idx[k]];
      }
    }
    xs
  }

  /**
   What the listing command prints for these extensions: one line per record,
   each ending in a line feed.
   */
  function ListOutput(xs: seq<Extension>): string
  {
    if xs == [] then "" else Line(xs[0]) + "\n" + ListOutput(xs[1..])
  }

  /** A record the listing can print on one line and read back. */
  predicate Listable(x: Extension)
  {
    WellFormed(x) && '\n' !in x.publisher && '\n' !in x.extension
  }

  /** The lines of ListOutput; note the final empty segment after the last line feed. */
  function Lines(xs: seq<Extension>): (ls: seq<string>)
    ensures |ls| == |xs|
  {
    if xs == [] then [] else [Line(xs[0])] + Lines(xs[1..])
  }

  lemma NewlineFree(x: Extension)
    requires Listable(x)
    ensures '\n' !in Line(x)
  {
    assert forall i :: 0 <= i < |x.version| ==> x.version[i] != '\n';
  }

  lemma {:induction false} SplitListOutput(xs: seq<Extension>)
    requires forall k :: 0 <= k < |xs| ==> Listable(xs[k])
    ensures Split(ListOutput(xs)) == Lines(xs) + [""]
  {
    if xs == [] {
      assert Split("") == [""];
    } else {
      var x := xs[0];
      NewlineFree(x);
      SplitListOutput(xs[1..]);
      SplitFront(Line(x), ListOutput(xs[1..]));
    }
  }

  lemma {:induction false} ParseLinesOfLines(xs: seq<Extension>)
    requires forall k :: 0 <= k < |xs| ==> WellFormed(xs[k])
    ensures ParseLines(Lines(xs)) == xs
    ensures forall k :: 0 <= k < |xs| ==> Lines(xs)[k] != ""
  {
    if xs != [] {
      ParseLineComplete(xs[0]);
      ParseLinesOfLines(xs[1..]);
      assert Lines(xs)[1..] == Lines(xs[1..]);
      assert forall k :: 1 <= k < |xs| ==> Lines(xs)[k] == Lines(xs[1..])[k - 1];
    }
  }

  /**
   Round trip of the listing: reading what the command prints for a list of
   records gives back exactly that list, in the same order.
   */
  lemma ParseOutputRoundTrip(xs: seq<Extension>)
    requires forall k :: 0 <= k < |xs| ==> Listable(xs[k])
    ensures ParseOutput(ListOutput(xs)) == xs
  {
    SplitListOutput(xs);
    ParseLinesOfLines(xs);
    NonEmptyAppend(Lines(xs), [""]);
    NonEmptyOfNonEmpty(Lines(xs));
    assert NonEmpty([""]) == [];
    assert Lines(xs) + [] == Lines(xs);
  }

  /**
   Output produced with CRLF line endings parses to nothing: every line keeps
   its carriage return after splitting on line feeds.
   */
  lemma {:induction false} CarriageReturnLinesDropped(lines: seq<string>)
    requires forall i :: 0 <= i < |lines| ==> |lines[i]| > 0 && lines[i][|lines[i]| - 1] == '\r'
    ensures ParseLines(lines) == []
  {
    if lines != [] {
      CarriageReturnLineDropped(lines[0]);
      CarriageReturnLinesDropped(lines[1..]);
    }
  }

  /**
   Two listed extensions with a line of noise between them (say
   `ms-python.python@2024.1.0`, `garbage-line`, `golang.go@0.42.0`): the noise
   is dropped and the two records come out in order.
   */
  lemma NoiseLineDropped(a: Extension, b: Extension, noise: string)
    requires Listable(a) && Listable(b)
    requires '.' !in noise && '\n' !in noise
    ensures ParseOutput(Join([Line(a), noise, Line(b), ""])) == [a, b]
  {
    NewlineFree(a);
    NewlineFree(b);
    var la, lb := Line(a), Line(b);
    var parts := [la, noise, lb, ""];
    SplitJoin(parts);
    assert parts == [la] + [noise] + [lb] + [""];
    NonEmptyAppend([la] + [noise] + [lb], [""]);
    NonEmptyAppend([la] + [noise], [lb]);
    NonEmptyAppend([la], [noise]);
    assert NonEmpty([la]) == [la] && NonEmpty([lb]) == [lb] && NonEmpty([""]) == [];
    var quiet := NonEmpty([noise]);
    assert NonEmpty(Split(Join(parts))) == [la] + quiet + [lb];
    ParseLinesAppend([la] + quiet, [lb]);
    ParseLinesAppend([la], quiet);
    ParseLineComplete(a);
    ParseLineComplete(b);
    ParseLinesOne(la);
    ParseLinesOne(lb);
    RejectsNoDot(noise);
    if noise != "" {
      ParseLinesOne(noise);
      assert quiet == [noise];
    } else {
      assert quiet == [];
    }
    assert ParseLines(quiet) == [];
  }

  lemma ParseLinesOne(line: string)
    ensures ParseLines([line]) == if ParseLine(line).Some? then [ParseLine(line).value] else []
  {
    assert [line][1..] == [];
  }
}
