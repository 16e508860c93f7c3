/**
 * The Python string built-ins the review script and the age calculation rely on:
 * `str.splitlines()`, the substring test `needle in s`, `str.split(sep)` with a
 * one-character separator, and `int(text)` restricted to unsigned ASCII decimals.
 */
module Strings {
  import opened Wrappers

  // ---------------------------------------------------------------------------
  // Substring test: `needle in s`
  // ---------------------------------------------------------------------------

  /** `pat` occurs in `s` starting at index `i`. */
  ghost predicate OccursAt(s: string, pat: string, i: int) {
    0 <= i && i + |pat| <= |s| && s[i..i + |pat|] == pat
  }

  /** Python's `pat in s`: `pat` occurs anywhere in `s`, unanchored. */
  function Contains(s: string, pat: string): bool
    decreases |s|
  {
    if |s| < |pat| then false
    else if s[..|pat|] == pat then true
    else if s == [] then false
    else Contains(s[1..], pat)
  }

  /** The scanner agrees with the declarative reading: some index starts an occurrence. */
  lemma {:induction false} ContainsIff(s: string, pat: string)
    ensures Contains(s, pat) <==> exists i :: OccursAt(s, pat, i)
    decreases |s|
  {
    if |s| < |pat| {
      assert forall i :: !OccursAt(s, pat, i);
    } else if s[..|pat|] == pat {
      assert OccursAt(s, pat, 0);
    } else if s != [] {
      ContainsIff(s[1..], pat);
      forall i | OccursAt(s[1..], pat, i) ensures OccursAt(s, pat, i + 1) {
        assert s[1..][i..i + |pat|] == s[i + 1..i + 1 + |pat|];
      }
      forall i | OccursAt(s, pat, i) ensures i >= 1 && OccursAt(s[1..], pat, i - 1) {
        assert s[1..][i - 1..i - 1 + |pat|] == s[i..i + |pat|];
      }
    }
  }

  /** A pattern holding a character that the text lacks does not occur in it. */
  lemma {:induction false} MissingCharNotContained(s: string, pat: string, c: char)
    requires c in pat && c !in s
    ensures !Contains(s, pat)
    decreases |s|
  {
    if |s| >= |pat| {
      var j :| 0 <= j < |pat| && pat[j] == c;
      assert s[..|pat|][j] == s[j];
      assert c !in s[1..] by {
        forall k | 0 <= k < |s| - 1 ensures s[1..][k] != c {
          assert s[1..][k] == s[k + 1];
        }
      }
      MissingCharNotContained(s[1..], pat, c);
    }
  }

  // ---------------------------------------------------------------------------
  // `str.splitlines()`
  // ---------------------------------------------------------------------------

  /** The characters Python's `str.splitlines` treats as line boundaries. */
  predicate IsLineBoundary(c: char) {
    c == '\n' || c == '\r' || c == '\U{000B}' || c == '\U{000C}'
    || c == '\U{001C}' || c == '\U{001D}' || c == '\U{001E}'
    || c == '\U{0085}' || c == '\U{2028}' || c == '\U{2029}'
  }

  /** Index of the first line boundary in `s`, or `|s|` when there is none. */
  function LineEnd(s: string): (k: nat)
    ensures k <= |s|
    ensures k < |s| ==> IsLineBoundary(s[k])
  {
    if s == [] || IsLineBoundary(s[0]) then 0 else 1 + LineEnd(s[1..])
  }

  /** No boundary comes before `LineEnd(s)`. */
  lemma {:induction false} LineEndIsFirst(s: string, i: nat)
    requires i < LineEnd(s)
    ensures !IsLineBoundary(s[i])
  {
    if i > 0 {
      LineEndIsFirst(s[1..], i - 1);
    }
  }

  /** The length of the boundary starting at `k`: 2 for `"\r\n"`, otherwise 1. */
  function BoundaryWidth(s: string, k: nat): (w: nat)
    requires k < |s|
    ensures 1 <= w <= 2 && k + w <= |s|
  {
    if s[k] == '\r' && k + 1 < |s| && s[k + 1] == '\n' then 2 else 1
  }

  /**
   * Python's `s.splitlines()`: the lines of `s` without their boundaries. A `"\r\n"`
   * pair is one boundary; a boundary at the very end does not open an extra empty
   * line; the empty string has no lines.
   */
  function SplitLines(s: string): seq<string>
    decreases |s|
  {
    if s == [] then []
    else
      var k := LineEnd(s);
      if k == |s| then [s]
      else [s[..k]] + SplitLines(s[k + BoundaryWidth(s, k)..])
  }

  /** `line` holds no line-boundary character. */
  ghost predicate BoundaryFree(line: string) {
    forall i :: 0 <= i < |line| ==> !IsLineBoundary(line[i])
  }

  /** The text before the first boundary holds none. */
  lemma FirstLineBoundaryFree(s: string)
    ensures BoundaryFree(s[..LineEnd(s)])
  {
    forall i | 0 <= i < LineEnd(s) ensures !IsLineBoundary(s[..LineEnd(s)][i]) {
      LineEndIsFirst(s, i);
    }
  }

  /** No line returned by `splitlines` contains a boundary character. */
  lemma {:induction false} SplitLinesHaveNoBoundary(s: string)
    ensures forall j :: 0 <= j < |SplitLines(s)| ==> BoundaryFree(SplitLines(s)[j])
    decreases |s|
  {
    if s != [] {
      var k := LineEnd(s);
      FirstLineBoundaryFree(s);
      if k == |s| {
        assert s[..k] == s;
      } else {
        var rest := s[k + BoundaryWidth(s, k)..];
        SplitLinesHaveNoBoundary(rest);
        assert SplitLines(s) == [s[..k]] + SplitLines(rest);
      }
    }
  }

  /** Every non-empty string has at least one line, and never more lines than characters. */
  lemma {:induction false} SplitLinesCount(s: string)
    ensures s == [] <==> SplitLines(s) == []
    ensures |SplitLines(s)| <= |s|
    decreases |s|
  {
    if s != [] {
      var k := LineEnd(s);
      if k == |s| {
        assert SplitLines(s) == [s];
      } else {
        var rest := s[k + BoundaryWidth(s, k)..];
        SplitLinesCount(rest);
        assert SplitLines(s) == [s[..k]] + SplitLines(rest);
        assert |SplitLines(s)| == 1 + |SplitLines(rest)|;
      }
    }
  }

  /** Each line followed by `"\n"`, concatenated. */
  function Terminated(lines: seq<string>): string {
    if lines == [] then [] else lines[0] + "\n" + Terminated(lines[1..])
  }

  /** Every line boundary in `s` is a `'\n'`. */
  ghost predicate OnlyNewlines(s: string) {
    forall i :: 0 <= i < |s| && IsLineBoundary(s[i]) ==> s[i] == '\n'
  }

  /**
   * For text whose only line boundary is `'\n'`, `splitlines` is undone by writing each
   * line back followed by `"\n"`: the result is the text itself, with a final `"\n"`
   * added when the text is not empty and did not already end with one.
   */
  lemma {:induction false} SplitLinesRoundTrip(s: string)
    requires OnlyNewlines(s)
    ensures Terminated(SplitLines(s)) == NewlineTerminated(s)
    decreases |s|
  {
    if s != [] {
      var k := LineEnd(s);
      if k == |s| {
        RoundTripOneLine(s);
      } else {
        FirstLineAtNewline(s, k);
        SplitLinesRoundTrip(s[k + 1..]);
        RoundTripStep(s, k, SplitLines(s[k + 1..]));
      }
    }
  }

  /** The round trip for text without any boundary. */
  lemma RoundTripOneLine(s: string)
    requires s != [] && LineEnd(s) == |s|
    ensures Terminated(SplitLines(s)) == NewlineTerminated(s)
  {
    calc {
      Terminated(SplitLines(s));
      == { assert SplitLines(s) == [s]; }
      Terminated([s]);
      == { TerminatedCons(s, []); }
      s + "\n";
      == { LineEndIsFirst(s, |s| - 1); }
      NewlineTerminated(s);
    }
  }

  /** The round trip for `s` follows from the one for the text after its first `'\n'`. */
  lemma RoundTripStep(s: string, k: nat, lines: seq<string>)
    requires k < |s| && s[k] == '\n'
    requires Terminated(lines) == NewlineTerminated(s[k + 1..])
    ensures Terminated([s[..k]] + lines) == NewlineTerminated(s)
  {
    var rest := s[k + 1..];
    var line := s[..k];
    calc {
      Terminated([line] + lines);
      == { TerminatedCons(line, lines); }
      line + "\n" + Terminated(lines);
      line + "\n" + NewlineTerminated(rest);
      == { NewlineTerminatedCons(line, rest); }
      NewlineTerminated(line + "\n" + rest);
      == { assert line + "\n" + rest == s; }
      NewlineTerminated(s);
    }
  }

  /** `s` with a final `"\n"` added unless it is empty or already ends with one. */
  function NewlineTerminated(s: string): string {
    if s == [] || s[|s| - 1] == '\n' then s else s + "\n"
  }

  lemma NewlineTerminatedCons(line: string, rest: string)
    ensures NewlineTerminated(line + "\n" + rest) == line + "\n" + NewlineTerminated(rest)
  {
    var s := line + "\n" + rest;
    if rest != [] {
      assert s[|s| - 1] == rest[|rest| - 1];
      if rest[|rest| - 1] != '\n' {
        assert s + "\n" == line + "\n" + (rest + "\n");
      }
    } else {
      assert s == line + "\n";
    }
  }

  /** One step of `SplitLinesRoundTrip`: the first line ends at a `'\n'`. */
  lemma FirstLineAtNewline(s: string, k: nat)
    requires OnlyNewlines(s) && k == LineEnd(s) && k < |s|
    ensures s[k] == '\n' && BoundaryWidth(s, k) == 1
    ensures OnlyNewlines(s[k + 1..])
    ensures SplitLines(s) == [s[..k]] + SplitLines(s[k + 1..])
  {
    var rest := s[k + 1..];
    forall i | 0 <= i < |rest| && IsLineBoundary(rest[i]) ensures rest[i] == '\n' {
      assert rest[i] == s[k + 1 + i];
    }
  }

  lemma TerminatedCons(line: string, lines: seq<string>)
    ensures Terminated([line] + lines) == line + "\n" + Terminated(lines)
  {
    assert ([line] + lines)[1..] == lines;
  }

  /** A `"\n"` after a last line that has no boundary yet does not add a line. */
  lemma {:induction false} TrailingNewlineAddsNoLine(s: string)
    requires s != [] && !IsLineBoundary(s[|s| - 1])
    ensures SplitLines(s + "\n") == SplitLines(s)
    decreases |s|
  {
    var t := s + "\n";
    var k := LineEnd(s);
    LineEndOfExtension(s, "\n");
    if k == |s| {
      assert t[..k] == s;
      assert t[k + 1..] == [];
    } else {
      assert k + 1 < |s|;
      assert t[k + 1] == s[k + 1];
      var next := k + BoundaryWidth(s, k);
      assert next == k + BoundaryWidth(t, k);
      assert next < |s|;
      assert t[next..] == s[next..] + "\n";
      assert t[..k] == s[..k];
      TrailingNewlineAddsNoLine(s[next..]);
    }
  }

  /** Appending text after a boundary-free prefix does not move the first boundary. */
  lemma {:induction false} LineEndOfExtension(s: string, u: string)
    ensures LineEnd(s) < |s| ==> LineEnd(s + u) == LineEnd(s)
    ensures LineEnd(s) == |s| ==> LineEnd(s + u) == |s| + LineEnd(u)
    decreases |s|
  {
    if s != [] {
      assert (s + u)[0] == s[0];
      if !IsLineBoundary(s[0]) {
        assert (s + u)[1..] == s[1..] + u;
        LineEndOfExtension(s[1..], u);
      }
    } else {
      assert s + u == u;
    }
  }

  // ---------------------------------------------------------------------------
  // `str.split(sep)` with a one-character separator
  // ---------------------------------------------------------------------------

  /**
   * Python's `s.split(sep)` for a one-character `sep`: the maximal pieces between
   * separators, empty pieces included, so there is always at least one.
   */
  function Split(s: string, sep: char): (fields: seq<string>)
    ensures |fields| >= 1
  {
    if s == [] then [[]]
    else
      var rest := Split(s[1..], sep);
      if s[0] == sep then [[]] + rest
      else [[s[0]] + rest[0]] + rest[1..]
  }

  /** The fields joined back with `sep` between them (Python's `sep.join(fields)`). */
  function Join(fields: seq<string>, sep: char): string
    requires |fields| >= 1
  {
    if |fields| == 1 then fields[0] else fields[0] + [sep] + Join(fields[1..], sep)
  }

  /** Text without the separator is a single field. */
  lemma {:induction false} SplitWithoutSeparator(s: string, sep: char)
    requires sep !in s
    ensures Split(s, sep) == [s]
  {
    if s != [] {
      assert sep !in s[1..];
      SplitWithoutSeparator(s[1..], sep);
      assert [s[0]] + s[1..] == s;
    }
  }

  /** No field produced by `split` contains the separator. */
  lemma {:induction false} SplitFieldsLackSeparator(s: string, sep: char)
    ensures forall j :: 0 <= j < |Split(s, sep)| ==> sep !in Split(s, sep)[j]
  {
    if s != [] {
      SplitFieldsLackSeparator(s[1..], sep);
    }
  }

  /** `split` then `join` gives back the original string. */
  lemma {:induction false} JoinSplit(s: string, sep: char)
    ensures Join(Split(s, sep), sep) == s
  {
    if s != [] {
      var rest := Split(s[1..], sep);
      JoinSplit(s[1..], sep);
      if s[0] == sep {
        assert Split(s, sep)[1..] == rest;
      } else {
        var fields := Split(s, sep);
        assert fields[1..] == rest[1..];
        if |rest| > 1 {
          assert Join(rest, sep) == rest[0] + [sep] + Join(rest[1..], sep);
        }
      }
    }
  }

  /** Splitting at a separator splits the fields: `(a + sep + b).split(sep) == a.split(sep) + b.split(sep)`. */
  lemma {:induction false} SplitAppend(a: string, sep: char, b: string)
    ensures Split(a + [sep] + b, sep) == Split(a, sep) + Split(b, sep)
  {
    if a == [] {
      assert [sep] + b == a + [sep] + b;
      assert ([sep] + b)[1..] == b;
    } else {
      assert (a + [sep] + b)[0] == a[0];
      assert (a + [sep] + b)[1..] == a[1..] + [sep] + b;
      SplitAppend(a[1..], sep, b);
    }
  }

  // ---------------------------------------------------------------------------
  // `int(text)` on unsigned ASCII decimal literals
  // ---------------------------------------------------------------------------

  predicate IsDigit(c: char) {
    '0' <= c <= '9'
  }

  /**
   * `int(text)` for text made only of ASCII decimal digits: `Some` of its value, or
   * `None` (Python raises `ValueError`) when the text is empty or holds another character.
   * Leading zeros are accepted, as `int("05") == 5` in Python.
   */
  function ParseInt(text: string): (r: Option<nat>)
    ensures r.Some? <==> text != [] && forall i :: 0 <= i < |text| ==> IsDigit(text[i])
  {
    if text == [] then None
    else if !IsDigit(text[|text| - 1]) then None
    else if |text| == 1 then Some(text[0] as int - '0' as int)
    else match ParseInt(text[..|text| - 1])
      case None => None
      case Some(v) => Some(10 * v + (text[|text| - 1] as int - '0' as int))
  }

  /** Leading zeros do not change the value, as with `int("0005") == 5`. */
  lemma {:induction false} ParseLeadingZero(text: string)
    requires text != []
    ensures ParseInt("0" + text) == ParseInt(text)
    decreases |text|
  {
    var t := "0" + text;
    assert t[|t| - 1] == text[|text| - 1];
    if |text| > 1 {
      assert t[..|t| - 1] == "0" + text[..|text| - 1];
      ParseLeadingZero(text[..|text| - 1]);
    } else {
      assert t[..|t| - 1] == "0";
    }
  }

  /** Decimal representation of `n`, without leading zeros. */
  function Digits(n: nat): (text: string)
    ensures text != [] && forall i :: 0 <= i < |text| ==> IsDigit(text[i])
  {
    if n < 10 then [('0' as int + n) as char]
    else Digits(n / 10) + [('0' as int + n % 10) as char]
  }

  /** Parsing the decimal representation of `n` gives `n` back. */
  lemma {:induction false} ParseDigits(n: nat)
    ensures ParseInt(Digits(n)) == Some(n)
  {
    if n >= 10 {
      ParseDigits(n / 10);
      assert Digits(n)[..|Digits(n)| - 1] == Digits(n / 10);
    }
  }
}
