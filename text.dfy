/** The parts of Python's `str` API that the transform relies on: character
    classification, lower-casing, `splitlines()`, `split()` and `join()`.

    Whitespace and line boundaries follow Python's own tables exactly.
    Letters and lower-casing are restricted to ASCII and Latin-1: a character
    above U+00FF is treated as a non-letter and is left alone by lower-casing. */
module PyText {

  /** `c.isspace()`: the characters Python's `str.split()` and `str.strip()` treat as whitespace. */
  predicate IsSpace(c: char)
    ensures IsSpace(c) ==> !IsAlpha(c) && !IsDigit(c)
  {
    || c == ' '
    || '\t' <= c <= '\r'
    || '\U{1C}' <= c <= '\U{1F}'
    || c == '\U{85}' || c == '\U{A0}' || c == '\U{1680}'
    || '\U{2000}' <= c <= '\U{200A}'
    || c == '\U{2028}' || c == '\U{2029}' || c == '\U{202F}' || c == '\U{205F}' || c == '\U{3000}'
  }

  /** The line boundaries of `str.splitlines()` (`\r\n` is handled by SplitLines). */
  predicate IsLineBreak(c: char)
    ensures IsLineBreak(c) ==> IsSpace(c)
  {
    || '\n' <= c <= '\r'
    || '\U{1C}' <= c <= '\U{1E}'
    || c == '\U{85}' || c == '\U{2028}' || c == '\U{2029}'
  }

  /** `c.isalpha()` on ASCII and Latin-1. */
  predicate IsAlpha(c: char)
    ensures IsUpper(c) ==> IsAlpha(c)
  {
    || 'A' <= c <= 'Z' || 'a' <= c <= 'z'
    || c == '\U{AA}' || c == '\U{B5}' || c == '\U{BA}'
    || '\U{C0}' <= c <= '\U{D6}' || '\U{D8}' <= c <= '\U{F6}' || '\U{F8}' <= c <= '\U{FF}'
  }

  /** The `\d` of the regular expression, on ASCII digits. */
  predicate IsDigit(c: char) {
    '0' <= c <= '9'
  }

  predicate IsUpper(c: char) {
    'A' <= c <= 'Z' || '\U{C0}' <= c <= '\U{D6}' || '\U{D8}' <= c <= '\U{DE}'
  }

  /** `c.lower()` on ASCII and Latin-1: upper-case letters move down by 0x20. */
  function LowerChar(c: char): (l: char)
    ensures !IsUpper(l)
  {
    if IsUpper(c) then (c as int + 0x20) as char else c
  }

  /** `s.lower()`, character by character. */
  function Lower(s: string): (r: string)
    ensures |r| == |s| && forall i :: 0 <= i < |r| ==> !IsUpper(r[i])
  {
    seq(|s|, i requires 0 <= i < |s| => LowerChar(s[i]))
  }

  lemma LowerIdempotent(s: string)
    ensures Lower(Lower(s)) == Lower(s)
  {
  }

  lemma LowerKeepsSpaces(c: char)
    ensures IsSpace(LowerChar(c)) <==> IsSpace(c)
  {
  }

  predicate NoSpace(w: string) {
    forall i :: 0 <= i < |w| ==> !IsSpace(w[i])
  }

  predicate NoLineBreak(w: string) {
    forall i :: 0 <= i < |w| ==> !IsLineBreak(w[i])
  }

  /** `not s.strip()`: the string holds nothing but whitespace. */
  predicate IsBlank(s: string)
    ensures s == [] ==> IsBlank(s)
  {
    forall i :: 0 <= i < |s| ==> IsSpace(s[i])
  }

  /** Index of the first line boundary in `s`, or `|s|` if there is none. */
  function LineEnd(s: string): (n: nat)
    ensures n <= |s|
    ensures n < |s| ==> IsLineBreak(s[n])
    ensures NoLineBreak(s[..n])
  {
    if s == [] || IsLineBreak(s[0]) then 0 else 1 + LineEnd(s[1..])
  }

  /** `s.splitlines()`: split at every line boundary, `\r\n` counting as one;
      a final boundary does not start another line, so `""` has no lines. */
  function SplitLines(s: string): (lines: seq<string>)
    ensures forall k :: 0 <= k < |lines| ==> NoLineBreak(lines[k])
    ensures s != [] <==> lines != []
    decreases |s|
  {
    if s == [] then []
    else
      var n := LineEnd(s);
      if n == |s| then [s]
      else
        var next := if s[n] == '\r' && n + 1 < |s| && s[n + 1] == '\n' then n + 2 else n + 1;
        [s[..n]] + SplitLines(s[next..])
  }

  /** Index of the first whitespace character in `s`, or `|s|` if there is none. */
  function WordEnd(s: string): (n: nat)
    ensures n <= |s|
    ensures n < |s| ==> IsSpace(s[n])
    ensures NoSpace(s[..n])
  {
    if s == [] || IsSpace(s[0]) then 0 else 1 + WordEnd(s[1..])
  }

  /** `s.split()`: the maximal runs of non-whitespace characters, in order. */
  function SplitWords(s: string): (words: seq<string>)
    ensures forall k :: 0 <= k < |words| ==> words[k] != [] && NoSpace(words[k])
    decreases |s|
  {
    if s == [] then []
    else if IsSpace(s[0]) then SplitWords(s[1..])
    else
      var n := WordEnd(s);
      [s[..n]] + SplitWords(s[n..])
  }

  /** `sep.join(parts)`. */
  function Join(sep: string, parts: seq<string>): (r: string)
    ensures parts != [] ==> parts[0] <= r
  {
    if parts == [] then []
    else if |parts| == 1 then parts[0]
    else parts[0] + sep + Join(sep, parts[1..])
  }

  /** The test `line.strip()` and the split agree: a line is blank exactly when it has no words. */
  lemma {:induction false} BlankIffNoWords(s: string)
    ensures IsBlank(s) <==> SplitWords(s) == []
    decreases |s|
  {
    if s != [] && IsSpace(s[0]) {
      BlankIffNoWords(s[1..]);
      if SplitWords(s) == [] {
        forall i | 0 <= i < |s| ensures IsSpace(s[i]) {
          if i > 0 { assert s[i] == s[1..][i - 1]; }
        }
      }
    }
  }

  /** WordEnd finds the first whitespace character and no other. */
  lemma {:induction false} WordEndAt(s: string, j: nat)
    requires j <= |s| && (j < |s| ==> IsSpace(s[j])) && NoSpace(s[..j])
    ensures WordEnd(s) == j
  {
    if j > 0 {
      assert s[..j][0] == s[0];
      assert s[1..][..j - 1] == s[..j][1..];
      WordEndAt(s[1..], j - 1);
    }
  }

  /** LineEnd finds the first line boundary and no other. */
  lemma {:induction false} LineEndAt(s: string, j: nat)
    requires j <= |s| && (j < |s| ==> IsLineBreak(s[j])) && NoLineBreak(s[..j])
    ensures LineEnd(s) == j
  {
    if j > 0 {
      assert s[..j][0] == s[0];
      assert s[1..][..j - 1] == s[..j][1..];
      LineEndAt(s[1..], j - 1);
    }
  }

  /** A word followed by a space-led rest splits into that word and the split of the rest. */
  lemma SplitWordsCons(w: string, rest: string)
    requires w != [] && NoSpace(w)
    requires rest == [] || IsSpace(rest[0])
    ensures SplitWords(w + rest) == [w] + SplitWords(rest)
  {
    var s := w + rest;
    assert s[..|w|] == w && s[|w|..] == rest;
    WordEndAt(s, |w|);
  }

  /** `" ".join` undoes `split()`: joining whitespace-free, non-empty words with
      single spaces and splitting again gives back the same words. */
  lemma {:induction false} SplitJoin(parts: seq<string>)
    requires forall k :: 0 <= k < |parts| ==> parts[k] != [] && NoSpace(parts[k])
    ensures SplitWords(Join(" ", parts)) == parts
  {
    if parts == [] {
    } else if |parts| == 1 {
      SplitWordsCons(parts[0], []);
      assert parts[0] + [] == parts[0];
    } else {
      var rest := Join(" ", parts[1..]);
      SplitJoin(parts[1..]);
      assert (" " + rest)[1..] == rest;
      SplitWordsCons(parts[0], " " + rest);
      assert parts[0] + " " + rest == parts[0] + (" " + rest);
      assert parts == [parts[0]] + parts[1..];
    }
  }

  /** Words without whitespace, joined by single spaces, hold no line boundary. */
  lemma {:induction false} JoinWordsNoBreak(parts: seq<string>)
    requires forall k :: 0 <= k < |parts| ==> NoSpace(parts[k])
    ensures NoLineBreak(Join(" ", parts))
  {
    if |parts| > 1 {
      JoinWordsNoBreak(parts[1..]);
      var rest := Join(" ", parts[1..]);
      var s := parts[0] + " " + rest;
      forall i | 0 <= i < |s| ensures !IsLineBreak(s[i]) {
        if i > |parts[0]| {
          assert s[i] == rest[i - |parts[0]| - 1];
        }
      }
    }
  }

  /** `"\n".join` undoes `splitlines()` on lines free of boundaries, provided
      the last line is not empty (a trailing empty line would only leave a final
      boundary, which `splitlines()` drops). */
  lemma {:induction false} SplitLinesJoin(lines: seq<string>)
    requires forall k :: 0 <= k < |lines| ==> NoLineBreak(lines[k])
    requires lines != [] ==> lines[|lines| - 1] != []
    ensures SplitLines(Join("\n", lines)) == lines
  {
    if lines == [] {
    } else if |lines| == 1 {
      assert lines[0][..|lines[0]|] == lines[0];
      LineEndAt(lines[0], |lines[0]|);
    } else {
      SplitLinesJoin(lines[1..]);
      SplitLinesCons(lines[0], Join("\n", lines[1..]));
      assert lines == [lines[0]] + lines[1..];
    }
  }

  /** A line without boundaries followed by a line feed splits off as the first line. */
  lemma SplitLinesCons(w: string, rest: string)
    requires NoLineBreak(w)
    ensures SplitLines(w + "\n" + rest) == [w] + SplitLines(rest)
  {
    var s := w + "\n" + rest;
    assert s[..|w|] == w && s[|w| + 1..] == rest;
    LineEndAt(s, |w|);
  }

  /** An empty last line is lost on the way back: `"a\n"` splits into one line, not two. */
  lemma TrailingEmptyLineLost()
    ensures Join("\n", ["a", ""]) == "a\n"
    ensures SplitLines("a\n") == ["a"]
  {
    assert LineEnd("a\n") == 1 by {
      assert "a\n"[1..] == "\n";
    }
    assert "a\n"[..1] == "a";
    assert "a\n"[2..] == [];
  }
}
