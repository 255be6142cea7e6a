/** The generic letter reversal of `reverse_word`: split a word into its
    letters (alphabetic characters and the ASCII apostrophe) and its other
    characters, reverse the letters, and write them back into the letter
    positions of the word while every other position receives the next
    kept character. */
module Reversal {
  import opened PyText
  import opened Results

  /** The test `char.isalpha() or char == "'"`. */
  predicate IsLetter(c: char)
    ensures IsLetter(c) ==> !IsSpace(c) && !IsDigit(c)
  {
    IsAlpha(c) || c == '\''
  }

  /** The letters of `s`, in order. */
  function Letters(s: string): (r: string)
    ensures |r| <= |s|
  {
    if s == [] then []
    else (if IsLetter(s[0]) then [s[0]] else []) + Letters(s[1..])
  }

  /** The characters of `s` that are not letters, in order. */
  function Others(s: string): (r: string)
    ensures |r| <= |s|
  {
    if s == [] then []
    else (if IsLetter(s[0]) then [] else [s[0]]) + Others(s[1..])
  }

  predicate AllLetters(s: string) {
    forall i :: 0 <= i < |s| ==> IsLetter(s[i])
  }

  predicate NoLetters(s: string) {
    forall i :: 0 <= i < |s| ==> !IsLetter(s[i])
  }

  /** `a` and `b` have their letters at the same positions. */
  predicate SamePattern(a: string, b: string) {
    |a| == |b| && forall i :: 0 <= i < |a| ==> (IsLetter(a[i]) <==> IsLetter(b[i]))
  }

  /** Every character is a letter or not, so the two partitions cover the word. */
  lemma {:induction false} PartitionSizes(s: string)
    ensures |Letters(s)| + |Others(s)| == |s|
    ensures AllLetters(Letters(s)) && NoLetters(Others(s))
  {
    if s != [] {
      PartitionSizes(s[1..]);
    }
  }

  lemma {:induction false} LettersAppend(a: string, b: string)
    ensures Letters(a + b) == Letters(a) + Letters(b)
  {
    if a == [] {
      assert a + b == b;
    } else {
      var head := if IsLetter(a[0]) then [a[0]] else [];
      assert (a + b)[0] == a[0] && (a + b)[1..] == a[1..] + b;
      LettersAppend(a[1..], b);
      calc {
        Letters(a + b);
        head + Letters(a[1..] + b);
        head + (Letters(a[1..]) + Letters(b));
        (head + Letters(a[1..])) + Letters(b);
      }
    }
  }

  lemma {:induction false} OthersAppend(a: string, b: string)
    ensures Others(a + b) == Others(a) + Others(b)
  {
    if a == [] {
      assert a + b == b;
    } else {
      var head := if IsLetter(a[0]) then [] else [a[0]];
      assert (a + b)[0] == a[0] && (a + b)[1..] == a[1..] + b;
      OthersAppend(a[1..], b);
      calc {
        Others(a + b);
        head + Others(a[1..] + b);
        head + (Others(a[1..]) + Others(b));
        (head + Others(a[1..])) + Others(b);
      }
    }
  }

  /** The letters in reverse order: `reversed_letters`. */
  function Reverse(s: string): (r: string)
    ensures |r| == |s|
  {
    seq(|s|, i requires 0 <= i < |s| => s[|s| - 1 - i])
  }

  function Prefix(p: string, r: Result<string>): Result<string> {
    match r
    case Ok(s) => Ok(p + s)
    case IndexError => IndexError
  }

  lemma PrefixPrefix(p: string, q: string, r: Result<string>)
    ensures Prefix(p, Prefix(q, r)) == Prefix(p + q, r)
  {
    if r.Ok? {
      assert p + (q + r.value) == (p + q) + r.value;
    }
  }

  /** The rebuild walk over `shape`: each letter position takes the next
      character of `letters`, each other position the next of `others`; a
      read past the end of either list is an `IndexError`. The walk succeeds
      exactly when both lists are long enough, and then the result has the
      length of `shape`, whatever is left over in the lists being dropped. */
  function Fill(shape: string, letters: string, others: string): (r: Result<string>)
    ensures r.Ok? <==> |Letters(shape)| <= |letters| && |Others(shape)| <= |others|
    ensures r.Ok? ==> |r.value| == |shape|
  {
    if shape == [] then Ok([])
    else if IsLetter(shape[0]) then
      if letters == [] then IndexError
      else Prefix([letters[0]], Fill(shape[1..], letters[1..], others))
    else
      if others == [] then IndexError
      else Prefix([others[0]], Fill(shape[1..], letters, others[1..]))
  }

  /** Every non-letter position of the rebuilt word keeps the word's own
      character when the kept characters are the word's own others. */
  lemma {:induction false} FillKeepsOthers(shape: string, letters: string)
    requires Fill(shape, letters, Others(shape)).Ok?
    ensures forall i :: 0 <= i < |shape| && !IsLetter(shape[i]) ==>
      Fill(shape, letters, Others(shape)).value[i] == shape[i]
  {
    if shape != [] {
      var others := Others(shape);
      if IsLetter(shape[0]) {
        assert others == Others(shape[1..]);
        FillKeepsOthers(shape[1..], letters[1..]);
      } else {
        assert others[1..] == Others(shape[1..]);
        FillKeepsOthers(shape[1..], letters);
      }
      var r := Fill(shape, letters, others).value;
      forall i | 0 < i < |shape| && !IsLetter(shape[i]) ensures r[i] == shape[i] {
        assert shape[i] == shape[1..][i - 1];
      }
    }
  }

  /** When the letters really are letters and the others are not, the rebuilt
      word has the letter pattern of `shape`, and reading its letters (and its
      others) left to right gives the characters the walk consumed. */
  lemma {:induction false} FillContents(shape: string, letters: string, others: string)
    requires AllLetters(letters) && NoLetters(others)
    requires Fill(shape, letters, others).Ok?
    ensures SamePattern(Fill(shape, letters, others).value, shape)
    ensures Letters(Fill(shape, letters, others).value) == letters[..|Letters(shape)|]
    ensures Others(Fill(shape, letters, others).value) == others[..|Others(shape)|]
  {
    if shape != [] {
      var r := Fill(shape, letters, others).value;
      if IsLetter(shape[0]) {
        FillContents(shape[1..], letters[1..], others);
        assert r[1..] == Fill(shape[1..], letters[1..], others).value;
        assert letters[..|Letters(shape)|] == [letters[0]] + letters[1..][..|Letters(shape[1..])|];
      } else {
        FillContents(shape[1..], letters, others[1..]);
        assert r[1..] == Fill(shape[1..], letters, others[1..]).value;
        assert others[..|Others(shape)|] == [others[0]] + others[1..][..|Others(shape[1..])|];
      }
      forall i | 0 < i < |r| ensures IsLetter(r[i]) <==> IsLetter(shape[i]) {
        assert r[i] == r[1..][i - 1] && shape[i] == shape[1..][i - 1];
      }
    }
  }

  /** The walk looks only at which positions of `shape` hold letters. */
  lemma {:induction false} FillPatternOnly(a: string, b: string, letters: string, others: string)
    requires SamePattern(a, b)
    ensures Fill(a, letters, others) == Fill(b, letters, others)
  {
    if a != [] {
      assert SamePattern(a[1..], b[1..]) by {
        forall i | 0 <= i < |a| - 1 ensures IsLetter(a[1..][i]) <==> IsLetter(b[1..][i]) {
          assert a[1..][i] == a[i + 1] && b[1..][i] == b[i + 1];
        }
      }
      if IsLetter(a[0]) {
        FillPatternOnly(a[1..], b[1..], if letters == [] then [] else letters[1..], others);
      } else {
        FillPatternOnly(a[1..], b[1..], letters, if others == [] then [] else others[1..]);
      }
    }
  }

  /** Rebuilding a word from its own letters and others gives the word back. */
  lemma {:induction false} FillOwn(s: string)
    ensures Fill(s, Letters(s), Others(s)) == Ok(s)
  {
    if s != [] {
      FillOwn(s[1..]);
      if IsLetter(s[0]) {
        assert Letters(s)[0] == s[0] && Letters(s)[1..] == Letters(s[1..]);
        assert Others(s) == Others(s[1..]);
      } else {
        assert Others(s)[0] == s[0] && Others(s)[1..] == Others(s[1..]);
        assert Letters(s) == Letters(s[1..]);
      }
      assert s == [s[0]] + s[1..];
    }
  }

  /** Every character of the rebuilt word is taken from one of the two lists. */
  lemma {:induction false} FillFrom(shape: string, letters: string, others: string)
    requires Fill(shape, letters, others).Ok?
    ensures forall i :: 0 <= i < |shape| ==>
      Fill(shape, letters, others).value[i] in letters || Fill(shape, letters, others).value[i] in others
  {
    if shape != [] {
      var r := Fill(shape, letters, others).value;
      if IsLetter(shape[0]) {
        var rest := Fill(shape[1..], letters[1..], others).value;
        FillFrom(shape[1..], letters[1..], others);
        forall i | 0 <= i < |shape| ensures r[i] in letters || r[i] in others {
          if i > 0 {
            assert r[i] == rest[i - 1];
            if rest[i - 1] in letters[1..] {
              var j :| 0 <= j < |letters[1..]| && letters[1..][j] == rest[i - 1];
              assert letters[j + 1] == r[i];
            }
          }
        }
      } else {
        var rest := Fill(shape[1..], letters, others[1..]).value;
        FillFrom(shape[1..], letters, others[1..]);
        forall i | 0 <= i < |shape| ensures r[i] in letters || r[i] in others {
          if i > 0 {
            assert r[i] == rest[i - 1];
            if rest[i - 1] in others[1..] {
              var j :| 0 <= j < |others[1..]| && others[1..][j] == rest[i - 1];
              assert others[j + 1] == r[i];
            }
          }
        }
      }
    }
  }

  /** The others of a word are characters of the word. */
  lemma {:induction false} OthersFrom(s: string)
    ensures forall c :: c in Others(s) ==> c in s
  {
    if s != [] {
      OthersFrom(s[1..]);
      forall c | c in Others(s) ensures c in s {
        if c != s[0] {
          assert c in Others(s[1..]);
          var j :| 0 <= j < |s[1..]| && s[1..][j] == c;
          assert s[j + 1] == c;
        }
      }
    }
  }

  /** The letter reversal of a word whose normal form is itself: letters
      reversed in place, everything else where it was. */
  function Mirror(w: string): (m: string)
    ensures |m| == |w|
  {
    PartitionSizes(w);
    Fill(w, Reverse(Letters(w)), Others(w)).value
  }

  /** What the letter reversal does to a word: the same length and letter
      pattern, every non-letter character in its own position, and the
      letter positions read left to right hold the word's letters in reverse. */
  lemma MirrorShape(w: string)
    ensures SamePattern(Mirror(w), w)
    ensures forall i :: 0 <= i < |w| && !IsLetter(w[i]) ==> Mirror(w)[i] == w[i]
    ensures Letters(Mirror(w)) == Reverse(Letters(w))
    ensures Others(Mirror(w)) == Others(w)
  {
    var l := Reverse(Letters(w));
    var o := Others(w);
    PartitionSizes(w);
    ReverseAllLetters(Letters(w));
    var r := Fill(w, l, o);
    assert r.Ok? && Mirror(w) == r.value;
    FillContents(w, l, o);
    assert l[..|Letters(w)|] == l;
    assert o[..|Others(w)|] == o;
    FillKeepsOthers(w, l);
  }

  lemma ReverseAllLetters(s: string)
    requires AllLetters(s)
    ensures AllLetters(Reverse(s))
  {
    var l := Reverse(s);
    forall i | 0 <= i < |l| ensures IsLetter(l[i]) {
      assert l[i] == s[|s| - 1 - i];
    }
  }

  /** Reversing the letters twice gives back the original word. */
  lemma MirrorInvolution(w: string)
    ensures Mirror(Mirror(w)) == w
  {
    var m := Mirror(w);
    MirrorShape(w);
    assert Reverse(Letters(m)) == Letters(w);
    FillPatternOnly(m, w, Letters(w), Others(w));
    FillOwn(w);
  }

  /** One step of the walk, seen from the cursors `i`, `li` and `oi`. */
  lemma FillAt(shape: string, i: nat, letters: string, li: nat, others: string, oi: nat)
    requires i < |shape| && li <= |letters| && oi <= |others|
    ensures Fill(shape[i..], letters[li..], others[oi..]) ==
      if IsLetter(shape[i]) then
        if li == |letters| then IndexError
        else Prefix([letters[li]], Fill(shape[i + 1..], letters[li + 1..], others[oi..]))
      else
        if oi == |others| then IndexError
        else Prefix([others[oi]], Fill(shape[i + 1..], letters[li..], others[oi + 1..]))
  {
    assert shape[i..][0] == shape[i] && shape[i..][1..] == shape[i + 1..];
    if li < |letters| {
      assert letters[li..][1..] == letters[li + 1..];
    }
    if oi < |others| {
      assert others[oi..][1..] == others[oi + 1..];
    }
  }

  lemma {:induction false} LettersOfLetters(s: string)
    requires AllLetters(s)
    ensures Letters(s) == s
  {
    if s != [] {
      LettersOfLetters(s[1..]);
      assert s == [s[0]] + s[1..];
    }
  }

  /** A word made only of letters is simply read backwards. */
  lemma MirrorAllLetters(w: string)
    requires AllLetters(w)
    ensures Mirror(w) == Reverse(w)
  {
    MirrorShape(w);
    LettersOfLetters(w);
    var m := Mirror(w);
    assert AllLetters(m);
    LettersOfLetters(m);
  }

  /** The loop that sorts `normalized` into `letters` and `others`. */
  method Partition(normalized: string) returns (letters: string, others: string)
    ensures letters == Letters(normalized) && others == Others(normalized)
  {
    letters, others := [], [];
    for i := 0 to |normalized|
      invariant letters == Letters(normalized[..i]) && others == Others(normalized[..i])
    {
      var c := normalized[i];
      assert normalized[..i + 1] == normalized[..i] + [c];
      LettersAppend(normalized[..i], [c]);
      OthersAppend(normalized[..i], [c]);
      if IsLetter(c) {
        letters := letters + [c];
      } else {
        others := others + [c];
      }
    }
    assert normalized[..|normalized|] == normalized;
  }

  /** The `while i >= 0` loop that builds `reversed_letters`. */
  method ReverseLetters(letters: string) returns (reversed: string)
    ensures reversed == Reverse(letters)
  {
    reversed := [];
    var i := |letters| - 1;
    while i >= 0
      invariant -1 <= i < |letters|
      invariant |reversed| == |letters| - 1 - i
      invariant forall k :: 0 <= k < |reversed| ==> reversed[k] == letters[|letters| - 1 - k]
    {
      reversed := reversed + [letters[i]];
      i := i - 1;
    }
  }

  /** The loop that walks `word` with the two cursors `letter_index` and
      `other_index`, reading from `reversed` and `others`. */
  method Rebuild(word: string, reversed: string, others: string) returns (r: Result<string>)
    ensures r == Fill(word, reversed, others)
  {
    var result: string := [];
    var letterIndex, otherIndex := 0, 0;
    assert word[0..] == word && reversed[0..] == reversed && others[0..] == others;
    assert Fill(word, reversed, others).Ok? ==> [] + Fill(word, reversed, others).value == Fill(word, reversed, others).value;
    for i := 0 to |word|
      invariant letterIndex <= |reversed| && otherIndex <= |others|
      invariant Fill(word, reversed, others)
        == Prefix(result, Fill(word[i..], reversed[letterIndex..], others[otherIndex..]))
    {
      FillAt(word, i, reversed, letterIndex, others, otherIndex);
      if IsLetter(word[i]) {
        if letterIndex >= |reversed| {
          return IndexError;
        }
        PrefixPrefix(result, [reversed[letterIndex]], Fill(word[i + 1..], reversed[letterIndex + 1..], others[otherIndex..]));
        result := result + [reversed[letterIndex]];
        letterIndex := letterIndex + 1;
      } else {
        if otherIndex >= |others| {
          return IndexError;
        }
        PrefixPrefix(result, [others[otherIndex]], Fill(word[i + 1..], reversed[letterIndex..], others[otherIndex + 1..]));
        result := result + [others[otherIndex]];
        otherIndex := otherIndex + 1;
      }
    }
    assert result + [] == result;
    r := Ok(result);
  }
}
