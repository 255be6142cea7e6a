/** `reverse_text_sense_preserved` and its nested `reverse_word`: text whose
    words were written backwards is restored line by line and word by word. */
module Restore {
  import opened PyText
  import opened Results
  import opened Reversal

  /** The two calls into `unicodedata`: NFD before the word is partitioned
      and NFC after it is rebuilt. Unicode normalisation is outside this
      model, so the transform takes it as a parameter. */
  datatype Normaliser = Normaliser(nfd: string -> string, nfc: string -> string)

  /** The normaliser that changes nothing: NFD and NFC behave so on ASCII text. */
  function Identity(): (n: Normaliser)
    ensures forall s :: n.nfd(s) == s && n.nfc(s) == s
  {
    Normaliser(s => s, s => s)
  }

  /** `contractions_map` as the source spells it: reversed spellings mapped
      to the contraction they stand for. The first two keys hold U+2019. The
      key for "wasn't" is misspelled (see WasntKeyMisspelled). */
  const ContractionsAsWritten: map<string, string> := map[
    "t\U{2019}nac" := "can't",
    "t\U{2019}now" := "won't",
    "t'nod" := "don't",
    "t'ndid" := "didn't",
    "t'nsi" := "isn't",
    "t'nasw" := "wasn't",
    "t'nera" := "aren't"
  ]

  /** The corrected table: `contractions_map` with the key for "wasn't"
      spelled as "wasn't" written backwards (see ContractionIsReversal). */
  const Contractions: map<string, string> := map[
    "t\U{2019}nac" := "can't",
    "t\U{2019}now" := "won't",
    "t'nod" := "don't",
    "t'ndid" := "didn't",
    "t'nsi" := "isn't",
    "t'nsaw" := "wasn't",
    "t'nera" := "aren't"
  ]

  /** The key with every U+2019 written as the ASCII apostrophe. */
  function Straighten(s: string): string {
    seq(|s|, i requires 0 <= i < |s| => if s[i] == '\U{2019}' then '\'' else s[i])
  }

  predicate IsMeridiem(s: string)
    ensures IsMeridiem(s) ==> |s| == 2 && s[1] == 'm' && !IsDigit(s[0])
  {
    s == "am" || s == "pm"
  }

  /** `re.match(r"\d{1,2}:\d{2}(am|pm)", s)`: the pattern is anchored at
      the start of `s` only, so anything may follow it. */
  predicate StartsWithTime(s: string)
    ensures StartsWithTime(s) ==> |s| >= 6 && IsDigit(s[0]) && (s[1] == ':' || s[2] == ':')
  {
    || (|s| >= 6 && IsDigit(s[0]) && s[1] == ':' && IsDigit(s[2]) && IsDigit(s[3]) && IsMeridiem(s[4..6]))
    || (|s| >= 7 && IsDigit(s[0]) && IsDigit(s[1]) && s[2] == ':' && IsDigit(s[3]) && IsDigit(s[4]) && IsMeridiem(s[5..7]))
  }

  /** The generic branch of `reverse_word`: partition the NFD form, reverse
      its letters, rebuild over the word as it was given, then apply NFC. */
  function Swapped(norm: Normaliser, word: string): (r: Result<string>)
    ensures var normalized := norm.nfd(word);
      r.Ok? <==> |Letters(word)| <= |Letters(normalized)| && |Others(word)| <= |Others(normalized)|
  {
    var normalized := norm.nfd(word);
    match Fill(word, Reverse(Letters(normalized)), Others(normalized))
    case Ok(s) => Ok(norm.nfc(s))
    case IndexError => IndexError
  }

  /** `reverse_word`: the first rule that applies decides. */
  function RestoredWord(norm: Normaliser, table: map<string, string>, word: string): (r: Result<string>)
    ensures r.IndexError? ==> IsGeneric(table, word) && Swapped(norm, word).IndexError?
  {
    var low := Lower(word);
    if IsMeridiem(low) then Ok(word)
    else if StartsWithTime(low) then Ok(word[..|word| - 2] + Lower(word[|word| - 2..]))
    else if low in table then Ok(table[low])
    else Swapped(norm, word)
  }

  /** `[reverse_word(word) for word in words]`. */
  function RestoredWords(norm: Normaliser, table: map<string, string>, words: seq<string>): (r: Result<seq<string>>)
    ensures r.Ok? <==> forall k :: 0 <= k < |words| ==> RestoredWord(norm, table, words[k]).Ok?
    ensures r.Ok? ==> |r.value| == |words|
    ensures r.Ok? ==> forall k :: 0 <= k < |words| ==> r.value[k] == RestoredWord(norm, table, words[k]).value
  {
    MapAll(w => RestoredWord(norm, table, w), words)
  }

  /** The restored line: a blank line becomes empty, any other line the
      restored words joined by single spaces. */
  function RestoredLine(norm: Normaliser, table: map<string, string>, line: string): (r: Result<string>)
    ensures IsBlank(line) ==> r == Ok("")
  {
    if IsBlank(line) then Ok("")
    else
      match RestoredWords(norm, table, SplitWords(line))
      case Ok(words) => Ok(Join(" ", words))
      case IndexError => IndexError
  }

  /** `original_lines`: one restored line per line of the input. */
  function RestoredLines(norm: Normaliser, table: map<string, string>, lines: seq<string>): (r: Result<seq<string>>)
    ensures r.Ok? <==> forall k :: 0 <= k < |lines| ==> RestoredLine(norm, table, lines[k]).Ok?
    ensures r.Ok? ==> |r.value| == |lines|
    ensures r.Ok? ==> forall k :: 0 <= k < |lines| ==> r.value[k] == RestoredLine(norm, table, lines[k]).value
  {
    MapAll(l => RestoredLine(norm, table, l), lines)
  }

  /** `reverse_text_sense_preserved`. */
  function RestoredText(norm: Normaliser, table: map<string, string>, text: string): (r: Result<string>)
    ensures text == [] ==> r == Ok("")
  {
    match RestoredLines(norm, table, SplitLines(text))
    case Ok(lines) => Ok(Join("\n", lines))
    case IndexError => IndexError
  }

  /** `reverse_word` as the source writes it: the special cases, then the
      partition loop, the reversal loop and the rebuild loop. */
  method ReverseWord(norm: Normaliser, table: map<string, string>, word: string) returns (r: Result<string>)
    ensures r == RestoredWord(norm, table, word)
  {
    var low := Lower(word);
    if IsMeridiem(low) {
      return Ok(word);
    }
    if StartsWithTime(low) {
      var time, meridiem := word[..|word| - 2], word[|word| - 2..];
      return Ok(time + Lower(meridiem));
    }
    if low in table {
      return Ok(table[low]);
    }
    var normalized := norm.nfd(word);
    var letters, others := Partition(normalized);
    var reversed := ReverseLetters(letters);
    var rebuilt := Rebuild(word, reversed, others);
    match rebuilt
    case IndexError =>
      r := IndexError;
    case Ok(s) =>
      r := Ok(norm.nfc(s));
  }

  /** The body of the line loop: a blank line becomes empty, any other
      line the list comprehension over its words, joined by spaces. */
  method ReverseLine(norm: Normaliser, table: map<string, string>, line: string) returns (r: Result<string>)
    ensures r == RestoredLine(norm, table, line)
  {
    if IsBlank(line) {
      return Ok("");
    }
    var words := SplitWords(line);
    var originalWords: seq<string> := [];
    for j := 0 to |words|
      invariant |originalWords| == j
      invariant forall k :: 0 <= k < j ==> RestoredWord(norm, table, words[k]) == Ok(originalWords[k])
    {
      var w := ReverseWord(norm, table, words[j]);
      if w.IndexError? {
        WordFailsLine(norm, table, line, j);
        return IndexError;
      }
      WordAppended(norm, table, words, originalWords, w.value);
      originalWords := originalWords + [w.value];
    }
    WordsRestored(norm, table, line, originalWords);
    r := Ok(Join(" ", originalWords));
  }

  /** Appending the next restored word keeps the loop's correspondence. */
  lemma WordAppended(norm: Normaliser, table: map<string, string>, words: seq<string>, outs: seq<string>, w: string)
    requires |outs| < |words|
    requires forall k :: 0 <= k < |outs| ==> RestoredWord(norm, table, words[k]) == Ok(outs[k])
    requires RestoredWord(norm, table, words[|outs|]) == Ok(w)
    ensures forall k :: 0 <= k < |outs| + 1 ==> RestoredWord(norm, table, words[k]) == Ok((outs + [w])[k])
  {
  }

  /** A line whose every word restores is the restored words joined by spaces. */
  lemma WordsRestored(norm: Normaliser, table: map<string, string>, line: string, outs: seq<string>)
    requires !IsBlank(line)
    requires |outs| == |SplitWords(line)|
    requires forall k :: 0 <= k < |outs| ==> RestoredWord(norm, table, SplitWords(line)[k]) == Ok(outs[k])
    ensures RestoredLine(norm, table, line) == Ok(Join(" ", outs))
  {
    var restored := RestoredWords(norm, table, SplitWords(line));
    assert restored.Ok?;
    assert restored.value == outs;
  }

  /** One word that raises makes its line raise. */
  lemma WordFailsLine(norm: Normaliser, table: map<string, string>, line: string, j: int)
    requires !IsBlank(line)
    requires 0 <= j < |SplitWords(line)| && RestoredWord(norm, table, SplitWords(line)[j]).IndexError?
    ensures RestoredLine(norm, table, line) == IndexError
  {
    assert !RestoredWords(norm, table, SplitWords(line)).Ok?;
  }

  /** `reverse_text_sense_preserved` as the source writes it: a loop over
      the lines that appends to `original_lines`. */
  method ReverseTextSensePreserved(norm: Normaliser, table: map<string, string>, text: string) returns (r: Result<string>)
    ensures r == RestoredText(norm, table, text)
  {
    var lines := SplitLines(text);
    var originalLines: seq<string> := [];
    for i := 0 to |lines|
      invariant |originalLines| == i
      invariant forall k :: 0 <= k < i ==> RestoredLine(norm, table, lines[k]) == Ok(originalLines[k])
    {
      var line := ReverseLine(norm, table, lines[i]);
      if line.IndexError? {
        LineFailsText(norm, table, text, i);
        return IndexError;
      }
      LineAppended(norm, table, lines, originalLines, line.value);
      originalLines := originalLines + [line.value];
    }
    LinesRestored(norm, table, text, originalLines);
    r := Ok(Join("\n", originalLines));
  }

  /** Appending the next restored line keeps the loop's correspondence. */
  lemma LineAppended(norm: Normaliser, table: map<string, string>, lines: seq<string>, outs: seq<string>, l: string)
    requires |outs| < |lines|
    requires forall k :: 0 <= k < |outs| ==> RestoredLine(norm, table, lines[k]) == Ok(outs[k])
    requires RestoredLine(norm, table, lines[|outs|]) == Ok(l)
    ensures forall k :: 0 <= k < |outs| + 1 ==> RestoredLine(norm, table, lines[k]) == Ok((outs + [l])[k])
  {
  }

  /** A text whose every line restores is the restored lines joined by line feeds. */
  lemma LinesRestored(norm: Normaliser, table: map<string, string>, text: string, outs: seq<string>)
    requires |outs| == |SplitLines(text)|
    requires forall k :: 0 <= k < |outs| ==> RestoredLine(norm, table, SplitLines(text)[k]) == Ok(outs[k])
    ensures RestoredText(norm, table, text) == Ok(Join("\n", outs))
  {
    var restored := RestoredLines(norm, table, SplitLines(text));
    assert restored.Ok?;
    assert restored.value == outs;
  }

  /** One line that raises makes the whole text raise. */
  lemma LineFailsText(norm: Normaliser, table: map<string, string>, text: string, i: int)
    requires 0 <= i < |SplitLines(text)| && RestoredLine(norm, table, SplitLines(text)[i]).IndexError?
    ensures RestoredText(norm, table, text) == IndexError
  {
    assert !RestoredLines(norm, table, SplitLines(text)).Ok?;
  }

  /** A word on which normalisation has no effect: NFD leaves it as it is and
      NFC leaves its letter reversal as it is (true of every ASCII word). */
  predicate Stable(norm: Normaliser, w: string) {
    norm.nfd(w) == w && norm.nfc(Mirror(w)) == Mirror(w)
  }

  /** What the transform needs of normalisation: NFD creates no whitespace
      in a whitespace-free string, and NFC maps a non-empty whitespace-free
      string to a non-empty whitespace-free string. */
  ghost predicate KeepsWords(norm: Normaliser) {
    && (forall s :: NoSpace(s) ==> NoSpace(norm.nfd(s)))
    && (forall s :: s != [] && NoSpace(s) ==> norm.nfc(s) != [] && NoSpace(norm.nfc(s)))
  }

  lemma IdentityKeepsWords()
    ensures KeepsWords(Identity())
  {
  }

  /** Every value of the table is a non-empty word without whitespace. */
  predicate PlainValues(table: map<string, string>) {
    forall k :: k in table ==> table[k] != [] && NoSpace(table[k])
  }

  /** A word that none of the special cases claims. */
  predicate IsGeneric(table: map<string, string>, w: string) {
    var low := Lower(w);
    !IsMeridiem(low) && !StartsWithTime(low) && low !in table
  }

  /** A bare meridiem is returned as it came, case and all. */
  lemma MeridiemRule(norm: Normaliser, table: map<string, string>, w: string)
    requires IsMeridiem(Lower(w))
    ensures RestoredWord(norm, table, w) == Ok(w)
  {
  }

  /** A word that starts with a clock time keeps all but its last two
      characters and has those two lower-cased; restoring it again changes
      nothing more. */
  lemma TimeRule(norm: Normaliser, table: map<string, string>, w: string)
    requires StartsWithTime(Lower(w))
    ensures RestoredWord(norm, table, w).Ok?
    ensures var v := RestoredWord(norm, table, w).value;
      && |v| == |w|
      && v[..|w| - 2] == w[..|w| - 2]
      && v[|w| - 2..] == Lower(w[|w| - 2..])
      && Lower(v) == Lower(w)
      && RestoredWord(norm, table, v) == Ok(v)
  {
    var n := |w|;
    var v := w[..n - 2] + Lower(w[n - 2..]);
    assert RestoredWord(norm, table, w) == Ok(v);
    assert Lower(v) == Lower(w) by {
      forall i | 0 <= i < n ensures Lower(v)[i] == Lower(w)[i] {
        if i >= n - 2 {
          assert v[i] == LowerChar(w[i]);
        }
      }
    }
    assert v[..n - 2] == w[..n - 2];
    var tail := v[n - 2..];
    assert Lower(tail) == tail by {
      forall i | 0 <= i < |tail| ensures Lower(tail)[i] == tail[i] {
        assert tail[i] == LowerChar(w[n - 2 + i]);
      }
    }
    assert v[..n - 2] + Lower(v[n - 2..]) == v;
  }

  /** A word whose lower-case form is a key of `contractions_map` becomes the
      contraction the table gives, whatever its case. */
  lemma ContractionRule(norm: Normaliser, w: string)
    requires Lower(w) in ContractionsAsWritten
    ensures RestoredWord(norm, ContractionsAsWritten, w) == Ok(ContractionsAsWritten[Lower(w)])
  {
    var low := Lower(w);
    assert low[0] == 't';
  }

  /** No read is out of bounds when NFD leaves the word alone. */
  lemma NoIndexErrorWhenNormalised(norm: Normaliser, w: string)
    requires norm.nfd(w) == w
    ensures Swapped(norm, w).Ok?
  {
    PartitionSizes(w);
  }

  /** A line fails exactly when one of its words fails. */
  lemma LineFails(norm: Normaliser, table: map<string, string>, line: string)
    ensures RestoredLine(norm, table, line).IndexError? <==>
      exists k :: 0 <= k < |SplitWords(line)| && RestoredWord(norm, table, SplitWords(line)[k]).IndexError?
  {
    BlankIffNoWords(line);
  }

  /** A generic word on which normalisation has no effect is restored by
      reversing its letters in place: same length, every other character
      where it was, the letters read left to right in reverse order. */
  lemma GenericRule(norm: Normaliser, table: map<string, string>, w: string)
    requires IsGeneric(table, w) && Stable(norm, w)
    ensures RestoredWord(norm, table, w) == Ok(Mirror(w))
    ensures |Mirror(w)| == |w|
    ensures forall i :: 0 <= i < |w| && !IsLetter(w[i]) ==> Mirror(w)[i] == w[i]
    ensures Letters(Mirror(w)) == Reverse(Letters(w))
  {
    MirrorShape(w);
  }

  /** The seven contraction words of the table. */
  predicate IsContraction(c: string) {
    c == "can't" || c == "won't" || c == "don't" || c == "didn't"
    || c == "isn't" || c == "wasn't" || c == "aren't"
  }

  lemma ContractionWordPlain(c: string)
    requires IsContraction(c)
    ensures c != [] && NoSpace(c)
  {
  }

  /** The contractions of both tables are non-empty and free of whitespace. */
  lemma ContractionsPlain()
    ensures PlainValues(ContractionsAsWritten) && PlainValues(Contractions)
  {
    forall k | k in ContractionsAsWritten
      ensures ContractionsAsWritten[k] != [] && NoSpace(ContractionsAsWritten[k])
    {
      ContractionWordPlain(ContractionsAsWritten[k]);
    }
    forall k | k in Contractions ensures Contractions[k] != [] && NoSpace(Contractions[k]) {
      ContractionWordPlain(Contractions[k]);
    }
  }

  lemma TimeWordPlain(w: string)
    requires NoSpace(w) && |w| >= 2
    ensures NoSpace(w[..|w| - 2] + Lower(w[|w| - 2..]))
  {
    var n := |w|;
    var v := w[..n - 2] + Lower(w[n - 2..]);
    forall i | 0 <= i < n ensures !IsSpace(v[i]) {
      if i >= n - 2 {
        LowerKeepsSpaces(w[i]);
      }
    }
  }

  /** The rebuilt word of a whitespace-free word has no whitespace either:
      its letters are letters, and its other characters come from the NFD
      form, which NFD keeps free of whitespace. */
  lemma SwappedPlain(norm: Normaliser, w: string)
    requires KeepsWords(norm) && w != [] && NoSpace(w) && Swapped(norm, w).Ok?
    ensures Swapped(norm, w).value != [] && NoSpace(Swapped(norm, w).value)
  {
    var normalized := norm.nfd(w);
    var letters := Reverse(Letters(normalized));
    var others := Others(normalized);
    PartitionSizes(normalized);
    ReverseAllLetters(Letters(normalized));
    var r := Fill(w, letters, others).value;
    FillFrom(w, letters, others);
    OthersFrom(normalized);
    assert NoSpace(normalized);
    forall i | 0 <= i < |r| ensures !IsSpace(r[i]) {
      if r[i] in letters {
        var j :| 0 <= j < |letters| && letters[j] == r[i];
      } else {
        assert r[i] in normalized;
      }
    }
  }

  /** Restoring a word of a split line yields, when it succeeds, a non-empty
      word without whitespace, so the words of a line stay apart. */
  lemma RestoredWordShape(norm: Normaliser, table: map<string, string>, w: string)
    requires KeepsWords(norm) && PlainValues(table)
    requires w != [] && NoSpace(w) && RestoredWord(norm, table, w).Ok?
    ensures RestoredWord(norm, table, w).value != [] && NoSpace(RestoredWord(norm, table, w).value)
  {
    var low := Lower(w);
    if IsMeridiem(low) {
    } else if StartsWithTime(low) {
      TimeWordPlain(w);
    } else if low in table {
    } else {
      SwappedPlain(norm, w);
    }
  }

  /** A non-blank line whose restoration succeeds is restored to a line with
      the same number of words: splitting it gives back the restored words
      of the input line, in their order. */
  lemma LineWords(norm: Normaliser, table: map<string, string>, line: string)
    requires KeepsWords(norm) && PlainValues(table)
    requires !IsBlank(line) && RestoredLine(norm, table, line).Ok?
    ensures SplitWords(RestoredLine(norm, table, line).value) == RestoredWords(norm, table, SplitWords(line)).value
    ensures |SplitWords(RestoredLine(norm, table, line).value)| == |SplitWords(line)|
  {
    var words := SplitWords(line);
    forall k | 0 <= k < |words|
      ensures RestoredWord(norm, table, words[k]).value != [] && NoSpace(RestoredWord(norm, table, words[k]).value)
    {
      RestoredWordShape(norm, table, words[k]);
    }
    SplitJoin(RestoredWords(norm, table, words).value);
  }

  /** Splitting the restored text into lines again gives one line per line
      of the input, provided the restoration succeeds and the input's last
      line is not blank; a blank last line is restored to an empty line that
      the split drops. */
  lemma ResplitLines(norm: Normaliser, table: map<string, string>, text: string)
    requires KeepsWords(norm) && PlainValues(table)
    requires RestoredText(norm, table, text).Ok?
    requires var lines := SplitLines(text); lines != [] ==> !IsBlank(lines[|lines| - 1])
    ensures SplitLines(RestoredText(norm, table, text).value) == RestoredLines(norm, table, SplitLines(text)).value
    ensures |SplitLines(RestoredText(norm, table, text).value)| == |SplitLines(text)|
  {
    var lines := SplitLines(text);
    forall k | 0 <= k < |lines|
      ensures NoLineBreak(RestoredLine(norm, table, lines[k]).value)
      ensures !IsBlank(lines[k]) ==> RestoredLine(norm, table, lines[k]).value != []
    {
      if !IsBlank(lines[k]) {
        LineWords(norm, table, lines[k]);
        BlankIffNoWords(lines[k]);
        var out := RestoredLine(norm, table, lines[k]).value;
        var words := RestoredWords(norm, table, SplitWords(lines[k])).value;
        assert out == Join(" ", words);
        assert words != [];
        assert SplitWords(out) != [];
        JoinWordsNoBreak(words);
      }
    }
    var restored := RestoredLines(norm, table, lines).value;
    SplitLinesJoin(restored);
  }

  /** Each key of the corrected table is its contraction written backwards
      (with the apostrophe as U+2019 in the first two): the table undoes
      exactly the reversal the bot expects. */
  lemma ContractionIsReversal(key: string)
    requires key in Contractions
    ensures Mirror(Contractions[key]) == Straighten(key)
  {
    var c := Contractions[key];
    var k := Straighten(key);
    if key == "t\U{2019}nac" {
      assert c == "can't" && k == "t'nac" && Reverse("can't") == "t'nac";
    } else if key == "t\U{2019}now" {
      assert c == "won't" && k == "t'now" && Reverse("won't") == "t'now";
    } else if key == "t'nod" {
      assert c == "don't" && k == "t'nod" && Reverse("don't") == "t'nod";
    } else if key == "t'ndid" {
      assert c == "didn't" && k == "t'ndid" && Reverse("didn't") == "t'ndid";
    } else if key == "t'nsi" {
      assert c == "isn't" && k == "t'nsi" && Reverse("isn't") == "t'nsi";
    } else if key == "t'nsaw" {
      assert c == "wasn't" && k == "t'nsaw" && Reverse("wasn't") == "t'nsaw";
    } else {
      assert c == "aren't" && k == "t'nera" && Reverse("aren't") == "t'nera";
    }
    assert AllLetters(c);
    MirrorAllLetters(c);
  }

  lemma MirrorOfWord(w: string, r: string)
    requires AllLetters(w) && Reverse(w) == r
    ensures Mirror(w) == r
  {
    MirrorAllLetters(w);
  }

  /** The key for "wasn't" in `contractions_map` is not "wasn't" written
      backwards: reversing the letters of "wasn't" gives "t'nsaw", which is
      no key of the table. */
  lemma WasntKeyMisspelled(key: string)
    requires key in ContractionsAsWritten && ContractionsAsWritten[key] == "wasn't"
    ensures Mirror(ContractionsAsWritten[key]) != Straighten(key)
    ensures Mirror(ContractionsAsWritten[key]) !in ContractionsAsWritten
  {
    assert key == "t'nasw";
    var value := ContractionsAsWritten[key];
    WasntReversed(value);
    assert Straighten(key)[3] == 'a';
    assert "t'nsaw"[3] == 's';
  }

  lemma WasntReversed(w: string)
    requires w == "wasn't"
    ensures Mirror(w) == "t'nsaw"
  {
    MirrorOfWord(w, "t'nsaw");
  }

  /** With the table as written, the word `t'nasw` is restored to "wasn't"
      although reversing its letters gives "wsan't". */
  lemma WasntKeyOverridesReversal(norm: Normaliser, w: string)
    requires w == "t'nasw"
    ensures RestoredWord(norm, ContractionsAsWritten, w) == Ok("wasn't")
    ensures Mirror(w) == "wsan't"
  {
    NaswRestored(norm, w);
    MirrorOfWord(w, "wsan't");
  }

  lemma NaswRestored(norm: Normaliser, w: string)
    requires w == "t'nasw"
    ensures RestoredWord(norm, ContractionsAsWritten, w) == Ok("wasn't")
  {
    assert Lower(w) == w;
  }

  /** With the corrected table, `t'nasw` is no longer a key and is simply
      read backwards, while any casing of `t'nsaw` becomes "wasn't". */
  lemma CorrectedWasnt(w: string, v: string)
    requires w == "t'nasw" && Lower(v) == "t'nsaw"
    ensures RestoredWord(Identity(), Contractions, w) == Ok("wsan't")
    ensures RestoredWord(Identity(), Contractions, v) == Ok("wasn't")
  {
    assert Lower(w) == w;
    assert Lower(w) !in Contractions;
    GenericRule(Identity(), Contractions, w);
    MirrorOfWord(w, "wsan't");
    assert Lower(v)[0] == 't';
  }

  /** Without the table, a curly apostrophe would stay where it is: `t’nac`
      would come out as `c’ant`, which is why those keys are listed. */
  lemma CurlyApostropheStays()
    ensures Mirror("t\U{2019}nac") == "c\U{2019}ant"
  {
  }
}
