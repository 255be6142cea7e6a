/** Worked inputs of `reverse_text_sense_preserved`, on ASCII text, where
    Unicode normalisation changes nothing. */
module Examples {
  import opened PyText
  import opened Results
  import opened Reversal
  import opened Restore

  /** A generic word made only of letters is read backwards. */
  lemma LettersOnlyWord(w: string, r: string)
    requires IsGeneric(ContractionsAsWritten, w) && AllLetters(w) && Reverse(w) == r
    ensures RestoredWord(Identity(), ContractionsAsWritten, w) == Ok(r)
  {
    GenericRule(Identity(), ContractionsAsWritten, w);
    MirrorAllLetters(w);
  }

  /** `olleh` becomes `hello`. */
  lemma Hello()
    ensures RestoredWord(Identity(), ContractionsAsWritten, "olleh") == Ok("hello")
  {
    assert Lower("olleh") == "olleh";
    LettersOnlyWord("olleh", "hello");
  }

  /** `12:30PM` keeps its digits and has its meridiem lower-cased. */
  lemma ClockTime()
    ensures RestoredWord(Identity(), ContractionsAsWritten, "12:30PM") == Ok("12:30pm")
  {
    assert Lower("12:30PM") == "12:30pm";
    TimeRule(Identity(), ContractionsAsWritten, "12:30PM");
    var v := RestoredWord(Identity(), ContractionsAsWritten, "12:30PM").value;
    assert "12:30PM"[..5] == "12:30" && "12:30PM"[5..] == "PM";
    assert Lower("PM") == "pm";
    assert v[..5] == "12:30";
    assert v[5..] == "pm";
    assert v == v[..5] + v[5..];
    assert v == "12:30pm";
  }

  /** The table is consulted in lower case: `T'NOD` and `t'nod` both give `don't`. */
  lemma Dont()
    ensures RestoredWord(Identity(), ContractionsAsWritten, "T'NOD") == Ok("don't")
    ensures RestoredWord(Identity(), ContractionsAsWritten, "t'nod") == Ok("don't")
  {
    assert Lower("T'NOD") == "t'nod";
    assert Lower("t'nod") == "t'nod";
  }

  /** A curly-apostrophe key: `t’nac` gives `can't`. */
  lemma Cant()
    ensures RestoredWord(Identity(), ContractionsAsWritten, "t\U{2019}nac") == Ok("can't")
  {
    assert Lower("t\U{2019}nac") == "t\U{2019}nac";
  }

  /** A line is restored from the restorations of its words. */
  lemma LineFromWords(line: string, words: seq<string>, outs: seq<string>)
    requires !IsBlank(line) && SplitWords(line) == words && |outs| == |words|
    requires forall k :: 0 <= k < |words| ==> RestoredWord(Identity(), ContractionsAsWritten, words[k]) == Ok(outs[k])
    ensures RestoredLine(Identity(), ContractionsAsWritten, line) == Ok(Join(" ", outs))
  {
    assert RestoredWords(Identity(), ContractionsAsWritten, words).value == outs;
  }

  /** A text is restored from the restorations of its lines. */
  lemma TextFromLines(text: string, lines: seq<string>, outs: seq<string>)
    requires SplitLines(text) == lines && |outs| == |lines|
    requires forall k :: 0 <= k < |lines| ==> RestoredLine(Identity(), ContractionsAsWritten, lines[k]) == Ok(outs[k])
    ensures RestoredText(Identity(), ContractionsAsWritten, text) == Ok(Join("\n", outs))
  {
    assert RestoredLines(Identity(), ContractionsAsWritten, lines).value == outs;
  }

  lemma MixedLineSplits(text: string)
    requires text == "t'nac ydaer"
    ensures SplitLines(text) == [text] && !IsBlank(text)
    ensures SplitWords(text) == ["t'nac", "ydaer"]
  {
    var words := ["t'nac", "ydaer"];
    assert Join(" ", words) == text;
    SplitJoin(words);
    SplitLinesJoin([text]);
    assert !IsSpace(text[0]);
  }

  /** With the ASCII apostrophe the generic reversal restores `t'nac` by
      itself, and `ydaer` becomes `ready`. */
  lemma CantReady(a: string, b: string)
    requires a == "t'nac" && b == "ydaer"
    ensures RestoredWord(Identity(), ContractionsAsWritten, a) == Ok("can't")
    ensures RestoredWord(Identity(), ContractionsAsWritten, b) == Ok("ready")
  {
    assert Lower(a) == a;
    LettersOnlyWord(a, "can't");
    assert Lower(b) == b;
    LettersOnlyWord(b, "ready");
  }

  /** A one-line text of two words reads as the two restored words joined by a space. */
  lemma TwoWordText(text: string, w1: string, w2: string, o1: string, o2: string)
    requires SplitLines(text) == [text] && !IsBlank(text) && SplitWords(text) == [w1, w2]
    requires RestoredWord(Identity(), ContractionsAsWritten, w1) == Ok(o1) && RestoredWord(Identity(), ContractionsAsWritten, w2) == Ok(o2)
    ensures RestoredText(Identity(), ContractionsAsWritten, text) == Ok(o1 + " " + o2)
  {
    LineFromWords(text, [w1, w2], [o1, o2]);
    assert [o1, o2][1..] == [o2];
    assert Join(" ", [o1, o2]) == o1 + " " + o2;
    TextFromLines(text, [text], [o1 + " " + o2]);
  }

  lemma TwoWords(text: string)
    requires text == "t'nac ydaer"
    ensures RestoredText(Identity(), ContractionsAsWritten, text) == Ok("can't" + " " + "ready")
  {
    MixedLineSplits(text);
    CantReady("t'nac", "ydaer");
    TwoWordText(text, "t'nac", "ydaer", "can't", "ready");
  }

  /** A line mixing the ASCII apostrophe and an ordinary word: `t'nac ydaer`
      becomes `can't ready` (the apostrophe counts as a letter, so the generic
      reversal alone gets `can't` right). */
  lemma MixedLine(text: string)
    requires text == "t'nac ydaer"
    ensures RestoredText(Identity(), ContractionsAsWritten, text) == Ok("can't ready")
  {
    TwoWords(text);
    CanReady();
  }

  lemma CanReady()
    ensures "can't" + " " + "ready" == "can't ready"
  {
  }

  /** A line of one word. */
  lemma OneWordLine(w: string, r: string)
    requires w != [] && NoSpace(w) && IsGeneric(ContractionsAsWritten, w) && AllLetters(w) && Reverse(w) == r
    ensures RestoredLine(Identity(), ContractionsAsWritten, w) == Ok(r)
  {
    SplitJoin([w]);
    assert !IsSpace(w[0]);
    LettersOnlyWord(w, r);
    LineFromWords(w, [w], [r]);
  }

  lemma ThreeLinesSplit(text: string)
    requires text == "olleh\n\ndlrow"
    ensures SplitLines(text) == ["olleh", "", "dlrow"]
  {
    var lines := ["olleh", "", "dlrow"];
    assert Join("\n", lines) == text;
    SplitLinesJoin(lines);
  }

  lemma HelloLine()
    ensures RestoredLine(Identity(), ContractionsAsWritten, "olleh") == Ok("hello")
  {
    assert Lower("olleh") == "olleh";
    OneWordLine("olleh", "hello");
  }

  lemma WorldLine()
    ensures RestoredLine(Identity(), ContractionsAsWritten, "dlrow") == Ok("world")
  {
    assert Lower("dlrow") == "dlrow";
    OneWordLine("dlrow", "world");
  }

  /** A three-line text reads as its three restored lines joined by line feeds. */
  lemma ThreeLineText(text: string, lines: seq<string>, o1: string, o2: string, o3: string)
    requires SplitLines(text) == lines && |lines| == 3
    requires RestoredLine(Identity(), ContractionsAsWritten, lines[0]) == Ok(o1)
    requires RestoredLine(Identity(), ContractionsAsWritten, lines[1]) == Ok(o2)
    requires RestoredLine(Identity(), ContractionsAsWritten, lines[2]) == Ok(o3)
    ensures RestoredText(Identity(), ContractionsAsWritten, text) == Ok(o1 + "\n" + o2 + "\n" + o3)
  {
    var outs := [o1, o2, o3];
    TextFromLines(text, lines, outs);
    JoinThree("\n", o1, o2, o3);
  }

  lemma JoinThree(sep: string, a: string, b: string, c: string)
    ensures Join(sep, [a, b, c]) == a + sep + b + sep + c
  {
    assert [a, b, c][1..] == [b, c] && [b, c][1..] == [c];
    assert Join(sep, [b, c]) == b + sep + c;
    assert a + sep + (b + sep + c) == a + sep + b + sep + c;
  }

  lemma ThreeLines(text: string)
    requires text == "olleh\n\ndlrow"
    ensures RestoredText(Identity(), ContractionsAsWritten, text) == Ok("hello" + "\n" + "" + "\n" + "world")
  {
    ThreeLinesSplit(text);
    HelloLine();
    WorldLine();
    ThreeLineText(text, ["olleh", "", "dlrow"], "hello", "", "world");
  }

  /** A blank line between two lines stays an empty line. */
  lemma BlankLineKept(text: string)
    requires text == "olleh\n\ndlrow"
    ensures RestoredText(Identity(), ContractionsAsWritten, text) == Ok("hello\n\nworld")
  {
    ThreeLines(text);
    HelloWorld();
  }

  lemma HelloWorld()
    ensures "hello" + "\n" + "" + "\n" + "world" == "hello\n\nworld"
  {
  }
}
