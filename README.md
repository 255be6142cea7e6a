# pam_bot text restoration, in Dafny

pam_bot is a Telegram bot that receives text written backwards and replies
with it restored. This project models the core of `main.py`: the table of
reversed contractions (`contractions_map`), the per-word restoration
`reverse_word` with its special cases and its letter reversal, the
line-by-line driver `reverse_text_sense_preserved`, and the part of the
handler `reverse_message` that picks the text, checks who may use the bot
and chooses the kind of reply.

Modules:

- `PyText` (`text.dfy`): the Python `str` behaviour the transform relies on:
  `isspace`, `isalpha`, `lower`, `splitlines()`, `split()` and `join`.
- `Results` (`results.dfy`): a result type whose error case is the
  `IndexError` the rebuild loop can raise, and a list comprehension that
  stops at the first error.
- `Reversal` (`reversal.dfy`): the generic letter reversal. `Fill` is the
  specification of the rebuild walk. The three loops of `reverse_word`
  (`Partition`, `ReverseLetters`, `Rebuild`) are methods proved equal to
  their specification functions.
- `Restore` (`restore.dfy`): `reverse_word` and `reverse_text_sense_preserved`,
  both as specification functions (`RestoredWord`, `RestoredText`) and as
  methods that follow the source's loops (`ReverseWord`,
  `ReverseTextSensePreserved`), plus the properties of the transform.
- `Router` (`router.dfy`): text or caption selection, the access rule and
  the reply kind of `reverse_message`.
- `Examples` (`examples.dfy`): worked inputs on ASCII text.

Unicode normalisation (`unicodedata.normalize`) is a parameter of the
transform: a `Normaliser` holds an NFD and an NFC function, and every
property states what it needs of them (for ASCII text both are the
identity, `Restore.Identity`).

The contraction table is a parameter too. The program's behaviour is the
restoration with `Restore.ContractionsAsWritten`, which is `contractions_map`
exactly as the source spells it; `Router.Handle` uses that table. The
corrected table `Restore.Contractions` (see Findings) is proved to be the
letter reversal of its contractions, and `Restore.CorrectedWasnt` shows
what the restoration does with it instead.

The code does not catch the `IndexError` that the rebuild loop raises when
a list runs out: it leaves `reverse_word`, `reverse_text_sense_preserved`
and the handler. The model carries it as the `IndexError` case of
`Results.Result`, up to `Router.Handle`.

## Model

| member | source | states |
|---|---|---|
| PyText.IsSpace | main.py:114-115 | the whitespace of `isspace()`, which `strip()` and `split()` use; no whitespace character is a letter or a digit |
| PyText.IsLineBreak | main.py:113 | the line boundaries of `splitlines()`, every one of which is also whitespace |
| PyText.IsAlpha | main.py:82 | `isalpha()` on ASCII and Latin-1; every upper-case letter is alphabetic |
| PyText.LowerChar | main.py:68 | lower-casing a character never leaves it upper case |
| PyText.Lower | main.py:68 | `lower()` keeps the length and leaves no upper-case letter |
| PyText.LowerIdempotent | main.py:68 | lower-casing twice is lower-casing once |
| PyText.LowerKeepsSpaces | main.py:114-115 | lower-casing neither creates nor removes whitespace |
| PyText.IsBlank | main.py:114 | `not line.strip()`: the line holds only whitespace, and the empty line is blank |
| PyText.LineEnd | main.py:113 | the first line boundary of a string, with none before it |
| PyText.SplitLines | main.py:113 | `splitlines()` yields lines free of boundaries, and none exactly for the empty text |
| PyText.WordEnd | main.py:115 | the first whitespace character of a string, with none before it |
| PyText.SplitWords | main.py:115 | `split()` yields non-empty words without whitespace |
| PyText.Join | main.py:116 | `sep.join(parts)`: the parts with the separator between neighbours, starting with the first part |
| PyText.BlankIffNoWords | main.py:114-115 | a line fails `strip()` exactly when `split()` gives no words |
| PyText.WordEndAt | main.py:115 | a word ends at the first whitespace and nowhere else |
| PyText.LineEndAt | main.py:113 | a line ends at the first boundary and nowhere else |
| PyText.SplitWordsCons | main.py:115 | a word followed by whitespace splits off as the first word |
| PyText.SplitJoin | main.py:115-116 | splitting words joined by single spaces gives back the same words |
| PyText.JoinWordsNoBreak | main.py:116 | words joined by spaces contain no line boundary |
| PyText.SplitLinesCons | main.py:113 | a line followed by a line feed splits off as the first line |
| PyText.SplitLinesJoin | main.py:113-120 | splitting lines joined by line feeds gives back the lines when the last is non-empty |
| PyText.TrailingEmptyLineLost | main.py:118-120 | an empty last line is dropped when the joined text is split again |
| Results.MapAll | main.py:115 | a comprehension succeeds exactly when every element does, and then maps element by element |
| Reversal.IsLetter | main.py:82 | the test `char.isalpha() or char == "'"`; a letter is never whitespace or a digit |
| Reversal.Letters | main.py:81-85 | the letters of a word are no longer than the word |
| Reversal.Others | main.py:81-85 | the other characters of a word are no longer than the word |
| Reversal.PartitionSizes | main.py:81-85 | letters and others together cover the word, each on its own side of the test |
| Reversal.LettersAppend | main.py:81-85 | the letters of a concatenation are the concatenated letters |
| Reversal.OthersAppend | main.py:81-85 | the others of a concatenation are the concatenated others |
| Reversal.Reverse | main.py:88-94 | the letters in reverse order, as many as there were |
| Reversal.PrefixPrefix | main.py:97-106 | prefixing twice is prefixing once with both |
| Reversal.Fill | main.py:97-106 | the rebuild walk succeeds exactly when both lists are long enough, and then has the length of the word |
| Reversal.FillKeepsOthers | main.py:104-106 | with the word's own others, every non-letter position keeps its character |
| Reversal.FillContents | main.py:97-106 | the rebuilt word has the word's letter pattern and reads back the consumed letters and others |
| Reversal.FillPatternOnly | main.py:100-101 | the walk depends only on where the word has letters |
| Reversal.FillOwn | main.py:97-106 | rebuilding a word from its own letters and others gives the word |
| Reversal.FillFrom | main.py:100-106 | every character of the rebuilt word comes from one of the two lists |
| Reversal.OthersFrom | main.py:81-85 | the others of a word are characters of the word |
| Reversal.Mirror | main.py:76-109 | the letter reversal keeps the length of the word |
| Reversal.MirrorShape | main.py:76-109 | letter reversal keeps the letter pattern and every other character in place, and puts the letters in reverse order |
| Reversal.ReverseAllLetters | main.py:88-94 | reversing a list of letters leaves only letters |
| Reversal.MirrorInvolution | main.py:76-109 | letter reversal applied twice gives back the word |
| Reversal.FillAt | main.py:100-106 | one step of the walk from the two cursors, with the error when a cursor is at its end |
| Reversal.LettersOfLetters | main.py:82 | a word of letters is its own letter list |
| Reversal.MirrorAllLetters | main.py:87-106 | a word made only of letters is read backwards |
| Reversal.Partition | main.py:79-85 | the partition loop produces exactly the letters and the others of the normal form |
| Reversal.ReverseLetters | main.py:88-94 | the `while i >= 0` loop produces the letters in reverse |
| Reversal.Rebuild | main.py:97-106 | the two-cursor loop computes the rebuild walk, including its `IndexError` |
| Restore.Identity | main.py:76 | the normaliser that changes nothing, as NFD and NFC do on ASCII |
| Restore.ContractionsAsWritten | main.py:49-58 | `contractions_map` as the source spells it, with U+2019 in the first two keys |
| Restore.Contractions | main.py:49-58 | the table with the key for "wasn't" spelled as its reversal |
| Restore.IsMeridiem | main.py:68 | the test `word.lower() in ["am", "pm"]`: two characters ending in `m` |
| Restore.StartsWithTime | main.py:70 | `re.match(r"\d{1,2}:\d{2}(am\|pm)", ...)`, anchored at the start only: a match starts with a digit and has its colon second or third |
| Restore.Swapped | main.py:76-109 | the generic path raises `IndexError` exactly when NFD leaves fewer letters or fewer others than the word has |
| Restore.RestoredWord | main.py:66-109 | `reverse_word`: an `IndexError` comes only from a word no special case claims, through the generic path |
| Restore.RestoredWords | main.py:115 | the word list is restored word by word, and fails when any word fails |
| Restore.RestoredLine | main.py:114-118 | a blank or whitespace-only line becomes the empty line |
| Restore.RestoredLines | main.py:112-118 | the text is restored line by line, one output line per input line |
| Restore.RestoredText | main.py:61-120 | `reverse_text_sense_preserved`; the empty text is restored to the empty text |
| Restore.ReverseWord | main.py:66-109 | the source's `reverse_word`, special cases and loops, computes `RestoredWord` for the same table |
| Restore.ReverseLine | main.py:114-118 | the body of the line loop computes `RestoredLine` for the same table |
| Restore.WordsRestored | main.py:114-116 | a non-blank line whose every word restores is those words joined by spaces |
| Restore.WordFailsLine | main.py:115 | one word that raises makes its line raise |
| Restore.LinesRestored | main.py:112-120 | a text whose every line restores is those lines joined by line feeds |
| Restore.LineFailsText | main.py:112-118 | one line that raises makes the whole text raise |
| Restore.ReverseTextSensePreserved | main.py:61-120 | the source's line loop computes `RestoredText` for any table, `contractions_map` as written included |
| Restore.IdentityKeepsWords | main.py:76 | the identity normaliser creates no whitespace and empties no word |
| Restore.MeridiemRule | main.py:68-69 | a bare `am` or `pm`, in any case, is returned unchanged |
| Restore.TimeRule | main.py:70-72 | a word starting with a clock time keeps its length and all but its last two characters, lower-cases those two, and is then a fixed point |
| Restore.ContractionRule | main.py:73-74 | with `contractions_map` as written, a word whose lower case is a key becomes that key's contraction |
| Restore.NoIndexErrorWhenNormalised | main.py:76-106 | no `IndexError` when NFD leaves the word unchanged |
| Restore.LineFails | main.py:114-116 | a line fails exactly when one of its words fails |
| Restore.GenericRule | main.py:76-109 | a generic, normalisation-stable word keeps its length and non-letters and has its letters reversed |
| Restore.ContractionWordPlain | main.py:50-56 | each contraction word is non-empty and free of whitespace |
| Restore.ContractionsPlain | main.py:49-58 | every value of both tables is a non-empty word without whitespace |
| Restore.TimeWordPlain | main.py:71-72 | the time rule keeps a word free of whitespace |
| Restore.SwappedPlain | main.py:76-109 | the generic path keeps a word non-empty and free of whitespace when normalisation creates no whitespace |
| Restore.RestoredWordShape | main.py:66-109 | every successfully restored word of a split line is a non-empty word without whitespace |
| Restore.LineWords | main.py:114-116 | a restored line splits back into the restored words of the input line, in order, so the word count is kept |
| Restore.ResplitLines | main.py:112-120 | the restored text splits into the restored lines, one per input line, in order, when the last line is not blank |
| Restore.ContractionIsReversal | main.py:49-58 | each key of the corrected table is its contraction with the letters reversed |
| Restore.MirrorOfWord | main.py:87-106 | a word of letters reverses to its mirror image |
| Restore.WasntKeyMisspelled | main.py:55 | the key for "wasn't" is not its reversal, and that reversal is not a key |
| Restore.WasntReversed | main.py:55 | "wasn't" with its letters reversed is `t'nsaw` |
| Restore.WasntKeyOverridesReversal | main.py:55 | with the table as written, `t'nasw` is restored to "wasn't" although its letters read backwards give `wsan't` |
| Restore.NaswRestored | main.py:55 | `t'nasw` is looked up in the table as written and gives "wasn't" |
| Restore.CorrectedWasnt | main.py:55 | with the corrected table, `t'nasw` reads back as `wsan't` and any casing of `t'nsaw` becomes "wasn't" |
| Restore.CurlyApostropheStays | main.py:50-51 | a U+2019 apostrophe is not a letter, so it would stay in place without the table |
| Router.MessageText | main.py:128-133 | the text is chosen when non-empty, otherwise a non-empty caption, otherwise nothing |
| Router.DigitChar | main.py:136 | a digit value becomes a decimal digit |
| Router.Digits | main.py:136 | the decimal digits of a number, without a leading zero |
| Router.DecimalString | main.py:136 | `str` of an integer starts with a minus sign exactly for negatives |
| Router.DigitsValue | main.py:136 | the empty digit string has value zero |
| Router.ParseDecimal | main.py:136 | a parsed unsigned decimal is not negative |
| Router.DigitsRoundTrip | main.py:136 | reading back the digits of a number gives the number |
| Router.DecimalRoundTrip | main.py:136 | reading back `str` of an integer gives the integer |
| Router.DecimalInjective | main.py:136 | distinct user ids have distinct decimal strings |
| Router.MayReverse | main.py:136 | `chat.type == "private" or str(user_id) == PAM_CHAT_ID`: outside private chats the configured id reads back as the sender's id |
| Router.OneSenderOutsidePrivate | main.py:136 | outside private chats at most one user id is served |
| Router.ConfiguredSenderServed | main.py:136 | the configured user is served in every chat |
| Router.NoConfigurationPrivateOnly | main.py:136 | without a configured chat id only private chats are served |
| Router.Handle | main.py:123-151 | no reply without text or for a refused sender, and an `IndexError` exactly when the allowed reversal fails |
| Router.TextAnsweredAsText | main.py:139-141 | a non-empty text is answered with its reversal as text |
| Router.CaptionAnsweredWithMedia | main.py:142-151 | a caption is answered on a photo first, else on a video, else not at all |
| Router.ReplyCarriesReversal | main.py:136-151 | every reply carries the reversal of the chosen text |
| Examples.LettersOnlyWord | main.py:87-109 | a generic word of letters restores to its reverse |
| Examples.Hello | main.py:66-109 | `olleh` restores to `hello` |
| Examples.ClockTime | main.py:70-72 | `12:30PM` restores to `12:30pm` |
| Examples.Dont | main.py:73-74 | `T'NOD` and `t'nod` both restore to `don't` |
| Examples.Cant | main.py:50 | `t’nac` with U+2019 restores to `can't` |
| Examples.LineFromWords | main.py:114-116 | a line restores to its restored words joined by spaces |
| Examples.TextFromLines | main.py:113-120 | a text restores to its restored lines joined by line feeds |
| Examples.MixedLineSplits | main.py:113-115 | `t'nac ydaer` is one line of two words |
| Examples.CantReady | main.py:76-109 | `t'nac` with the ASCII apostrophe restores to `can't` by the generic path, and `ydaer` to `ready` |
| Examples.TwoWordText | main.py:113-120 | a one-line text of two words restores to the two restored words joined by a space |
| Examples.TwoWords | main.py:61-120 | `t'nac ydaer` restores to `can't` and `ready` with a space between |
| Examples.MixedLine | main.py:61-120 | `t'nac ydaer` restores to `can't ready` |
| Examples.OneWordLine | main.py:114-116 | a line of one generic word of letters restores to its reverse |
| Examples.ThreeLinesSplit | main.py:113 | `olleh`, an empty line and `dlrow` are three lines |
| Examples.HelloLine | main.py:114-116 | the line `olleh` restores to `hello` |
| Examples.WorldLine | main.py:114-116 | the line `dlrow` restores to `world` |
| Examples.ThreeLineText | main.py:113-120 | a three-line text restores to its three restored lines joined by line feeds |
| Examples.JoinThree | main.py:120 | three parts join to the parts with the separator twice between them |
| Examples.ThreeLines | main.py:112-120 | `olleh`, blank, `dlrow` restores to `hello`, empty, `world` |
| Examples.BlankLineKept | main.py:117-120 | an empty line between two lines stays an empty line |

## Left out

- The `/start` and `/boop` command replies (main.py:32-45), fixed
  greeting texts that involve no restoration.
- The Telegram side of `reverse_message` and `main` (main.py:123-180): the
  network, the application builder, the handler registration, and the
  photo and video file ids sent back. `Router.Handle`
  returns the reply that would be sent instead of sending it.
- Environment and logging (main.py:11-29): the bot token is not modelled;
  `PAM_CHAT_ID` is a parameter of the access rule, `None` when unset.
- Unicode normalisation: NFD and NFC are the parameter `Normaliser`, not
  the Unicode algorithms. Properties that need something of them say so:
  `Restore.Stable` (they leave the word alone) or `Restore.KeepsWords`
  (they create no whitespace and empty no word).
- Restore.GenericRule: states the letter reversal only for words on which
  NFD and NFC change nothing, because the normaliser is a parameter.
- Restore.LineWords, Restore.ResplitLines: hold for normalisers that create
  no whitespace and empty no word (`Restore.KeepsWords`). Unicode NFD and
  NFC create no whitespace and empty no word, but the model does not prove
  this of the Unicode tables.
- PyText.IsAlpha, PyText.LowerChar, PyText.Lower: `isalpha()` and `lower()` are modelled on
  ASCII and Latin-1 only; characters above U+00FF count as non-letters and
  are not lower-cased. Python's `lower()` can also lengthen a string
  (U+0130), which does not happen on this range.
- Restore.StartsWithTime: `\d` is taken as an ASCII digit; Python's `\d`
  also matches other Unicode decimal digits.
- The `IndexError` of the rebuild loop is not caught per word: the code
  lets it escape, so the model returns the error for the whole text and
  the whole message, as the code does.

## Findings

| source | as written | input that shows it | evidently intended | confidence | as-written member | corrected member |
|---|---|---|---|---|---|---|
| main.py:55 | the key for "wasn't" is `t'nasw`, which is not "wasn't" with its letters reversed | `t'nasw`, whose letters read backwards give `wsan't`, comes out as "wasn't"; the real reversal `t'nsaw` is not a key | the key `t'nsaw` | high, not executed | Restore.WasntKeyOverridesReversal | Restore.ContractionIsReversal |
