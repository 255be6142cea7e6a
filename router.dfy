/** The message handler `reverse_message`: which part of a message is
    reversed, who may have it reversed, and which kind of reply is sent.
    The Telegram objects are reduced to the fields the handler reads; the
    sending itself is not modelled, only the reply it would send. */
module Router {
  import opened PyText
  import opened Results
  import opened Restore

  datatype Option<T> = None | Some(value: T)

  /** Python truthiness of an optional string: present and not empty. */
  predicate Truthy(s: Option<string>) {
    s.Some? && s.value != []
  }

  /** The fields of an incoming message the handler reads. `photo` and
      `video` say whether the message carries a (non-empty) photo list or a
      video. */
  datatype Message = Message(
    text: Option<string>,
    caption: Option<string>,
    chatType: string,
    userId: int,
    photo: bool,
    video: bool)

  /** The text to reverse: the message text when it is non-empty, otherwise
      the caption when that is non-empty, otherwise nothing. */
  function MessageText(text: Option<string>, caption: Option<string>): (r: Option<string>)
    ensures r.Some? <==> Truthy(text) || Truthy(caption)
    ensures r.Some? ==> r.value != [] && (r == text || r == caption)
    ensures Truthy(text) ==> r == text
  {
    if Truthy(text) then text
    else if Truthy(caption) then caption
    else None
  }

  function DigitChar(d: nat): (c: char)
    requires d < 10
    ensures IsDigit(c)
  {
    "0123456789"[d]
  }

  /** The decimal digits of a natural number, most significant first, with no leading zero. */
  function Digits(n: nat): (s: string)
    ensures s != [] && (forall i :: 0 <= i < |s| ==> IsDigit(s[i]))
    ensures |s| > 1 ==> s[0] != '0'
  {
    if n < 10 then [DigitChar(n)] else Digits(n / 10) + [DigitChar(n % 10)]
  }

  /** `str(n)` for an integer: a minus sign before the digits of a negative number. */
  function DecimalString(n: int): (s: string)
    ensures s != []
    ensures n < 0 <==> s[0] == '-'
  {
    if n < 0 then "-" + Digits(-n) else Digits(n)
  }

  /** The value of a string of decimal digits. */
  function DigitsValue(s: string): (n: nat)
    requires forall i :: 0 <= i < |s| ==> IsDigit(s[i])
    ensures s == [] ==> n == 0
  {
    if s == [] then 0
    else
      assert IsDigit(s[|s| - 1]);
      DigitsValue(s[..|s| - 1]) * 10 + (s[|s| - 1] as int - '0' as int)
  }

  /** Reading a decimal string back: the partner of DecimalString. */
  function ParseDecimal(s: string): (r: Option<int>)
    ensures r.Some? && s != [] && s[0] != '-' ==> r.value >= 0
  {
    if s != [] && s[0] == '-' then
      var t := s[1..];
      if t != [] && forall i :: 0 <= i < |t| ==> IsDigit(t[i]) then Some(0 - DigitsValue(t) as int) else None
    else if s != [] && forall i :: 0 <= i < |s| ==> IsDigit(s[i]) then Some(DigitsValue(s) as int)
    else None
  }

  lemma {:induction false} DigitsRoundTrip(n: nat)
    ensures DigitsValue(Digits(n)) == n
  {
    var s := Digits(n);
    if n < 10 {
      assert s[..|s| - 1] == [];
    } else {
      DigitsRoundTrip(n / 10);
      assert s[..|s| - 1] == Digits(n / 10);
      assert s[|s| - 1] == DigitChar(n % 10);
    }
  }

  /** Reading back what `str` wrote gives the same integer. */
  lemma {:induction false} DecimalRoundTrip(n: int)
    ensures ParseDecimal(DecimalString(n)) == Some(n)
  {
    var s := DecimalString(n);
    if n < 0 {
      var d := Digits(-n);
      DigitsRoundTrip(-n);
      assert s[1..] == d;
    } else {
      DigitsRoundTrip(n);
      assert s[0] != '-' by { assert IsDigit(s[0]); }
    }
  }

  /** Distinct integers have distinct decimal strings. */
  lemma DecimalInjective(a: int, b: int)
    requires DecimalString(a) == DecimalString(b)
    ensures a == b
  {
    DecimalRoundTrip(a);
    DecimalRoundTrip(b);
  }

  /** The access rule: private chats always, otherwise only the sender whose
      id, written in decimal, equals the configured chat id. An unset
      configuration (`None`) never equals a string. */
  predicate MayReverse(chatType: string, userId: int, pamChatId: Option<string>)
    ensures chatType != "private" && MayReverse(chatType, userId, pamChatId) ==>
      pamChatId.Some? && ParseDecimal(pamChatId.value) == Some(userId)
  {
    DecimalRoundTrip(userId);
    chatType == "private" || (pamChatId.Some? && DecimalString(userId) == pamChatId.value)
  }

  /** Outside private chats at most one sender is served. */
  lemma OneSenderOutsidePrivate(chatType: string, a: int, b: int, pamChatId: Option<string>)
    requires chatType != "private"
    requires MayReverse(chatType, a, pamChatId) && MayReverse(chatType, b, pamChatId)
    ensures a == b
  {
    DecimalInjective(a, b);
  }

  /** The configured sender is served in every chat. */
  lemma ConfiguredSenderServed(chatType: string, userId: int)
    ensures MayReverse(chatType, userId, Some(DecimalString(userId)))
  {
  }

  lemma NoConfigurationPrivateOnly(chatType: string, userId: int)
    ensures MayReverse(chatType, userId, None) <==> chatType == "private"
  {
  }

  datatype Reply = NoReply | TextReply(body: string) | PhotoReply(caption: string) | VideoReply(caption: string)

  /** What the handler sends back. The reversal runs as soon as the message has
      text and the sender is allowed, before the reply kind is chosen, so an
      `IndexError` escapes even for a caption on a message that is neither a
      photo nor a video, which otherwise gets no reply. */
  function Handle(norm: Normaliser, m: Message, pamChatId: Option<string>): (r: Result<Reply>)
    ensures MessageText(m.text, m.caption).None? ==> r == Ok(NoReply)
    ensures !MayReverse(m.chatType, m.userId, pamChatId) ==> r == Ok(NoReply)
    ensures r.IndexError? <==>
      (MessageText(m.text, m.caption).Some? && MayReverse(m.chatType, m.userId, pamChatId)
       && RestoredText(norm, ContractionsAsWritten, MessageText(m.text, m.caption).value).IndexError?)
  {
    var msg := MessageText(m.text, m.caption);
    if msg.None? then Ok(NoReply)
    else if !MayReverse(m.chatType, m.userId, pamChatId) then Ok(NoReply)
    else
      match RestoredText(norm, ContractionsAsWritten, msg.value)
      case IndexError => IndexError
      case Ok(reversed) =>
        if Truthy(m.text) then Ok(TextReply(reversed))
        else if m.photo then Ok(PhotoReply(reversed))
        else if m.video then Ok(VideoReply(reversed))
        else Ok(NoReply)
  }

  /** A non-empty text is answered with its reversal as text, whatever else the message holds. */
  lemma TextAnsweredAsText(norm: Normaliser, m: Message, pamChatId: Option<string>)
    requires Truthy(m.text) && MayReverse(m.chatType, m.userId, pamChatId)
    requires RestoredText(norm, ContractionsAsWritten, m.text.value).Ok?
    ensures Handle(norm, m, pamChatId) == Ok(TextReply(RestoredText(norm, ContractionsAsWritten, m.text.value).value))
  {
  }

  /** Without text, a photo or a video is answered with its reversed caption;
      the photo wins when the message has both. */
  lemma CaptionAnsweredWithMedia(norm: Normaliser, m: Message, pamChatId: Option<string>)
    requires !Truthy(m.text) && Truthy(m.caption) && MayReverse(m.chatType, m.userId, pamChatId)
    requires RestoredText(norm, ContractionsAsWritten, m.caption.value).Ok?
    ensures var reversed := RestoredText(norm, ContractionsAsWritten, m.caption.value).value;
      && (m.photo ==> Handle(norm, m, pamChatId) == Ok(PhotoReply(reversed)))
      && (!m.photo && m.video ==> Handle(norm, m, pamChatId) == Ok(VideoReply(reversed)))
      && (!m.photo && !m.video ==> Handle(norm, m, pamChatId) == Ok(NoReply))
  {
  }

  /** Every reply carries the reversal of the chosen text. */
  lemma ReplyCarriesReversal(norm: Normaliser, m: Message, pamChatId: Option<string>)
    requires Handle(norm, m, pamChatId).Ok? && Handle(norm, m, pamChatId).value != NoReply
    ensures MessageText(m.text, m.caption).Some?
    ensures MayReverse(m.chatType, m.userId, pamChatId)
    ensures var reply := Handle(norm, m, pamChatId).value;
      Ok(if reply.TextReply? then reply.body else reply.caption)
        == RestoredText(norm, ContractionsAsWritten, MessageText(m.text, m.caption).value)
  {
  }
}
