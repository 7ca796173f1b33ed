/** client/client.go, GetQuote: dial, read the challenge line, solve it, send
    the solution line, read the answer line. The network is replaced by its
    observable effects: whether the dial and the write succeed, the bytes the
    server sends before the solution (`greeting`) and after it (`answer`),
    and the first context check at which ctx.Err() is non-nil. */
module Client {
  import opened Base
  import opened Strings
  import opened Shared
  import opened Wire

  /** The errors GetQuote returns, one per `return "", err` of client.go. */
  datatype ClientError =
    | DialFailed                                // the dial fails
    | ReadChallengeFailed                       // no challenge line arrives
    | Cancelled                                 // ctx.Err() at one of the four checks
    | BadChallengeLine(line: seq<byte>)         // no "CHALLENGE " tag on the trimmed line
    | ChallengeDecodeFailed(error: DecodeError) // DecodeChallenge fails
    | SendFailed                                // writing the solution line fails
    | ReadResultFailed                          // no answer line arrives
    | ServerError(text: seq<byte>)              // the answer is an "ERROR: " line
    | BadResponse(line: seq<byte>)              // the answer is neither ERROR nor QUOTE

  /** How GetQuote ends: with a quote, with an error, or never, when Solve
      searches forever because no nonce verifies. */
  datatype Outcome = Quote(text: seq<byte>) | Failed(error: ClientError) | Hangs

  /** The challenge line as client.go:73-82 reads it: trimmed, tagged,
      decoded. */
  function ParseChallengeLine(line: seq<byte>): (r: Result<Challenge, ClientError>)
    ensures r == Err(BadChallengeLine(TrimSpace(line))) <==> !HasPrefix(TrimSpace(line), CHALLENGE_TAG)
    ensures r.Ok? ==>
              HasPrefix(TrimSpace(line), CHALLENGE_TAG) && IsChallengeText(TrimSpace(line)[|CHALLENGE_TAG|..], r.value)
    ensures HasPrefix(TrimSpace(line), CHALLENGE_TAG) && DecodeChallenge(TrimSpace(line)[|CHALLENGE_TAG|..]).Err? ==>
              r == Err(ChallengeDecodeFailed(DecodeChallenge(TrimSpace(line)[|CHALLENGE_TAG|..]).error))
  {
    var t := TrimSpace(line);
    if !HasPrefix(t, CHALLENGE_TAG) then Err(BadChallengeLine(t))
    else
      var text := TrimPrefix(t, CHALLENGE_TAG);
      match DecodeChallenge(text)
      case Err(e) => Err(ChallengeDecodeFailed(e))
      case Ok(c) => DecodeChallengeExact(text, c); Ok(c)
  }

  /** The answer line as client.go:127-137 reads it: trimmed, the ERROR tag
      looked for first, then the QUOTE tag. */
  function ParseResult(line: seq<byte>): (r: Result<seq<byte>, ClientError>)
    ensures r.Ok? ==> TrimSpace(line) == QUOTE_TAG + r.value && !HasPrefix(TrimSpace(line), ERROR_TAG)
    ensures r.Err? && r.error.ServerError? ==> TrimSpace(line) == ERROR_TAG + r.error.text
    ensures r.Err? ==> r.error.ServerError? || r.error == BadResponse(TrimSpace(line))
  {
    var t := TrimSpace(line);
    if HasPrefix(t, ERROR_TAG) then Err(ServerError(TrimPrefix(t, ERROR_TAG)))
    else if !HasPrefix(t, QUOTE_TAG) then Err(BadResponse(t))
    else Ok(TrimPrefix(t, QUOTE_TAG))
  }

  /** The outcome of the answer line once it is read: never a hang. */
  function ResultOutcome(line: seq<byte>): (o: Outcome)
    ensures !o.Hangs?
  {
    match ParseResult(line)
    case Ok(quote) => Quote(quote)
    case Err(e) => Failed(e)
  }

  /** What GetQuote promises once the challenge `c` is decoded
      (client.go:91-137): a cancellation before solving ends it; otherwise
      it hangs exactly when no nonce verifies, and else it sends the line of
      the least nonce, then reports a failed write, a failed read, a
      cancellation, or what the answer line says. */
  ghost predicate Exchanged(c: Challenge, sendOk: bool, second: ReadResult, cancelledFrom: nat,
                            r: Outcome, sent: seq<byte>)
  {
    && (cancelledFrom <= 2 ==> r == Failed(Cancelled) && sent == [])
    && (cancelledFrom > 2 ==> (r.Hangs? <==> forall n: uint64 :: !c.Verify(n)))
    && (cancelledFrom > 2 && r.Hangs? ==> sent == [])
    && (cancelledFrom == 3 && !r.Hangs? ==> r == Failed(Cancelled) && sent == [])
    && (cancelledFrom > 3 && !r.Hangs? ==> exists n: uint64 :: c.IsLeastNonce(n) && sent == SolutionLine(Solution(c, n)))
    && (cancelledFrom > 3 && !r.Hangs? && !sendOk ==> r == Failed(SendFailed))
    && (cancelledFrom > 3 && !r.Hangs? && sendOk ==>
          r == (if second.ReadFailed? then Failed(ReadResultFailed)
                else if cancelledFrom <= 4 then Failed(Cancelled)
                else ResultOutcome(second.text)))
  }

  /** GetQuote. The two calls of ReadString('\n') are given by what they
      return: `first` for the challenge line and `second` for the answer line
      (Session computes both from the bytes the server writes). `cancelledFrom`
      is the first of the four context checks (client.go:69, 91, 100, 123),
      numbered 1 to 4, that finds the context done; 5 or more means that none
      does, and 0 means the same as 1 (done before the first check). A context
      stays done, so every later check fails too. `sent` is what the client writes on the connection. */
  method GetQuote(dialOk: bool, first: ReadResult, sendOk: bool, second: ReadResult, cancelledFrom: nat)
    returns (r: Outcome, sent: seq<byte>)
    ensures !dialOk ==> r == Failed(DialFailed) && sent == []
    ensures dialOk && first.ReadFailed? ==> r == Failed(ReadChallengeFailed) && sent == []
    ensures dialOk && first.Line? && cancelledFrom <= 1 ==> r == Failed(Cancelled) && sent == []
    ensures dialOk && first.Line? && cancelledFrom > 1 && ParseChallengeLine(first.text).Err? ==>
      r == Failed(ParseChallengeLine(first.text).error) && sent == []
    ensures dialOk && first.Line? && cancelledFrom > 1 && ParseChallengeLine(first.text).Ok? ==>
      Exchanged(ParseChallengeLine(first.text).value, sendOk, second, cancelledFrom, r, sent)
  {
    sent := [];
    if !dialOk {
      return Failed(DialFailed), sent;
    }
    if first.ReadFailed? {
      return Failed(ReadChallengeFailed), sent;
    }
    if cancelledFrom <= 1 {
      return Failed(Cancelled), sent;
    }
    var parsed := ParseChallengeLine(first.text);
    if parsed.Err? {
      return Failed(parsed.error), sent;
    }
    r, sent := Exchange(parsed.value, sendOk, second, cancelledFrom);
  }

  /** The part of GetQuote after the challenge is decoded: the context check
      of client.go:91, Solve, the check of client.go:100, the write of the
      solution line, the read of the answer and the check of client.go:123. */
  method Exchange(c: Challenge, sendOk: bool, second: ReadResult, cancelledFrom: nat)
    returns (r: Outcome, sent: seq<byte>)
    ensures Exchanged(c, sendOk, second, cancelledFrom, r, sent)
  {
    sent := [];
    if cancelledFrom <= 2 {
      return Failed(Cancelled), sent;
    }
    var solution := c.Solve();
    if solution.None? {
      return Hangs, sent;
    }
    if cancelledFrom <= 3 {
      return Failed(Cancelled), sent;
    }
    sent := SolutionLine(solution.value);
    if !sendOk {
      return Failed(SendFailed), sent;
    }
    if second.ReadFailed? {
      return Failed(ReadResultFailed), sent;
    }
    if cancelledFrom <= 4 {
      return Failed(Cancelled), sent;
    }
    r := ResultOutcome(second.text);
  }

  // ----------------------------------------------------------- properties

  /** A tagged line is decoded from the text after its tag. */
  lemma ParseChallengeOfTagged(line: seq<byte>, text: seq<byte>, c: Challenge)
    requires TrimSpace(line) == CHALLENGE_TAG + text
    ensures ParseChallengeLine(line) == Ok(c) <==> DecodeChallenge(text) == Ok(c)
  {
    TrimPrefixOfPrefixed(CHALLENGE_TAG, text);
  }

  /** The challenge line the server writes is read back as the challenge
      exactly when its prefix has no colon. */
  lemma ChallengeLineParses(c: Challenge)
    ensures ParseChallengeLine(ChallengeLine(c)) == Ok(c) <==> COLON !in c.prefix
  {
    var body := CHALLENGE_TAG + c.Encode();
    assert c.Encode() == c.prefix + [COLON] + Fmt.FormatInt(c.difficulty);
    assert body[0] == CHALLENGE_TAG[0] && body[|body| - 1] == c.Encode()[|c.Encode()| - 1];
    AsciiEndNoUnicodeSpace(body);
    TrimSpaceOfLine(body);
    ParseChallengeOfTagged(ChallengeLine(c), c.Encode(), c);
    ChallengeRoundTrip(c);
  }

  /** A trimmed line is a quote exactly when it is the QUOTE tag and the
      quote; an "ERROR: " line never is, since the ERROR tag is looked for
      first and the two tags differ in their first byte. */
  lemma ParseResultQuote(line: seq<byte>, quote: seq<byte>)
    ensures ParseResult(line) == Ok(quote) <==> TrimSpace(line) == QUOTE_TAG + quote
  {
    var t := TrimSpace(line);
    if t == QUOTE_TAG + quote {
      assert t[0] == QUOTE_TAG[0] != ERROR_TAG[0];
      TrimPrefixOfPrefixed(QUOTE_TAG, quote);
    }
  }

  /** A trimmed line that starts with the ERROR tag is a server error carrying
      the rest of the line, whatever follows the tag. */
  lemma ParseResultError(line: seq<byte>)
    requires HasPrefix(TrimSpace(line), ERROR_TAG)
    ensures ParseResult(line) == Err(ServerError(TrimSpace(line)[|ERROR_TAG|..]))
  {
  }

  /** A quote line whose quote is not empty and does not end in white space,
      ASCII or Unicode, gives the client that quote; the tag comes first, so
      the quote's first byte is never trimmed. */
  lemma QuoteLineParses(quote: seq<byte>)
    requires quote != [] && !IsSpace(quote[|quote| - 1]) && !EndsInUnicodeSpace(quote)
    ensures ParseResult(QuoteLine(quote)) == Ok(quote)
  {
    var body := QUOTE_TAG + quote;
    assert body[0] == QUOTE_TAG[0] && body[|body| - 1] == quote[|quote| - 1];
    EndsInUnicodeSpaceAfter(QUOTE_TAG, quote);
    TrimSpaceOfLine(body);
    ParseResultQuote(QuoteLine(quote), quote);
  }

  /** An error line whose text does not end in white space, ASCII or
      Unicode, gives the client a server error with that text. */
  lemma ErrorLineParses(text: seq<byte>)
    requires text != [] && !IsSpace(text[|text| - 1]) && !EndsInUnicodeSpace(text)
    ensures ParseResult(ErrorLine(text)) == Err(ServerError(text))
  {
    var body := ERROR_TAG + text;
    assert body[0] == ERROR_TAG[0] && body[|body| - 1] == text[|text| - 1];
    EndsInUnicodeSpaceAfter(ERROR_TAG, text);
    TrimSpaceOfLine(body);
    TrimPrefixOfPrefixed(ERROR_TAG, text);
  }

  /** An empty quote is lost: trimming "QUOTE \n" also cuts the space of the
      tag, and the line is then refused as a bad response. */
  lemma EmptyQuoteRejected()
    ensures ParseResult(QuoteLine([])) == Err(BadResponse(QUOTE_TAG[..5]))
  {
    var line := QuoteLine([]);
    var word := QUOTE_TAG[..5];
    assert line == word + [0x20, NEWLINE];
    assert TrimLeft(line) == line;
    assert line[..6] == word + [0x20];
    assert (word + [0x20])[..5] == word;
    assert TrimRight(word) == word;
    assert TrimRight(line) == word;
  }
}
