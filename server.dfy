/** One connection as server/server.go handles it (handleConnection): send a
    fresh challenge, read one line, and answer it with one ERROR line or with
    a QUOTE line, then close. The clock, the deadlines, the logging and the
    accept loop are not modelled; the connection is the bytes that arrive
    from the client, and the result is the bytes the server writes. */
module Server {
  import opened Base
  import opened Strings
  import opened Shared
  import opened Wire

  /** The four ways the server answers the line it reads. */
  datatype Reply =
    | FormatError                        // the line does not start with "SOLUTION "
    | DecodeFailure(error: DecodeError)  // DecodeSolution failed
    | InvalidSolution                    // bad nonce, or not the challenge issued
    | Granted                            // the quote is sent

  /** The solution text of a line: the line without surrounding white space
      and without its "SOLUTION " tag. */
  function SolutionText(line: seq<byte>): (text: seq<byte>)
    ensures HasPrefix(TrimSpace(line), SOLUTION_TAG) ==> TrimSpace(line) == SOLUTION_TAG + text
  {
    TrimPrefix(TrimSpace(line), SOLUTION_TAG)
  }

  /** The checks of server.go:135-157, in their order: the tag, then
      DecodeSolution (Judge does the rest). */
  function Decide(issued: Challenge, line: seq<byte>): (r: Reply)
    ensures r == Granted ==> HasPrefix(TrimSpace(line), SOLUTION_TAG) && DecodeSolution(SolutionText(line)).Ok?
  {
    if !HasPrefix(TrimSpace(line), SOLUTION_TAG) then FormatError
    else Judge(issued, DecodeSolution(SolutionText(line)))
  }

  /** A decoding error is passed on; a decoded solution is granted only when
      its nonce verifies and its challenge is the one issued, prefix and
      difficulty both. */
  function Judge(issued: Challenge, decoded: Result<Solution, DecodeError>): (r: Reply)
    ensures r == Granted <==> decoded.Ok? && decoded.value.challenge == issued && decoded.value.Verify()
  {
    match decoded
    case Err(e) => DecodeFailure(e)
    case Ok(s) =>
      if !s.Verify() || s.challenge.prefix != issued.prefix || s.challenge.difficulty != issued.difficulty
      then InvalidSolution
      else Granted
  }

  /** "неверное решение" in UTF-8 (server/server.go:155). */
  const INVALID_SOLUTION_TEXT: seq<byte> := [0xD0, 0xBD, 0xD0, 0xB5, 0xD0, 0xB2, 0xD0, 0xB5, 0xD1, 0x80, 0xD0, 0xBD, 0xD0, 0xBE, 0xD0, 0xB5, 0x20, 0xD1, 0x80, 0xD0, 0xB5, 0xD1, 0x88, 0xD0, 0xB5, 0xD0, 0xBD, 0xD0, 0xB8, 0xD0, 0xB5]

  /** The text for a wrong solution holds no newline and does not end in
      white space. */
  lemma InvalidSolutionTextOneLine()
    ensures NEWLINE !in INVALID_SOLUTION_TEXT
    ensures !IsSpace(INVALID_SOLUTION_TEXT[|INVALID_SOLUTION_TEXT| - 1])
    ensures !EndsInUnicodeSpace(INVALID_SOLUTION_TEXT)
  {
  }

  /** The text of a refusal, written after "ERROR: "; a decoding error is
      printed with %v. Each is one line that does not end in white space. */
  function RefusalText(r: Reply): (text: seq<byte>)
    requires r != Granted
    ensures text != [] && NEWLINE !in text && !IsSpace(text[|text| - 1]) && !EndsInUnicodeSpace(text)
  {
    ErrorTextsOneLine();
    InvalidSolutionTextOneLine();
    match r
    case FormatError => BAD_SOLUTION_TEXT
    case DecodeFailure(e) => e.Message()
    case InvalidSolution => INVALID_SOLUTION_TEXT
  }

  /** The line written for each reply: a refusal is one ERROR line, and the
      quote line is one line when the quote holds no newline. */
  function ReplyLine(r: Reply, quote: seq<byte>): (line: seq<byte>)
    ensures line != [] && line[|line| - 1] == NEWLINE
    ensures r != Granted || NEWLINE !in quote ==> NEWLINE !in line[..|line| - 1]
  {
    if r == Granted then
      if NEWLINE in quote then QuoteLine(quote)
      else
        TaggedLineIsOneLine(QUOTE_TAG, quote);
        QuoteLine(quote)
    else
      TaggedLineIsOneLine(ERROR_TAG, RefusalText(r));
      ErrorLine(RefusalText(r))
  }

  /** What the server writes after its challenge line: nothing when the read
      fails, otherwise the one reply line. */
  function Respond(issued: Challenge, incoming: seq<byte>, quote: seq<byte>): (out: seq<byte>)
    ensures out == [] <==> NEWLINE !in incoming
  {
    match ReadLine(incoming)
    case ReadFailed => []
    case Line(line) => ReplyLine(Decide(issued, line), quote)
  }

  /** handleConnection: the challenge comes from GenerateChallenge with
      `random` as the 16 random bytes; `challengeSent` is false when writing
      the challenge line fails, after which the server writes nothing more;
      `incoming` is what the client sends; `quote` is the quote drawn. */
  function HandleConnection(difficulty: int64, random: seq<byte>, challengeSent: bool,
                            incoming: seq<byte>, quote: seq<byte>): (out: seq<byte>)
    requires |random| == 16
    ensures HasPrefix(out, ChallengeLine(GenerateChallenge(difficulty, random)))
  {
    Serve(GenerateChallenge(difficulty, random), challengeSent, incoming, quote)
  }

  /** The connection once the challenge `c` is drawn: its line, then the
      response when that line went out. */
  function Serve(c: Challenge, challengeSent: bool, incoming: seq<byte>, quote: seq<byte>): (out: seq<byte>)
    ensures HasPrefix(out, ChallengeLine(c))
  {
    ChallengeLine(c) + (if challengeSent then Respond(c, incoming, quote) else [])
  }

  // ----------------------------------------------------------- properties

  /** A solution text that is well formed for the challenge issued, with a
      nonce that verifies, is granted. */
  lemma GrantedWhenSolved(issued: Challenge, text: seq<byte>, n: uint64)
    requires IsSolutionText(text, Solution(issued, n)) && issued.Verify(n)
    ensures Judge(issued, DecodeSolution(text)) == Granted
  {
    DecodeSolutionExact(text, Solution(issued, n));
  }

  /** A granted solution text is a well-formed solution text for exactly the
      challenge issued, and its nonce verifies. */
  lemma GrantedOnlyWhenSolved(issued: Challenge, text: seq<byte>)
    requires Judge(issued, DecodeSolution(text)) == Granted
    ensures DecodeSolution(text).Ok?
    ensures var s := DecodeSolution(text).value;
      s.challenge == issued && IsSolutionText(text, s) && issued.Verify(s.nonce)
  {
    DecodeSolutionExact(text, DecodeSolution(text).value);
  }

  /** A solution of another challenge, one with the same prefix and a lower
      difficulty for instance, is refused even when its nonce verifies for
      it. */
  lemma OtherChallengeRejected(issued: Challenge, s: Solution)
    requires s.challenge != issued
    ensures Judge(issued, Ok(s)) == InvalidSolution
  {
  }

  /** Judge never finds fault with the format, and a text that does not
      decode gets its own decoding error back. */
  lemma JudgeReplies(issued: Challenge, decoded: Result<Solution, DecodeError>)
    ensures Judge(issued, decoded) != FormatError
    ensures Judge(issued, decoded).DecodeFailure? <==> decoded.Err?
    ensures decoded.Err? ==> Judge(issued, decoded).error == decoded.error
  {
  }

  /** Only a line with the "SOLUTION " tag, once trimmed, gets past the
      format check. */
  lemma FormatErrorExactly(issued: Challenge, line: seq<byte>)
    ensures Decide(issued, line) == FormatError <==> !HasPrefix(TrimSpace(line), SOLUTION_TAG)
  {
    JudgeReplies(issued, DecodeSolution(SolutionText(line)));
  }

  /** Every refusal is one "ERROR: " line, and only a grant writes the quote
      line: the two tags differ in their first byte. */
  lemma ReplyLines(r: Reply, quote: seq<byte>)
    ensures r != Granted ==> HasPrefix(ReplyLine(r, quote), ERROR_TAG) && ReplyLine(r, quote)[|ReplyLine(r, quote)| - 1] == NEWLINE
    ensures ReplyLine(r, quote) == QuoteLine(quote) <==> r == Granted
  {
    if r != Granted {
      assert ReplyLine(r, quote)[0] == ERROR_TAG[0] != QUOTE_TAG[0] == QuoteLine(quote)[0];
    }
  }

  /** A tagged line is judged on the text after its tag. */
  lemma DecideOfTagged(issued: Challenge, line: seq<byte>, text: seq<byte>)
    requires TrimSpace(line) == SOLUTION_TAG + text
    ensures Decide(issued, line) == Judge(issued, DecodeSolution(text))
  {
    TrimPrefixOfPrefixed(SOLUTION_TAG, text);
  }

  /** The server writes the quote line exactly when the challenge was sent, a
      line was read and that line is granted; otherwise its output is the
      challenge line, alone or followed by one ERROR line. */
  lemma QuoteOnlyWhenGranted(difficulty: int64, random: seq<byte>, challengeSent: bool,
                             incoming: seq<byte>, quote: seq<byte>)
    requires |random| == 16
    ensures var c := GenerateChallenge(difficulty, random);
      var out := HandleConnection(difficulty, random, challengeSent, incoming, quote);
      && (out == ChallengeLine(c) + QuoteLine(quote) <==>
            challengeSent && ReadLine(incoming).Line? && Decide(c, ReadLine(incoming).text) == Granted)
      && (!challengeSent || ReadLine(incoming).ReadFailed? ==> out == ChallengeLine(c))
      && (challengeSent && ReadLine(incoming).Line? && Decide(c, ReadLine(incoming).text) != Granted ==>
            && out == ChallengeLine(c) + ReplyLine(Decide(c, ReadLine(incoming).text), quote)
            && HasPrefix(ReplyLine(Decide(c, ReadLine(incoming).text), quote), ERROR_TAG))
  {
    var c := GenerateChallenge(difficulty, random);
    var out := HandleConnection(difficulty, random, challengeSent, incoming, quote);
    if challengeSent && ReadLine(incoming).Line? {
      ReplyLines(Decide(c, ReadLine(incoming).text), quote);
    }
    if out == ChallengeLine(c) + QuoteLine(quote) {
      assert out[|ChallengeLine(c)|..] == QuoteLine(quote);
      var r := ReadLine(incoming);
      assert challengeSent && r.Line?;
      ReplyLines(Decide(c, r.text), quote);
    }
  }

  /** The line an honest client sends: one line, trimmed back to itself. */
  lemma SolutionLineTrimmed(s: Solution)
    requires NEWLINE !in s.challenge.prefix
    ensures NEWLINE !in SOLUTION_TAG + s.Encode()
    ensures TrimSpace(SolutionLine(s)) == SOLUTION_TAG + s.Encode()
  {
    var body := SOLUTION_TAG + s.Encode();
    var head := s.challenge.Encode();
    assert head == s.challenge.prefix + [COLON] + Fmt.FormatInt(s.challenge.difficulty);
    assert s.Encode() == head + [COLON] + Fmt.FormatNat(s.nonce);
    assert NEWLINE !in body;
    assert body[0] == SOLUTION_TAG[0] && body[|body| - 1] == s.Encode()[|s.Encode()| - 1];
    AsciiEndNoUnicodeSpace(body);
    TrimSpaceOfLine(body);
  }

  /** The line of an honest client, one that answers the challenge issued
      with a nonce that verifies, is granted. */
  lemma HonestLineGranted(c: Challenge, n: uint64)
    requires COLON !in c.prefix && NEWLINE !in c.prefix
    requires c.Verify(n)
    ensures Decide(c, SolutionLine(Solution(c, n))) == Granted
  {
    var s := Solution(c, n);
    SolutionLineTrimmed(s);
    SolutionRoundTrip(s);
    DecideOfTagged(c, SolutionLine(s), s.Encode());
  }

  /** A connection whose first line is granted is answered with the quote
      line. */
  lemma RespondGranted(c: Challenge, incoming: seq<byte>, line: seq<byte>, quote: seq<byte>)
    requires ReadLine(incoming) == Line(line) && Decide(c, line) == Granted
    ensures Respond(c, incoming, quote) == QuoteLine(quote)
  {
  }

  /** The honest line, and whatever follows it, is answered with the quote
      line. */
  lemma HonestRespond(c: Challenge, n: uint64, rest: seq<byte>, quote: seq<byte>)
    requires COLON !in c.prefix && NEWLINE !in c.prefix
    requires c.Verify(n)
    ensures Respond(c, SolutionLine(Solution(c, n)) + rest, quote) == QuoteLine(quote)
  {
    var s := Solution(c, n);
    var body := SOLUTION_TAG + s.Encode();
    SolutionLineTrimmed(s);
    assert SolutionLine(s) + rest == body + [NEWLINE] + rest;
    ReadLineOfLine(body, rest);
    HonestLineGranted(c, n);
    RespondGranted(c, SolutionLine(s) + rest, SolutionLine(s), quote);
  }

  /** The honest round trip once the challenge is drawn. */
  lemma HonestServe(c: Challenge, n: uint64, rest: seq<byte>, quote: seq<byte>)
    requires COLON !in c.prefix && NEWLINE !in c.prefix
    requires c.Verify(n)
    ensures Serve(c, true, SolutionLine(Solution(c, n)) + rest, quote) == ChallengeLine(c) + QuoteLine(quote)
  {
    HonestRespond(c, n, rest, quote);
  }

  /** The honest round trip: a client that answers the issued challenge with a
      nonce that verifies, in one "SOLUTION " line, receives the quote. */
  lemma HonestClientGetsQuote(difficulty: int64, random: seq<byte>, n: uint64,
                              rest: seq<byte>, quote: seq<byte>)
    requires |random| == 16
    requires GenerateChallenge(difficulty, random).Verify(n)
    ensures var c := GenerateChallenge(difficulty, random);
      HandleConnection(difficulty, random, true, SolutionLine(Solution(c, n)) + rest, quote)
        == ChallengeLine(c) + QuoteLine(quote)
  {
    HonestServe(GenerateChallenge(difficulty, random), n, rest, quote);
  }
}
