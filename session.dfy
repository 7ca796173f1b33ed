/** One client and one server on one connection: the server's handleConnection
    (server/server.go) writes its challenge line, the client's GetQuote
    (client/client.go) reads it, solves it and sends its solution line, and
    the server's answer is the client's second read. */
module Session {
  import opened Base
  import opened Strings
  import opened Shared
  import opened Wire
  import opened Server
  import opened Client

  /** The two reads of the client over what the server writes: the
      challenge line, and the answer line that follows it. */
  lemma ServerOutputReads(c: Challenge, incoming: seq<byte>, quote: seq<byte>)
    requires NEWLINE !in c.prefix
    ensures ReadLine(Serve(c, true, incoming, quote)) == Line(ChallengeLine(c))
    ensures Rest(Serve(c, true, incoming, quote)) == Respond(c, incoming, quote)
  {
    ChallengeLineIsOneLine(c);
    assert Serve(c, true, incoming, quote) == CHALLENGE_TAG + c.Encode() + [NEWLINE] + Respond(c, incoming, quote);
    ReadLineOfLine(CHALLENGE_TAG + c.Encode(), Respond(c, incoming, quote));
  }

  /** A quote line read on its own gives the client the quote. */
  lemma QuoteLineReaches(quote: seq<byte>)
    requires quote != [] && !IsSpace(quote[|quote| - 1]) && !EndsInUnicodeSpace(quote) && NEWLINE !in quote
    ensures ReadLine(QuoteLine(quote)) == Line(QuoteLine(quote))
    ensures ResultOutcome(QuoteLine(quote)) == Quote(quote)
  {
    assert QuoteLine(quote) == QUOTE_TAG + quote + [NEWLINE] + [];
    ReadLineOfLine(QUOTE_TAG + quote, []);
    QuoteLineParses(quote);
  }

  /** The server's answer to the line of a verifying nonce is the quote
      line, and the client reads the quote from it. */
  lemma HonestAnswer(c: Challenge, n: uint64, quote: seq<byte>)
    requires COLON !in c.prefix && NEWLINE !in c.prefix && c.Verify(n)
    requires quote != [] && !IsSpace(quote[|quote| - 1]) && !EndsInUnicodeSpace(quote) && NEWLINE !in quote
    ensures Serve(c, true, SolutionLine(Solution(c, n)), quote) == ChallengeLine(c) + QuoteLine(quote)
    ensures ReadLine(Rest(Serve(c, true, SolutionLine(Solution(c, n)), quote))).Line?
    ensures ResultOutcome(ReadLine(Rest(Serve(c, true, SolutionLine(Solution(c, n)), quote))).text) == Quote(quote)
  {
    assert SolutionLine(Solution(c, n)) + [] == SolutionLine(Solution(c, n));
    HonestRespond(c, n, [], quote);
    ServerOutputReads(c, SolutionLine(Solution(c, n)), quote);
    QuoteLineReaches(quote);
  }

  /** The honest session once the challenge `c` is drawn: the client
      answers it with the least nonce that verifies, the server takes that
      line as what arrives, and the client ends with the quote; it hangs in
      Solve instead exactly when no nonce verifies. `out` is everything the
      server writes. */
  method HonestExchange(c: Challenge, quote: seq<byte>) returns (r: Outcome, sent: seq<byte>, out: seq<byte>)
    requires COLON !in c.prefix && NEWLINE !in c.prefix
    requires quote != [] && !IsSpace(quote[|quote| - 1]) && !EndsInUnicodeSpace(quote) && NEWLINE !in quote
    ensures out == Serve(c, true, sent, quote)
    ensures r.Hangs? <==> forall n: uint64 :: !c.Verify(n)
    ensures !r.Hangs? ==> r == Quote(quote) && out == ChallengeLine(c) + QuoteLine(quote)
  {
    var solution := c.Solve();
    var incoming := if solution.Some? then SolutionLine(solution.value) else [];
    out := Serve(c, true, incoming, quote);
    ServerOutputReads(c, incoming, quote);
    ChallengeLineParses(c);
    assert ParseChallengeLine(ReadLine(out).text) == Ok(c);
    r, sent := GetQuote(true, ReadLine(out), true, ReadLine(Rest(out)), 5);
    assert Exchanged(c, true, ReadLine(Rest(out)), 5, r, sent);
    if solution.Some? {
      ghost var n :| c.IsLeastNonce(n) && sent == SolutionLine(Solution(c, n));
      LeastNonceUnique(c, n, solution.value.nonce);
      assert solution.value == Solution(c, n);
      HonestAnswer(c, n, quote);
    }
  }

  /** The honest session on a connection: the challenge is the one
      handleConnection draws from `random`. */
  method HonestSession(difficulty: int64, random: seq<byte>, quote: seq<byte>)
    returns (r: Outcome, sent: seq<byte>, out: seq<byte>)
    requires |random| == 16
    requires quote != [] && !IsSpace(quote[|quote| - 1]) && !EndsInUnicodeSpace(quote) && NEWLINE !in quote
    ensures out == HandleConnection(difficulty, random, true, sent, quote)
    ensures r.Hangs? <==> forall n: uint64 :: !GenerateChallenge(difficulty, random).Verify(n)
    ensures !r.Hangs? ==> r == Quote(quote) && out == ChallengeLine(GenerateChallenge(difficulty, random)) + QuoteLine(quote)
  {
    r, sent, out := HonestExchange(GenerateChallenge(difficulty, random), quote);
  }

  /** A refusal line, read on its own, is read whole and gives the client a
      server error carrying the refusal's text. */
  lemma RefusalLineReads(reply: Reply, quote: seq<byte>)
    requires reply != Granted
    ensures ReadLine(ReplyLine(reply, quote)) == Line(ReplyLine(reply, quote))
    ensures ResultOutcome(ReplyLine(reply, quote)) == Failed(ServerError(RefusalText(reply)))
  {
    var text := RefusalText(reply);
    assert ReplyLine(reply, quote) == ERROR_TAG + text + [NEWLINE] + [];
    ReadLineOfLine(ERROR_TAG + text, []);
    ErrorLineParses(text);
  }

  /** Every refusal reaches the client: its second read over what the server
      writes is the one ERROR line, and it reports a server error carrying
      the server's text. */
  lemma RefusalReported(c: Challenge, incoming: seq<byte>, quote: seq<byte>)
    requires NEWLINE !in c.prefix
    requires ReadLine(incoming).Line? && Decide(c, ReadLine(incoming).text) != Granted
    ensures var reply := Decide(c, ReadLine(incoming).text);
      var second := ReadLine(Rest(Serve(c, true, incoming, quote)));
      && second == Line(ReplyLine(reply, quote))
      && ResultOutcome(second.text) == Failed(ServerError(RefusalText(reply)))
  {
    ServerOutputReads(c, incoming, quote);
    RefusalLineReads(Decide(c, ReadLine(incoming).text), quote);
  }
}
