/** The line protocol between client and server: every message is one line
    ending in '\n', starting with a tag ("CHALLENGE ", "SOLUTION ", "QUOTE "
    or "ERROR: "), and both ends read it with bufio.Reader.ReadString('\n')
    (server/server.go, client/client.go). */
module Wire {
  import opened Base
  import opened Strings
  import opened Shared
  import Fmt

  /** "CHALLENGE " */
  const CHALLENGE_TAG: seq<byte> := [0x43, 0x48, 0x41, 0x4C, 0x4C, 0x45, 0x4E, 0x47, 0x45, 0x20]
  /** "SOLUTION " */
  const SOLUTION_TAG: seq<byte> := [0x53, 0x4F, 0x4C, 0x55, 0x54, 0x49, 0x4F, 0x4E, 0x20]
  /** "QUOTE " */
  const QUOTE_TAG: seq<byte> := [0x51, 0x55, 0x4F, 0x54, 0x45, 0x20]
  /** "ERROR: " */
  const ERROR_TAG: seq<byte> := [0x45, 0x52, 0x52, 0x4F, 0x52, 0x3A, 0x20]

  /** `fmt.Fprintf(conn, "CHALLENGE %s\n", challenge.Encode())` */
  function ChallengeLine(c: Challenge): (line: seq<byte>)
    ensures HasPrefix(line, CHALLENGE_TAG) && line[|line| - 1] == NEWLINE
    ensures line[|CHALLENGE_TAG|..|line| - 1] == c.Encode()
  {
    TaggedLine(CHALLENGE_TAG, c.Encode());
    CHALLENGE_TAG + c.Encode() + [NEWLINE]
  }

  /** `fmt.Fprintf(conn, "SOLUTION %s\n", solution.Encode())` */
  function SolutionLine(s: Solution): (line: seq<byte>)
    ensures HasPrefix(line, SOLUTION_TAG) && line[|line| - 1] == NEWLINE
    ensures line[|SOLUTION_TAG|..|line| - 1] == s.Encode()
  {
    TaggedLine(SOLUTION_TAG, s.Encode());
    SOLUTION_TAG + s.Encode() + [NEWLINE]
  }

  /** `fmt.Fprintf(conn, "QUOTE %s\n", quote)` */
  function QuoteLine(quote: seq<byte>): (line: seq<byte>)
    ensures HasPrefix(line, QUOTE_TAG) && line[|line| - 1] == NEWLINE
    ensures line[|QUOTE_TAG|..|line| - 1] == quote
  {
    TaggedLine(QUOTE_TAG, quote);
    QUOTE_TAG + quote + [NEWLINE]
  }

  /** The line of each of the server's three refusals: "ERROR: " and a
      fixed text (server/server.go:138 and :155), or "ERROR: " and the
      decoding error as `fmt.Sprintf("ERROR: %v\n", err)` prints it
      (server/server.go:146). */
  function ErrorLine(text: seq<byte>): (line: seq<byte>)
    ensures HasPrefix(line, ERROR_TAG) && line[|line| - 1] == NEWLINE
    ensures line[|ERROR_TAG|..|line| - 1] == text
  {
    TaggedLine(ERROR_TAG, text);
    ERROR_TAG + text + [NEWLINE]
  }

  /** A line is its tag, its text and a newline, and each part can be cut
      back out of it. */
  lemma TaggedLine(tag: seq<byte>, text: seq<byte>)
    ensures HasPrefix(tag + text + [NEWLINE], tag)
    ensures (tag + text + [NEWLINE])[|tag + text + [NEWLINE]| - 1] == NEWLINE
    ensures (tag + text + [NEWLINE])[|tag|..|tag + text + [NEWLINE]| - 1] == text
  {
    var line := tag + text + [NEWLINE];
    assert line[..|tag|] == tag;
    assert line[|tag|..|line| - 1] == text;
  }

  /** A line whose tag and text hold no newline is one line: its only
      newline is the last byte. */
  lemma TaggedLineIsOneLine(tag: seq<byte>, text: seq<byte>)
    requires NEWLINE !in tag && NEWLINE !in text
    ensures NEWLINE !in (tag + text + [NEWLINE])[..|tag + text + [NEWLINE]| - 1]
  {
    assert (tag + text + [NEWLINE])[..|tag + text + [NEWLINE]| - 1] == tag + text;
  }

  /** What ReadString('\n') returns: the bytes up to and including the first
      newline, or an error when the stream ends first (io.EOF, a closed
      connection or an expired deadline; the partial text is then unused). */
  datatype ReadResult = Line(text: seq<byte>) | ReadFailed

  /** ReadString('\n') on the bytes `stream` that arrive before the
      connection ends. */
  function ReadLine(stream: seq<byte>): (r: ReadResult)
    ensures r.Line? <==> NEWLINE in stream
    ensures r.Line? ==> r.text != [] && HasPrefix(stream, r.text)
    ensures r.Line? ==> r.text[|r.text| - 1] == NEWLINE && NEWLINE !in r.text[..|r.text| - 1]
  {
    var i := IndexByte(stream, NEWLINE);
    if i < 0 then ReadFailed
    else
      assert stream[..i + 1][..i] == stream[..i];
      Line(stream[..i + 1])
  }

  /** The bytes left in the reader's buffer after a read. */
  function Rest(stream: seq<byte>): (rest: seq<byte>)
    ensures ReadLine(stream).Line? ==> stream == ReadLine(stream).text + rest
    ensures ReadLine(stream).ReadFailed? ==> rest == []
  {
    var r := ReadLine(stream);
    if r.Line? then stream[|r.text|..] else []
  }

  /** A line without an inner newline is read whole, and what follows it
      stays for the next read. */
  lemma ReadLineOfLine(x: seq<byte>, rest: seq<byte>)
    requires NEWLINE !in x
    ensures ReadLine(x + [NEWLINE] + rest) == Line(x + [NEWLINE])
    ensures Rest(x + [NEWLINE] + rest) == rest
  {
    IndexOfJoin(x, rest, NEWLINE);
    CutAtSeparator(x, rest, NEWLINE);
    assert (x + [NEWLINE] + rest)[..|x| + 1] == x + [NEWLINE];
  }

  /** The lines the protocol writes have no newline before their last byte. */
  lemma ChallengeLineIsOneLine(c: Challenge)
    requires NEWLINE !in c.prefix
    ensures NEWLINE !in CHALLENGE_TAG + c.Encode()
  {
    assert c.Encode() == c.prefix + [COLON] + Fmt.FormatInt(c.difficulty);
  }
}
