# faraway: a proof-of-work gated quote server, in Dafny

A TCP "Word of Wisdom" server makes every client pay with work before it gets
a quote. The server sends `CHALLENGE <prefix>:<difficulty>`. The client looks
for the least 64-bit nonce such that SHA-256(prefix ‖ nonce as 8
little-endian bytes) starts with `difficulty` zero bits, and sends back
`SOLUTION <prefix>:<difficulty>:<nonce>`. The server checks the line and
answers with `QUOTE <text>` or with one `ERROR: <text>` line.

The model covers the shared puzzle code, the server's handling of one
connection and the client's GetQuote. The modules follow the repository:

- `Base`: bytes, 64-bit ranges, Option/Result.
- `Strings`: the parts of Go's `strings` package that the code uses, on
  bytes: TrimSpace, HasPrefix, TrimPrefix, Split and LastIndex. `Count` and
  `CountAppend` are helpers that specify Split: there is one part more than
  there are separators.
- `Fmt`: `%d` formatting and `fmt.Sscanf(s, "%d", &v)`.
- `Base64`: `base64.StdEncoding`.
- `Sha256`: the SHA-256 digest, written out after FIPS 180-4.
- `Hash`: `shared/hash.go`.
- `Shared`: `shared/challenge.go` and `shared/solution.go`.
  `shared/pow.go` (lines 14-157) holds the same code as these two files and
  `shared/hash.go`, so `Shared` and `Hash` model it as well.
- `Wire`: the line protocol and `bufio.Reader.ReadString('\n')`.
- `Server`: `handleConnection` of `server/server.go`, as a function from the
  bytes the client sends to the bytes the server writes.
- `Client`: `GetQuote` of `client/client.go`, as a method.
- `Session`: a client and a server on one connection.

Go strings are byte sequences (`seq<byte>`, with `byte = bv8`). Go's `int` and
`uint64` are integers kept in their 64-bit ranges. `Challenge.Solve` can loop
forever in Go: when no nonce verifies, `nonce++` wraps around and the search
starts again. The model returns `None` in that case, and the client's outcome
is `Hangs`. `Challenge.Verify` reads "at least `difficulty` leading zero bits"
as "the first `difficulty` bits of the digest are zero". `VerifyCountsZeros`
proves this equal to `countLeadingZeros(hash) >= difficulty`, the form
Go uses.

## Model

| member | source | states |
|---|---|---|
| Hash.HashInput | shared/hash.go:9-13 | the hashed data is the prefix and then 8 more bytes; byte j of those 8 is `nonce >> 8j` truncated to a byte (little-endian) |
| Hash.LittleEndianByte | shared/hash.go:10-11 | byte j of the little-endian encoding is the j-th base-256 digit of the number |
| Hash.ComputeHash | shared/hash.go:9-17 | the digest of the prefix and nonce has 32 bytes |
| Sha256.Digest | shared/hash.go:14 | sha256.Sum256 yields 32 bytes (the digest is computed as FIPS 180-4 defines it) |
| Sha256.Padding | shared/hash.go:14 | the message padding brings the length to a multiple of 64 bytes |
| Hash.CountLeadingZeros | shared/hash.go:20-46 | the two nested loops return exactly LeadingZeros(hash) |
| Hash.LeadingZeros | shared/hash.go:20-46 | the count read byte by byte is at most 8 bits per byte; LeadingZerosBits and LeadingZerosUnique pin it down as the one zero run of the digest |
| Hash.LeadingZerosBits | shared/hash.go:20-46 | the count c is a zero run: the first c bits are zero and bit c, if there is one, is set |
| Hash.LeadingZerosUnique | shared/hash.go:20-46 | only one count is a zero run, so the bitwise reading defines the count |
| Hash.AtLeastZeros | shared/hash.go:20-46 | at least d leading zeros holds exactly when d fits in the digest and its first d bits are zero |
| Hash.LeadingZerosAllZero | shared/hash.go:23-27 | an all-zero digest of L bytes counts 8·L |
| Hash.LeadingZerosAtFirstNonZero | shared/hash.go:23-42 | with bytes before k zero and byte k not, the count is 8·k plus fewer than 8 zeros of byte k |
| Hash.LeadingZerosIgnoresTail | shared/hash.go:41-42 | counting stops at the first non-zero byte; the bytes after it do not matter |
| Hash.ZerosFromBits | shared/hash.go:30-39 | the inner loop's zeros are the clear bits above the first set bit of the byte |
| Hash.LeadingZerosVectors | shared/hash_test.go:46-48 | {0,0,128,0} gives 16, {0,0,0,0} gives 32, {128,0,0,0} gives 0 |
| Hash.LeadingZerosLowBitVectors | shared/hash_test.go:49-50 | {1,0,0,0} gives 7, {0,1,0,0} gives 15 |
| Base64.Encode | shared/challenge.go:25 | the prefix text has 4·⌈n/3⌉ characters, all from the standard alphabet or '=' |
| Shared.GenerateChallenge | shared/challenge.go:19-27 | the difficulty is the one asked for; the prefix has 24 characters, none of them ':', a newline or white space |
| Fmt.FormatInt | shared/challenge.go:31 | `%d` of the difficulty is non-empty, ends in a digit, and has no colon, newline or leading space |
| Fmt.FormatNat | shared/solution.go:16 | `%d` of the nonce is non-empty digits with no leading zero |
| Fmt.ValueOfFormatNat | shared/solution.go:16 | the digits of `%d` have the value of the number |
| Fmt.SkipSpace | shared/challenge.go:42 | the scanner skips white space only: everything cut is white space, and what is left is a suffix of the text that does not start with it |
| Fmt.ScanStart | shared/challenge.go:42 | "EOF" exactly when the text is all white space, "unexpected newline" exactly when a newline follows the white space, and otherwise the scan goes on with the text after the white space |
| Fmt.ScanInt | shared/challenge.go:42 | Sscanf `%d` into an int fails with "EOF" on empty input |
| Fmt.ScanSigned | shared/challenge.go:42 | a negative result needs a leading '-'; a sign with nothing after it is "EOF" |
| Fmt.ScanIntOfLoneSign | shared/challenge.go:42-45 | "-" or "+" alone is rejected with the scanner's "EOF" |
| Fmt.ScanUint | shared/solution.go:34-38 | Sscanf `%d` into a uint64 fails with "EOF" on empty input |
| Fmt.ScanError.Message | shared/challenge.go:44 | every scanner error text is non-empty, has no newline and does not end in white space |
| Fmt.ScanIntOfFormat | shared/challenge.go:42-46 | Sscanf `%d` into an int reads back every 64-bit `%d` text, negative ones included |
| Fmt.ScanUintOfFormat | shared/solution.go:34-38 | Sscanf `%d` into a uint64 reads back every `%d` text of a uint64 |
| Fmt.ScanUintOfNonDigits | shared/solution.go:34-38 | text with no digit in it, the empty text included, does not scan as a uint64 |
| Fmt.ScanNumber | shared/solution.go:35 | the scan fails, with "expected integer", exactly when no digit comes first |
| Fmt.ScanIntOfDigits | shared/challenge.go:42 | a run of digits within range scans to its value |
| Fmt.ScanIntOfNegative | shared/challenge.go:42 | a minus sign and digits scan to the negated value, down to the least int64 |
| Strings.Split | shared/challenge.go:36 | strings.Split gives one part more than there are separators; no part holds one; joining the parts gives the text back |
| Strings.SplitAtOnlySeparator | shared/challenge.go:36-39 | a text with one separator splits into the text before it and the text after it |
| Strings.CountAppend | shared/challenge.go:36 | counting a separator is additive over concatenation |
| Strings.LastIndex | shared/solution.go:21-24 | strings.LastIndex is -1 exactly when there is no separator; otherwise it points at the last one |
| Strings.LastIndexOfJoin | shared/solution.go:21 | the last colon of `head:tail`, when `tail` has no colon, is the one after `head` |
| Strings.IndexByte | server/server.go:128 | the first index of a byte, or -1 exactly when the byte is absent |
| Strings.TrimLeft | server/server.go:135 | only white space is cut from the left, and what is left does not start with it |
| Strings.TrimRight | server/server.go:135 | only white space is cut from the right, and what is left does not end with it |
| Strings.TrimSpace | server/server.go:135 | the result is an infix with only white space around it, and it neither starts nor ends with white space |
| Strings.TrimSpaceOfLine | client/client.go:73 | a line that starts with an ASCII byte other than white space, and ends neither in ASCII white space nor in the UTF-8 encoding of a Unicode space, is trimmed back to itself, without its newline |
| Strings.AsciiEndNoUnicodeSpace | client/client.go:127 | a text whose last byte is ASCII does not end in a Unicode space |
| Strings.EndsInUnicodeSpaceAfter | client/client.go:127 | an ASCII tag in front of a text does not change whether it ends in a Unicode space |
| Strings.HasPrefix | server/server.go:136 | strings.HasPrefix: the text starts with the prefix (HasPrefixSplits states it as a split) |
| Strings.HasPrefixSplits | server/server.go:136 | strings.HasPrefix holds exactly when the text is the prefix followed by the rest of the text |
| Strings.TrimPrefix | server/server.go:142 | strings.TrimPrefix removes the prefix when it is there and changes nothing otherwise |
| Strings.TrimPrefixOfPrefixed | server/server.go:142 | trimming a prefix that is present leaves what follows it |
| Shared.Challenge.Encode | shared/challenge.go:30-32 | the text is prefix ':' difficulty, with one colon more than the prefix |
| Shared.DecodeError.Message | shared/challenge.go:38-44 | every decoding error text, the scanner's cause included, is non-empty, has no newline and does not end in white space |
| Shared.DecodeChallenge | shared/challenge.go:35-51 | the error is "wrong challenge format" exactly when the colon count is not 1; otherwise it is a difficulty error or a well-formed text |
| Shared.DecodeChallengeOfParts | shared/challenge.go:36-50 | `a:b` with colon-free parts gives prefix `a` and the scanned difficulty, or the scanner's error wrapped as a difficulty error |
| Shared.DecodeChallengeExact | shared/challenge.go:35-51 | DecodeChallenge accepts exactly the well-formed challenge texts, in both directions |
| Shared.ChallengeRoundTrip | shared/challenge_test.go:36-59 | decoding an encoded challenge gives it back, exactly when the prefix has no colon |
| Shared.Challenge.Verify | shared/challenge.go:69-74 | a difficulty of 0 or less always verifies; otherwise the first `difficulty` digest bits must be zero |
| Shared.VerifyCountsZeros | shared/challenge.go:69-74 | Verify holds exactly when countLeadingZeros(computeHash(prefix, nonce)) >= difficulty |
| Shared.Challenge.Solve | shared/challenge.go:54-66 | the nonce returned is the least one that verifies, in the challenge given; the search fails only when no uint64 nonce verifies; a difficulty of 0 or less gives nonce 0 |
| Shared.NoNonceVerifies | shared/challenge.go:60 | when the largest nonce fails too, no nonce verifies (the point where `nonce++` wraps) |
| Shared.LeastNonceUnique | shared/challenge.go:54-66 | the least verifying nonce is unique, so Solve's answer depends on the challenge alone |
| Shared.Solution.Encode | shared/solution.go:15-17 | the text is the challenge text, ':' and the nonce; that colon is the last one, and the text ends in a digit |
| Shared.SolutionVerifyCountsZeros | shared/solution.go:47-49 | a solution verifies exactly when computeHash of its challenge's prefix and its nonce has at least the challenge's difficulty in leading zero bits |
| Shared.DecodeSolution | shared/solution.go:20-44 | the error is "wrong solution format" exactly when the text has no colon |
| Shared.DecodeParts | shared/solution.go:26-43 | a result holds the challenge decoded from before the last colon and the nonce scanned after it; an error is never the no-colon error |
| Shared.DecodeSolutionExact | shared/solution.go:20-44 | DecodeSolution accepts exactly the well-formed solution texts, split at the last colon |
| Shared.ChallengeErrorPassedOn | shared/solution.go:29-32 | when the challenge part does not decode, its own error is returned unchanged and no nonce is read |
| Shared.NonceErrorPassedOn | shared/solution.go:34-38 | a challenge that decodes, followed by a nonce that does not scan, gives the nonce's error |
| Shared.NonNumericNonceRejected | shared/solution.go:34-38 | a nonce text without digits (or an empty one) is rejected with a nonce error |
| Shared.SolutionRoundTrip | shared/solution_test.go:7-38 | decoding an encoded solution gives it back, exactly when the prefix has no colon |
| Shared.DecodeSolutionColons | shared/solution.go:20-44 | every text that decodes has exactly two colons |
| Shared.InvalidFormatRejected | shared/solution_test.go:41-44 | "invalid-format" is rejected by both decoders, as the no-colon errors |
| Wire.TaggedLine | server/server.go:111 | a tag, a text and a newline: the line starts with the tag, ends in the newline, and the text can be cut back out between them |
| Wire.ChallengeLine | server/server.go:111 | "CHALLENGE " + the challenge's encoding + a newline: the tag first, the newline last, the encoding in between |
| Wire.SolutionLine | client/client.go:110 | "SOLUTION " + the solution's encoding + a newline: the tag first, the newline last, the encoding in between |
| Wire.QuoteLine | server/server.go:163 | "QUOTE " + the quote + a newline: the tag first, the newline last, the quote in between |
| Wire.ErrorLine | server/server.go:138-155 | "ERROR: " + the text + a newline: the tag first, the newline last, the text in between |
| Wire.Rest | client/client.go:117 | after a successful read the stream is the line read followed by what is left for the next read; after a failed one nothing is left |
| Wire.ReadLine | server/server.go:128 | ReadString('\n') succeeds exactly when a newline arrives; the line is a prefix of the stream, ends at the first newline and holds no other |
| Wire.ReadLineOfLine | client/client.go:63 | a line without an inner newline is read whole, and what follows it stays for the next read |
| Wire.ChallengeLineIsOneLine | server/server.go:111 | the challenge line has no newline before its last byte |
| Server.HandleConnection | server/server.go:100-116 | whatever happens later, the output starts with the challenge line of GenerateChallenge |
| Server.Serve | server/server.go:111-170 | once the challenge is drawn, the output starts with its line |
| Server.SolutionText | server/server.go:142 | for a tagged line, the tag followed by the solution text is the trimmed line |
| Server.Decide | server/server.go:135-148 | a granted line is a trimmed "SOLUTION " line whose text decodes; FormatErrorExactly, DecideOfTagged and GrantedOnlyWhenSolved state the rest |
| Server.Judge | server/server.go:153-157 | a decoded solution is granted exactly when its challenge is the one issued, prefix and difficulty, and it verifies |
| Server.INVALID_SOLUTION_TEXT | server/server.go:155 | the UTF-8 bytes of the server's "wrong solution" text, sent after "ERROR: " |
| Server.RefusalText | server/server.go:138-155 | the text of each refusal (format, decoding error by %v, wrong solution) is non-empty, has no newline and does not end in white space |
| Server.ReplyLine | server/server.go:138-163 | each reply is a line ending in a newline, with no newline before it for a refusal, or for the quote when the quote holds none: at most one response line |
| Server.Respond | server/server.go:127-163 | the server answers nothing exactly when no newline arrives (the read fails); otherwise it writes the reply line |
| Server.FormatErrorExactly | server/server.go:135-140 | the format error is given exactly when the trimmed line lacks the "SOLUTION " tag |
| Server.DecideOfTagged | server/server.go:142-143 | a tagged line is judged on the text after its tag |
| Server.JudgeReplies | server/server.go:142-148 | a text that does not decode gets a decoding reply carrying DecodeSolution's own error, and only such a text does |
| Server.GrantedWhenSolved | server/server.go:153-163 | a well-formed solution text for the issued challenge, whose nonce verifies, is granted |
| Server.GrantedOnlyWhenSolved | server/server.go:153-157 | a granted text is a well-formed solution text for exactly the issued challenge, and its nonce verifies |
| Server.OtherChallengeRejected | server/server.go:153-156 | a solution to any other challenge is refused, even when its nonce verifies for that challenge (a lower difficulty, for one) |
| Server.ReplyLines | server/server.go:138-163 | each refusal line starts with "ERROR: " and ends in a newline, and only a grant writes the quote line |
| Server.QuoteOnlyWhenGranted | server/server.go:100-170 | the output is challenge line + quote line exactly when the challenge went out, a line was read and it was granted; a failed challenge write or a failed read leaves the challenge line alone; a refused line adds one "ERROR: " line, the reply line of the refusal |
| Server.SolutionLineTrimmed | server/server.go:135 | an honest solution line is one line, and trimming it leaves the tag and the solution text |
| Server.HonestLineGranted | server/server.go:135-157 | the line of a verifying solution to the issued challenge is granted |
| Server.RespondGranted | server/server.go:127-163 | a connection whose first line is granted is answered with the quote line |
| Server.HonestRespond | server/server.go:127-163 | an honest solution line, whatever follows it, is answered with the quote line |
| Server.HonestServe | server/server.go:107-163 | once the challenge is drawn, an honest client makes the output challenge line + quote line |
| Server.HonestClientGetsQuote | server/server.go:100-170 | for every difficulty and every random draw, an honest client receives challenge line + quote line |
| Client.ParseChallengeLine | client/client.go:73-82 | the bad-line error is given exactly when the trimmed line lacks the "CHALLENGE " tag; a tagged line whose text does not decode gives DecodeChallenge's own error; a challenge is returned only for a tagged line whose text is a well-formed challenge text for it |
| Client.ParseResult | client/client.go:127-137 | a quote is returned only for a trimmed line that is "QUOTE " + the quote and does not carry the ERROR tag; a server error carries the text after "ERROR: "; any other line is a bad response with the trimmed line |
| Client.ParseChallengeOfTagged | client/client.go:73-82 | a challenge line trimmed to the tag and a text decodes just as the text does |
| Client.ChallengeLineParses | client/client.go:73-82 | the server's challenge line is read as that challenge, exactly when its prefix has no colon |
| Client.ParseResultQuote | client/client.go:127-137 | the answer is a quote exactly when the trimmed line is the QUOTE tag and the quote; the ERROR tag is checked first |
| Client.ParseResultError | client/client.go:127-130 | a trimmed line with the ERROR tag is a server error carrying the rest of the line |
| Client.QuoteLineParses | client/client.go:132-137 | a quote line gives the quote whenever the quote is not empty and ends neither in ASCII white space nor in a Unicode space |
| Client.ErrorLineParses | client/client.go:127-130 | an error line gives a server error with its text when the text is not empty and ends neither in ASCII white space nor in a Unicode space |
| Client.EmptyQuoteRejected | client/client.go:127-134 | "QUOTE \n" trims to "QUOTE" and is refused as a bad response: an empty quote is lost |
| Client.ResultOutcome | client/client.go:117-137 | reading the answer never makes the client hang |
| Client.Exchange | client/client.go:90-137 | after the challenge is decoded: a cancellation before Solve ends it; the client hangs exactly when no nonce verifies; a cancellation right after Solve sends nothing; otherwise it sends "SOLUTION " + the encoding of the least verifying nonce, then reports a failed write, a failed read, a cancellation found after the read (client.go:122) or what the answer line says, in that order |
| Client.GetQuote | client/client.go:45-137 | a failed dial or read sends nothing; a cancellation at the first check sends nothing; a bad or undecodable challenge line gives its error and sends nothing; otherwise Exchange's promise holds for the decoded challenge |
| Session.ServerOutputReads | client/client.go:63 | the client's first read over the server's output is the challenge line, and the rest is the server's reply |
| Session.QuoteLineReaches | client/client.go:117-137 | a quote line with a one-line quote that ends neither in white space nor in a Unicode space is read whole and gives the quote |
| Session.HonestAnswer | server/server.go:127-163 | the server answers the line of a verifying nonce with the quote line, and the client reads the quote from it, for a one-line quote that ends neither in white space nor in a Unicode space |
| Session.HonestExchange | client/client.go:90-137 | once the challenge is drawn: the server's output is what it writes for the line the client sent; the client hangs exactly when no nonce verifies, and otherwise ends with the quote, for a one-line quote that ends neither in white space nor in a Unicode space |
| Session.HonestSession | client/client.go:45-137 | client and server on one connection: the server's output is what it writes for the line the client sent; the client hangs exactly when no nonce verifies for the challenge, and otherwise ends with the quote, for a one-line quote that ends neither in white space nor in a Unicode space |
| Session.RefusalLineReads | client/client.go:117-130 | a refusal line is read whole and gives a server error carrying the refusal's text |
| Session.RefusalReported | client/client.go:117-130 | for every refused line, the client's second read over what the server writes is the one ERROR line, and the client reports a server error carrying the server's text |

## Left out

- The accept loop, the WaitGroup and `Stop` (server/server.go:51-97, 172-193): concurrency, outside one connection.
- Sockets and deadlines: every write and read is a parameter saying whether it succeeded, and a read returns the bytes up to the newline. A write that fails halfway is not modelled.
- `EstimateTime` and the read timeout derived from it: floating point and clocks.
- The random generator of GenerateChallenge: its 16 bytes are a parameter.
- `quotes.GetRandomQuote`: the quote is a parameter.
- Logging, and the client's progress printing and timing.
- The `cmd` mains and the configuration defaults.
- The client's error wrapping texts (`fmt.Errorf("...: %v", err)`): each error is a constructor, because the network errors behind them are not part of the model.
- Server.HandleConnection: what the write of an ERROR or QUOTE line returns is ignored, as in Go, so the model always writes the line.
- Strings.TrimSpace: only ASCII white space. Go also trims the Unicode spaces (U+0085, U+00A0, U+1680, U+2000 to U+200A, U+2028, U+2029, U+202F, U+205F, U+3000). The reading lemmas (Strings.TrimSpaceOfLine, Client.QuoteLineParses, Client.ErrorLineParses, Session.QuoteLineReaches and the Session.Honest members) therefore require that the line starts with an ASCII byte and that the quote or error text does not end in the UTF-8 encoding of one of these spaces (Strings.EndsInUnicodeSpace). For such lines Go's TrimSpace gives the same result as the model. A quote ending in U+00A0, for instance, would lose those bytes in Go and is outside these lemmas.
- Fmt.ScanInt: follows Sscanf `%d` for ASCII input only.
- Fmt.SkipSpace: skips ASCII white space only. Go's fmt scanner also skips the Unicode spaces listed under Strings.TrimSpace, so in Go "\u00a07" scans to 7 where the model reports "expected integer".
- Fmt.ScanStart: a text made only of Unicode spaces (such as "\u00a0") gives "EOF" in Go but "expected integer" here, because the model treats those bytes as the start of the token.
- Fmt.ScanUint: the same ASCII-only white space as Fmt.SkipSpace.
- Shared.DecodeChallengeExact: "exactly" here is relative to the ASCII-only scanner. A difficulty preceded by a Unicode space is accepted by Go but rejected by the model.
- Shared.DecodeSolutionExact: "exactly" is relative to the ASCII-only scanner, as for Shared.DecodeChallengeExact.
- Shared.ChallengeRoundTrip: the "exactly when" is relative to the ASCII-only scanner. Encoded challenges contain no Unicode space before the number, so the round trip itself is unaffected.
- Shared.SolutionRoundTrip: the "exactly when" is relative to the ASCII-only scanner, as for Shared.ChallengeRoundTrip.
- Fmt.ScanError.Message: "EOF", "expected integer" and "unexpected newline" are Go's texts. For a number out of range Go reports strconv's error, `strconv.ParseInt: parsing "<token>": value out of range` (`ParseUint` for the nonce); the model writes only "value out of range".
- Client.GetQuote: the ctx checks are modelled by the index of the first check that finds the context done. Cancellation during Solve is not possible in Go either.
- Client.GetQuote: the two reads are given as their results. Session computes them from the server's output.
- Shared.Challenge.Solve: `None` stands for Go's endless loop, not for a returned value.
- Hash.ComputeHash: the contract states only the length of the digest. That the digest is Sha256.Digest of HashInput is its definition.
- Sha256.Digest: only its length is stated as a contract. Its values are not checked against published test vectors, because evaluating the compression function is beyond the verifier's budget.
