/** The proof-of-work puzzle (shared/challenge.go, shared/solution.go; the same
    code is repeated in shared/pow.go): a challenge is a prefix and a
    difficulty, a solution is a challenge and a nonce whose digest starts with
    `difficulty` zero bits, and both travel as text with ':' between fields. */
module Shared {
  import opened Base
  import opened Strings
  import opened Fmt
  import opened Hash
  import Base64

  /** The errors DecodeChallenge and DecodeSolution return. */
  datatype DecodeError =
    | BadChallenge                 // not exactly one ':' in a challenge
    | BadDifficulty(cause: ScanError)
    | BadSolution                  // no ':' at all in a solution
    | BadNonce(cause: ScanError)
  {
    /** The error text, as `%v` prints it: one line that does not end in
        white space, ASCII or Unicode. */
    function Message(): (text: seq<byte>)
      ensures text != [] && NEWLINE !in text && !IsSpace(text[|text| - 1]) && !EndsInUnicodeSpace(text)
    {
      ErrorTextsOneLine();
      match this
      case BadChallenge => BAD_CHALLENGE_TEXT
      case BadDifficulty(e) =>
        var text := BAD_DIFFICULTY_TEXT + e.Message();
        assert text[|text| - 1] == e.Message()[|e.Message()| - 1];
        AsciiEndNoUnicodeSpace(text);
        text
      case BadSolution => BAD_SOLUTION_TEXT
      case BadNonce(e) =>
        var text := BAD_NONCE_TEXT + e.Message();
        assert text[|text| - 1] == e.Message()[|e.Message()| - 1];
        AsciiEndNoUnicodeSpace(text);
        text
    }
  }

  // The error texts of shared/challenge.go and shared/solution.go, in UTF-8.

  /** "неверный формат задачи" */
  const BAD_CHALLENGE_TEXT: seq<byte> := [0xD0, 0xBD, 0xD0, 0xB5, 0xD0, 0xB2, 0xD0, 0xB5, 0xD1, 0x80, 0xD0, 0xBD, 0xD1, 0x8B, 0xD0, 0xB9, 0x20, 0xD1, 0x84, 0xD0, 0xBE, 0xD1, 0x80, 0xD0, 0xBC, 0xD0, 0xB0, 0xD1, 0x82, 0x20, 0xD0, 0xB7, 0xD0, 0xB0, 0xD0, 0xB4, 0xD0, 0xB0, 0xD1, 0x87, 0xD0, 0xB8]
  /** "неверный формат сложности: " */
  const BAD_DIFFICULTY_TEXT: seq<byte> := [0xD0, 0xBD, 0xD0, 0xB5, 0xD0, 0xB2, 0xD0, 0xB5, 0xD1, 0x80, 0xD0, 0xBD, 0xD1, 0x8B, 0xD0, 0xB9, 0x20, 0xD1, 0x84, 0xD0, 0xBE, 0xD1, 0x80, 0xD0, 0xBC, 0xD0, 0xB0, 0xD1, 0x82, 0x20, 0xD1, 0x81, 0xD0, 0xBB, 0xD0, 0xBE, 0xD0, 0xB6, 0xD0, 0xBD, 0xD0, 0xBE, 0xD1, 0x81, 0xD1, 0x82, 0xD0, 0xB8, 0x3A, 0x20]
  /** "неверный формат решения" */
  const BAD_SOLUTION_TEXT: seq<byte> := [0xD0, 0xBD, 0xD0, 0xB5, 0xD0, 0xB2, 0xD0, 0xB5, 0xD1, 0x80, 0xD0, 0xBD, 0xD1, 0x8B, 0xD0, 0xB9, 0x20, 0xD1, 0x84, 0xD0, 0xBE, 0xD1, 0x80, 0xD0, 0xBC, 0xD0, 0xB0, 0xD1, 0x82, 0x20, 0xD1, 0x80, 0xD0, 0xB5, 0xD1, 0x88, 0xD0, 0xB5, 0xD0, 0xBD, 0xD0, 0xB8, 0xD1, 0x8F]
  /** "неверный формат nonce: " */
  const BAD_NONCE_TEXT: seq<byte> := [0xD0, 0xBD, 0xD0, 0xB5, 0xD0, 0xB2, 0xD0, 0xB5, 0xD1, 0x80, 0xD0, 0xBD, 0xD1, 0x8B, 0xD0, 0xB9, 0x20, 0xD1, 0x84, 0xD0, 0xBE, 0xD1, 0x80, 0xD0, 0xBC, 0xD0, 0xB0, 0xD1, 0x82, 0x20, 0x6E, 0x6F, 0x6E, 0x63, 0x65, 0x3A, 0x20]

  /** The fixed error texts hold no newline, and the two that stand alone do
      not end in white space. */
  lemma ErrorTextsOneLine()
    ensures NEWLINE !in BAD_CHALLENGE_TEXT && NEWLINE !in BAD_DIFFICULTY_TEXT
    ensures NEWLINE !in BAD_SOLUTION_TEXT && NEWLINE !in BAD_NONCE_TEXT
    ensures !IsSpace(BAD_CHALLENGE_TEXT[|BAD_CHALLENGE_TEXT| - 1])
    ensures !IsSpace(BAD_SOLUTION_TEXT[|BAD_SOLUTION_TEXT| - 1])
    ensures !EndsInUnicodeSpace(BAD_CHALLENGE_TEXT) && !EndsInUnicodeSpace(BAD_SOLUTION_TEXT)
  {
  }

  /** A challenge: the text to hash and the number of leading zero bits asked
      for. Go's `int` is 64 bits wide here. */
  datatype Challenge = Challenge(prefix: seq<byte>, difficulty: int64) {
    /** Encode, `fmt.Sprintf("%s:%d", ...)`: the prefix, a colon and the
        difficulty in decimal, so the text holds one colon more than the
        prefix. */
    function Encode(): (r: seq<byte>)
      ensures Count(r, COLON) == Count(prefix, COLON) + 1
    {
      var digits := FormatInt(difficulty);
      CountAppend(prefix + [COLON], digits, COLON);
      CountAppend(prefix, [COLON], COLON);
      prefix + [COLON] + digits
    }

    /** Verify: the digest of the prefix and `nonce` has at least `difficulty`
        leading zero bits, read here as its first `difficulty` bits being zero
        (VerifyCountsZeros proves the two readings agree). A difficulty above
        256 can never be met, one of 0 or less always is. */
    function Verify(nonce: uint64): (r: bool)
      ensures difficulty <= 0 ==> r
    {
      difficulty <= 256 && forall k: nat | k < difficulty :: !HashBit(ComputeHash(prefix, nonce), k)
    }

    /** `nonce` solves this challenge and no smaller nonce does. */
    predicate IsLeastNonce(nonce: uint64) {
      Verify(nonce) && forall m: uint64 :: m < nonce ==> !Verify(m)
    }

    /** Solve: tries the nonces 0, 1, 2, ... and returns the first that
        verifies. When no 64-bit nonce verifies, Go's `nonce++` wraps from the
        largest value back to 0 and the search never ends; None stands for
        that. */
    method Solve() returns (s: Option<Solution>)
      ensures s.Some? ==> s.value.challenge == this && IsLeastNonce(s.value.nonce)
      ensures s.None? <==> forall n: uint64 :: !Verify(n)
      ensures difficulty <= 0 ==> s == Some(Solution(this, 0))
    {
      var nonce: uint64 := 0;
      while !Verify(nonce)
        invariant forall m: uint64 :: m < nonce ==> !Verify(m)
        decreases UINT64_MAX - nonce
      {
        if nonce == UINT64_MAX {
          NoNonceVerifies(this);
          return None;
        }
        nonce := nonce + 1;
      }
      assert difficulty <= 0 ==> Verify(0);
      return Some(Solution(this, nonce));
    }
  }

  /** When every nonce below the largest fails and the largest fails too, no
      64-bit nonce verifies. */
  lemma NoNonceVerifies(c: Challenge)
    requires forall m: uint64 :: m < UINT64_MAX ==> !c.Verify(m)
    requires !c.Verify(UINT64_MAX)
    ensures forall n: uint64 :: !c.Verify(n)
  {
  }

  /** Verify is countLeadingZeros(computeHash(prefix, nonce)) >= difficulty,
      as shared/challenge.go:69-74 computes it. */
  lemma VerifyCountsZeros(c: Challenge, nonce: uint64)
    ensures c.Verify(nonce) <==> LeadingZeros(ComputeHash(c.prefix, nonce)) >= c.difficulty
  {
    AtLeastZeros(ComputeHash(c.prefix, nonce), c.difficulty);
  }

  /** There is only one least nonce, so what Solve returns is determined by the
      challenge. */
  lemma LeastNonceUnique(c: Challenge, n: uint64, m: uint64)
    requires c.IsLeastNonce(n) && c.IsLeastNonce(m)
    ensures n == m
  {
  }

  /** A solution: a challenge and the nonce found for it. */
  datatype Solution = Solution(challenge: Challenge, nonce: uint64) {
    /** Encode, `fmt.Sprintf("%s:%d", ...)`: the encoded challenge, a colon and
        the nonce in decimal; that colon is the last one, and the text ends in
        a digit. */
    function Encode(): (r: seq<byte>)
      ensures LastIndex(r, COLON) == |challenge.Encode()|
      ensures r != [] && IsDigit(r[|r| - 1])
    {
      var head := challenge.Encode();
      var digits := FormatNat(nonce);
      LastIndexOfJoin(head, digits, COLON);
      head + [COLON] + digits
    }

    /** Verify: the nonce meets the challenge it carries
        (SolutionVerifyCountsZeros states what that means). */
    function Verify(): bool {
      challenge.Verify(nonce)
    }
  }

  /** A solution verifies exactly when the digest of its challenge's prefix
      and its nonce has at least the challenge's difficulty in leading zero
      bits. */
  lemma SolutionVerifyCountsZeros(s: Solution)
    ensures s.Verify() <==> LeadingZeros(ComputeHash(s.challenge.prefix, s.nonce)) >= s.challenge.difficulty
  {
    VerifyCountsZeros(s.challenge, s.nonce);
  }

  /** `text` is a well-formed challenge text for `c`: the prefix, one colon,
      and colon-free text that scans to the difficulty. */
  predicate IsChallengeText(text: seq<byte>, c: Challenge) {
    var p := |c.prefix|;
    && p < |text| && text[..p] == c.prefix && text[p] == COLON
    && COLON !in c.prefix && COLON !in text[p + 1..]
    && ScanInt(text[p + 1..]) == Ok(c.difficulty)
  }

  /** DecodeChallenge: split at ':', demand exactly two parts, and scan the
      second as the difficulty. */
  function DecodeChallenge(encoded: seq<byte>): (r: Result<Challenge, DecodeError>)
    ensures r == Err(BadChallenge) <==> Count(encoded, COLON) != 1
    ensures r.Err? ==> r.error.BadChallenge? || r.error.BadDifficulty?
    ensures r.Ok? ==> IsChallengeText(encoded, r.value)
  {
    var parts := Split(encoded, COLON);
    if |parts| != 2 then Err(BadChallenge)
    else
      assert encoded == parts[0] + [COLON] + parts[1] by {
        assert Join(parts[1..], COLON) == parts[1];
      }
      CutAtSeparator(parts[0], parts[1], COLON);
      match ScanInt(parts[1])
      case Err(e) => Err(BadDifficulty(e))
      case Ok(d) => Ok(Challenge(parts[0], d))
  }

  /** A text with one colon decodes to the text before it as the prefix and
      to the number scanned from the text after it as the difficulty. */
  lemma DecodeChallengeOfParts(a: seq<byte>, b: seq<byte>)
    requires COLON !in a && COLON !in b
    ensures ScanInt(b).Ok? ==> DecodeChallenge(a + [COLON] + b) == Ok(Challenge(a, ScanInt(b).value))
    ensures ScanInt(b).Err? ==> DecodeChallenge(a + [COLON] + b) == Err(BadDifficulty(ScanInt(b).error))
  {
    SplitAtOnlySeparator(a, b, COLON);
  }

  /** DecodeChallenge accepts exactly the well-formed challenge texts. */
  lemma DecodeChallengeExact(text: seq<byte>, c: Challenge)
    ensures DecodeChallenge(text) == Ok(c) <==> IsChallengeText(text, c)
  {
    if IsChallengeText(text, c) {
      var p := |c.prefix|;
      JoinAround(text, p);
      DecodeChallengeOfParts(c.prefix, text[p + 1..]);
    }
  }

  /** Round trip: decoding an encoded challenge gives it back exactly when its
      prefix has no colon. */
  lemma ChallengeRoundTrip(c: Challenge)
    ensures DecodeChallenge(c.Encode()) == Ok(c) <==> COLON !in c.prefix
  {
    if COLON !in c.prefix {
      ScanIntOfFormat(c.difficulty);
      DecodeChallengeOfParts(c.prefix, FormatInt(c.difficulty));
    }
  }

  /** `text` is a well-formed solution text for `s`: a challenge text for its
      challenge, then the last colon, then text that scans to the nonce. */
  predicate IsSolutionText(text: seq<byte>, s: Solution) {
    var i := LastIndex(text, COLON);
    i >= 0 && IsChallengeText(text[..i], s.challenge) && ScanUint(text[i + 1..]) == Ok(s.nonce)
  }

  /** DecodeSolution: split at the last ':'; what comes before it and what
      comes after it are decoded by DecodeParts. */
  function DecodeSolution(encoded: seq<byte>): (r: Result<Solution, DecodeError>)
    ensures r == Err(BadSolution) <==> COLON !in encoded
  {
    var i := LastIndex(encoded, COLON);
    if i == -1 then Err(BadSolution) else DecodeParts(encoded[..i], encoded[i + 1..])
  }

  /** The two halves of a solution text: the challenge, whose error is passed
      on unchanged, and then the nonce. */
  function DecodeParts(head: seq<byte>, tail: seq<byte>): (r: Result<Solution, DecodeError>)
    ensures r.Ok? ==> DecodeChallenge(head) == Ok(r.value.challenge) && ScanUint(tail) == Ok(r.value.nonce)
    ensures r.Err? ==> !r.error.BadSolution?
  {
    match DecodeChallenge(head)
    case Err(e) => Err(e)
    case Ok(c) =>
      match ScanUint(tail)
      case Err(e) => Err(BadNonce(e))
      case Ok(n) => Ok(Solution(c, n))
  }

  /** DecodeSolution accepts exactly the well-formed solution texts. */
  lemma DecodeSolutionExact(text: seq<byte>, s: Solution)
    ensures DecodeSolution(text) == Ok(s) <==> IsSolutionText(text, s)
  {
    var i := LastIndex(text, COLON);
    if i >= 0 {
      DecodeChallengeExact(text[..i], s.challenge);
    }
  }

  /** When the text before the last colon is not a challenge, DecodeSolution
      returns the challenge's own error and reads no nonce. */
  lemma ChallengeErrorPassedOn(encoded: seq<byte>)
    requires COLON in encoded
    requires DecodeChallenge(encoded[..LastIndex(encoded, COLON)]).Err?
    ensures DecodeSolution(encoded) == Err(DecodeChallenge(encoded[..LastIndex(encoded, COLON)]).error)
    ensures !DecodeSolution(encoded).error.BadNonce?
  {
  }

  /** Round trip: decoding an encoded solution gives it back exactly when the
      challenge prefix has no colon. */
  lemma SolutionRoundTrip(s: Solution)
    ensures DecodeSolution(s.Encode()) == Ok(s) <==> COLON !in s.challenge.prefix
  {
    var head, digits := s.challenge.Encode(), FormatNat(s.nonce);
    CutAtSeparator(head, digits, COLON);
    ScanUintOfFormat(s.nonce);
    ChallengeRoundTrip(s.challenge);
    assert DecodeSolution(s.Encode()) == DecodeParts(head, digits);
  }

  /** A decoded solution text has exactly two colons: one in the challenge and
      the one before the nonce. */
  lemma DecodeSolutionColons(encoded: seq<byte>)
    requires DecodeSolution(encoded).Ok?
    ensures Count(encoded, COLON) == 2
  {
    var i := LastIndex(encoded, COLON);
    var head, tail := encoded[..i], encoded[i + 1..];
    JoinAround(encoded, i);
    assert DecodeChallenge(head).Ok?;
    CountAppend(head + [COLON], tail, COLON);
    CountAppend(head, [COLON], COLON);
  }

  /** A nonce text with no digit in it, the empty text included, is rejected
      once the challenge part has decoded. */
  lemma NonNumericNonceRejected(head: seq<byte>, tail: seq<byte>)
    requires DecodeChallenge(head).Ok?
    requires forall j | 0 <= j < |tail| :: tail[j] != COLON && !IsDigit(tail[j])
    ensures DecodeSolution(head + [COLON] + tail).Err?
    ensures DecodeSolution(head + [COLON] + tail).error.BadNonce?
  {
    LastIndexOfJoin(head, tail, COLON);
    CutAtSeparator(head, tail, COLON);
    ScanUintOfNonDigits(tail);
    NonceErrorPassedOn(head, tail);
  }

  /** A challenge that decodes followed by a nonce that does not gives the
      nonce's error. */
  lemma NonceErrorPassedOn(head: seq<byte>, tail: seq<byte>)
    requires DecodeChallenge(head).Ok? && ScanUint(tail).Err?
    ensures DecodeParts(head, tail) == Err(BadNonce(ScanUint(tail).error))
  {
  }

  /** The malformed input of shared/challenge_test.go and shared/solution_test.go. */
  lemma InvalidFormatRejected()
    ensures DecodeChallenge(Ascii("invalid-format")) == Err(BadChallenge)
    ensures DecodeSolution(Ascii("invalid-format")) == Err(BadSolution)
  {
    var s := Ascii("invalid-format");
    assert COLON !in s;
  }

  /** GenerateChallenge: the prefix is the standard base 64 text of the 16
      bytes drawn from the random generator, the difficulty the one asked for. */
  function GenerateChallenge(difficulty: int64, random: seq<byte>): (c: Challenge)
    requires |random| == 16
    ensures c.difficulty == difficulty
    ensures |c.prefix| == 24
    ensures forall i | 0 <= i < |c.prefix| :: Base64.InAlphabet(c.prefix[i]) || c.prefix[i] == Base64.PAD
    ensures COLON !in c.prefix && NEWLINE !in c.prefix
    ensures forall i | 0 <= i < |c.prefix| :: !IsSpace(c.prefix[i])
  {
    Challenge(Base64.Encode(random), difficulty)
  }
}
