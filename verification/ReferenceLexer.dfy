// A plain recursive lexer for section 4.1 of the PostgreSQL manual, and exactly
// when the byte state machine of the scanner sees the same constructs.

module ReferenceLexer {
  import opened Bytes
  import opened Wrappers
  import opened Scanner
  import opened Lexicon
  import opened Numerals

  datatype Kind =
    | Word
    | Number
    | Parameter
    | Mark
    | Terminator
    | StandardConstant
    | EscapeConstant
    | QuotedName
    | DollarConstant(tag: bytes)
    | Remark
    | BlockRemark

  /** A token; one that the text breaks off is not closed and reaches to the end. */
  datatype Token = Token(start: nat, end: nat, kind: Kind, closed: bool)

  function WordEnd(s: bytes, i: nat): (r: nat)
    requires i <= |s|
    ensures i <= r <= |s| && !IsIdentifierContinue(Get(s, r))
    ensures i < |s| && IsIdentifierContinue(s[i]) ==> i < r
    ensures forall k :: i <= k < r ==> IsIdentifierContinue(s[k])
    decreases |s| - i
  {
    if i < |s| && IsIdentifierContinue(s[i]) then WordEnd(s, i + 1) else i
  }

  /**
   * Section 4.1.2.1: whitespace with a newline in it continues a string constant at
   * the next quote; a comment counts as whitespace (section 4.1.5).
   */
  function ContinuationQuote(s: bytes, i: nat, newlineSeen: bool): (r: Option<nat>)
    ensures r.Some? ==> i <= r.value < |s| && s[r.value] == QUOTE && (newlineSeen || i < r.value)
    decreases |s| - i
  {
    if i >= |s| then None
    else if IsWhitespace(s[i]) then ContinuationQuote(s, i + 1, newlineSeen || IsNewline(s[i]))
    else if IsPair(s, i, DASH, DASH) then
      match LineEnd(s, i + 2)
      case None => None
      case Some(end) => ContinuationQuote(s, end, true)
    else if IsPair(s, i, SLASH, STAR) then
      match CommentEnd(s, i + 2)
      case None => None
      case Some(end) => ContinuationQuote(s, end, newlineSeen)
    else if s[i] == QUOTE && newlineSeen then Some(i)
    else None
  }

  function Constant(s: bytes, start: nat, end: Option<nat>, kind: Kind): Token {
    match end
    case None => Token(start, |s|, kind, false)
    case Some(e) => Token(start, e, kind, true)
  }

  predicate IsEscapeLetter(b: int) {
    b == 101 || b == 69
  }

  function TokenAt(s: bytes, i: nat): (t: Token)
    requires i < |s|
    ensures t.start == i < t.end <= |s|
  {
    if s[i] == QUOTE then Constant(s, i, QuotedEnd(s, i + 1, QUOTE), StandardConstant)
    else if s[i] == DOUBLE_QUOTE then Constant(s, i, QuotedEnd(s, i + 1, DOUBLE_QUOTE), QuotedName)
    else if IsPair(s, i, DASH, DASH) then Constant(s, i, LineEnd(s, i + 2), Remark)
    else if IsPair(s, i, SLASH, STAR) then Constant(s, i, CommentEnd(s, i + 2), BlockRemark)
    else if IsEscapeLetter(s[i]) && Get(s, i + 1) == QUOTE then
      Constant(s, i, EscapedEnd(s, i + 2), EscapeConstant)
    else if s[i] == DOLLAR && DelimiterEnd(s, i).Some? then
      var tag := s[i..DelimiterEnd(s, i).value];
      Constant(s, i, DollarEnd(s, i + |tag|, tag), DollarConstant(tag))
    else if IsIdentifierStart(s[i]) then Token(i, WordEnd(s, i), Word, true)
    else if StartsNumber(s, i) then Token(i, NumberEnd(s, i), Number, true)
    else if s[i] == DOLLAR && IsDigit(Get(s, i + 1)) then Token(i, PositionEnd(s, i + 1), Parameter, true)
    else Token(i, i + 1, if s[i] == SEMICOLON then Terminator else Mark, true)
  }

  /** The token behind `previous`, which ends at `i`. */
  function NextToken(s: bytes, i: nat, previous: Option<Token>): (t: Token)
    requires i < |s|
    ensures i <= t.start < t.end <= |s|
  {
    if Continues(s, i, previous) then
      var q := ContinuationQuote(s, i, false).value;
      Constant(s, q, EscapedEnd(s, q + 1), EscapeConstant)
    else TokenAt(s, i)
  }

  predicate Continues(s: bytes, i: nat, previous: Option<Token>) {
    previous.Some? && previous.value.kind == EscapeConstant && ContinuationQuote(s, i, false).Some?
  }

  function Lex(s: bytes, i: nat, previous: Option<Token>): (r: seq<Token>)
    requires i <= |s|
    decreases |s| - i
  {
    if i == |s| then []
    else
      var t := NextToken(s, i, previous);
      [t] + Lex(s, t.end, Some(t))
  }

  function Tokens(s: bytes): seq<Token> {
    Lex(s, 0, None)
  }

  // ---- What the tokens say in the scanner's terms. ----

  function TokenEnds(tokens: seq<Token>): seq<nat> {
    if tokens == [] then []
    else (if tokens[0].kind.Terminator? then [tokens[0].end] else []) + TokenEnds(tokens[1..])
  }

  function OpeningsOf(s: bytes, t: Token): seq<Opening> {
    match t.kind
    case StandardConstant => [Opening(t.start, SingleQuotedString)]
    case EscapeConstant => [Opening(if Get(s, t.start) == QUOTE then t.start else t.start + 1, EscapeString)]
    case QuotedName => [Opening(t.start, DoubleQuotedIdentifier)]
    case DollarConstant(tag) => [Opening(t.start, DollarQuotedString(tag))]
    case Remark => [Opening(t.start, LineComment)]
    case BlockRemark => [Opening(t.start, BlockComment(1))]
    case _ => []
  }

  function TokenOpenings(s: bytes, tokens: seq<Token>): seq<Opening> {
    if tokens == [] then [] else OpeningsOf(s, tokens[0]) + TokenOpenings(s, tokens[1..])
  }

  /** The construct that the last token leaves open; an open line comment is complete. */
  function LeftOpen(tokens: seq<Token>): Completeness {
    if tokens == [] || tokens[|tokens| - 1].closed then Complete
    else
      match tokens[|tokens| - 1].kind
      case StandardConstant => OpenSingleQuotedString
      case EscapeConstant => OpenEscapeString
      case QuotedName => OpenDoubleQuotedIdentifier
      case DollarConstant(_) => OpenDollarQuotedString
      case BlockRemark => OpenBlockComment
      case _ => Complete
  }

  /**
   * The tokens that are no words but end in a byte of a word: a number that does
   * not end in a point, a parameter, a lone dollar sign, a closed dollar quote.
   */
  predicate EndsLikeWord(s: bytes, t: Token) {
    match t.kind
    case Number => Get(s, t.end - 1) != DOT
    case Parameter => true
    case Mark => Get(s, t.start) == DOLLAR
    case DollarConstant(_) => true
    case _ => false
  }

  /**
   * The token pairs the scanner misreads: its look-behind takes a token that ends
   * like a word for one, and it does not carry escape processing over a newline
   * into the next segment of the same constant.
   */
  predicate Clash(s: bytes, a: Token, b: Token) {
    || (EndsLikeWord(s, a) && (b.kind.EscapeConstant? || b.kind.DollarConstant?))
    || (a.kind.EscapeConstant? && b.kind.EscapeConstant? && Get(s, b.start) == QUOTE)
  }

  predicate FirstFits(s: bytes, previous: Option<Token>, tokens: seq<Token>) {
    previous.Some? && tokens != [] ==> !Clash(s, previous.value, tokens[0])
  }

  predicate NoClash(s: bytes, previous: Option<Token>, tokens: seq<Token>)
    decreases |tokens|
  {
    tokens == [] || (FirstFits(s, previous, tokens) && NoClash(s, Some(tokens[0]), tokens[1..]))
  }

  // ---- Lockstep. ----

  /** What stands before a token boundary, as the scanner's look-behind sees it. */
  predicate Boundary(s: bytes, i: nat, previous: Option<Token>) {
    match previous
    case None => i == 0
    case Some(p) =>
      && p.closed && 0 < i <= |s|
      && (Get(s, i) == QUOTE ==> !IsEscapeStringPrefix(s, i))
      && (IsIdentifierContinue(s[i - 1]) <==> p.kind.Word? || EndsLikeWord(s, p))
      && (p.kind.Word? ==> !IsIdentifierContinue(Get(s, i)))
  }

  lemma {:induction false} RunWord(s: bytes, i: nat)
    requires 0 < i <= |s| && IsIdentifierContinue(s[i - 1])
    ensures ScanFrom(s, i, Normal) == ScanFrom(s, WordEnd(s, i), Normal)
    decreases |s| - i
  {
    hide ScanFrom;
    if i < |s| && IsIdentifierContinue(s[i]) {
      SilentTurn(s, i, Normal, i + 1, Normal);
      RunWord(s, i + 1);
    }
  }

  lemma {:induction false} DollarEndByte(s: bytes, i: nat, tag: bytes)
    requires 2 <= |tag| && tag[|tag| - 1] == DOLLAR
    ensures DollarEnd(s, i, tag).Some? ==> s[DollarEnd(s, i, tag).value - 1] == DOLLAR
    decreases |s| - i
  {
    if i < |s| {
      if StartsWith(s, i, tag) {
        assert s[i..i + |tag|][|tag| - 1] == tag[|tag| - 1];
      } else {
        DollarEndByte(s, i + 1, tag);
      }
    }
  }

  lemma BoundaryAfterDollar(s: bytes, i: nat)
    requires i < |s| && TokenAt(s, i).closed && TokenAt(s, i).kind.DollarConstant?
    ensures Boundary(s, TokenAt(s, i).end, Some(TokenAt(s, i)))
  {
    hide QuotedEnd;
    hide EscapedEnd;
    hide DollarEnd;
    hide LineEnd;
    hide CommentEnd;
    hide WordEnd;
    hide NumberEnd;
    hide PositionEnd;
    hide TagEnd;
    var tag := TokenAt(s, i).kind.tag;
    assert DelimiterEnd(s, i).Some? && tag == s[i..DelimiterEnd(s, i).value];
    DollarEndByte(s, i + |tag|, tag);
  }

  lemma BoundaryAfterWord(s: bytes, i: nat)
    requires i < |s| && TokenAt(s, i).kind.Word?
    ensures Boundary(s, TokenAt(s, i).end, Some(TokenAt(s, i)))
  {
    hide QuotedEnd;
    hide EscapedEnd;
    hide DollarEnd;
    hide LineEnd;
    hide CommentEnd;
    hide NumberEnd;
    hide PositionEnd;
    hide DelimiterEnd;
    var end := WordEnd(s, i);
    assert end > i + 1 ==> IsIdentifierContinue(s[end - 2]);
  }

  lemma BoundaryAfterNumber(s: bytes, i: nat)
    requires i < |s| && TokenAt(s, i).kind.Number?
    ensures Boundary(s, TokenAt(s, i).end, Some(TokenAt(s, i)))
  {
    hide QuotedEnd;
    hide EscapedEnd;
    hide DollarEnd;
    hide LineEnd;
    hide CommentEnd;
    hide WordEnd;
    hide NumberEnd;
    hide PositionEnd;
    hide DelimiterEnd;
    NumberTail(s, i);
  }

  lemma BoundaryAfterOther(s: bytes, i: nat)
    requires i < |s| && TokenAt(s, i).closed
    requires var kind := TokenAt(s, i).kind; !kind.DollarConstant? && !kind.Word? && !kind.Number?
    ensures Boundary(s, TokenAt(s, i).end, Some(TokenAt(s, i)))
  {
    hide QuotedEnd;
    hide EscapedEnd;
    hide DollarEnd;
    hide LineEnd;
    hide CommentEnd;
    hide WordEnd;
    hide NumberEnd;
    hide DelimiterEnd;
  }

  lemma BoundaryAfter(s: bytes, i: nat)
    requires i < |s| && TokenAt(s, i).closed
    ensures Boundary(s, TokenAt(s, i).end, Some(TokenAt(s, i)))
  {
    hide QuotedEnd;
    hide EscapedEnd;
    hide DollarEnd;
    hide LineEnd;
    hide CommentEnd;
    hide WordEnd;
    hide NumberEnd;
    hide PositionEnd;
    hide DelimiterEnd;
    match TokenAt(s, i).kind
    case DollarConstant(_) => BoundaryAfterDollar(s, i);
    case Word => BoundaryAfterWord(s, i);
    case Number => BoundaryAfterNumber(s, i);
    case _ => BoundaryAfterOther(s, i);
  }

  /** Reading a construct: one opening, then on behind its end or open to the end of the text. */
  function Reading(s: bytes, opening: Opening, end: Option<nat>): Outcome
    requires opening.state.Valid() && (end.Some? ==> end.value <= |s|)
  {
    var behind := Closed(s, end, opening.state);
    Outcome(behind.ends, [opening] + behind.openings, behind.last)
  }

  lemma ReadOpened(s: bytes, start: nat, inside: nat, state: LexicalState, end: Option<nat>)
    requires start < inside <= |s| && state.Valid() && !state.Normal?
    requires end.Some? ==> end.value <= |s|
    requires NormalStep(s, start) == Step(inside, state, false)
    requires ScanFrom(s, inside, state) == Closed(s, end, state)
    ensures ScanFrom(s, start, Normal) == Reading(s, Opening(start, state), end)
  {
    hide ScanFrom;
    hide NormalStep;
    OpeningTurn(s, start, inside, state);
  }

  /** The scanner reads a token that does not clash with the one before exactly as the lexer does. */
  ghost predicate ReadsToken(s: bytes, i: nat, t: Token)
    requires i <= |s| && t.end <= |s|
  {
    var run := ScanFrom(s, i, Normal);
    if t.closed then
      var rest := ScanFrom(s, t.end, Normal);
      && run.ends == (if t.kind.Terminator? then [t.end] else []) + rest.ends
      && run.openings == OpeningsOf(s, t) + rest.openings
      && run.last == rest.last
    else
      && run.ends == [] && run.openings == OpeningsOf(s, t)
      && CompletenessOf(run.last) == LeftOpen([t]) && t.end == |s|
  }

  /** A construct with the one opening and the end that the lexer gives it. */
  lemma ReadsConstruct(s: bytes, i: nat, opening: Opening, end: Option<nat>, t: Token)
    requires i < |s| && (end.Some? ==> i < end.value <= |s|)
    requires opening.state.Valid() && ScanFrom(s, i, Normal) == Reading(s, opening, end)
    requires t == Constant(s, i, end, t.kind) && OpeningsOf(s, t) == [opening]
    requires CompletenessOf(opening.state) == LeftOpen([t.(closed := false)])
    ensures ReadsToken(s, i, t)
  {
    hide ScanFrom;
    if end.None? {
      assert [opening] + [] == [opening];
    } else {
      var behind := ScanFrom(s, end.value, Normal);
      assert [] + behind.ends == behind.ends;
    }
  }

  /** A token that opens nothing and ends nothing. */
  lemma ReadsPlain(s: bytes, i: nat, t: Token)
    requires i < |s| && t.end <= |s| && t.closed && !t.kind.Terminator? && OpeningsOf(s, t) == []
    requires ScanFrom(s, i, Normal) == ScanFrom(s, t.end, Normal)
    ensures ReadsToken(s, i, t)
  {
    hide ScanFrom;
    var behind := ScanFrom(s, t.end, Normal);
    assert [] + behind.ends == behind.ends && [] + behind.openings == behind.openings;
  }

  lemma ReadDollar(s: bytes, i: nat)
    requires i < |s| && s[i] == DOLLAR && DollarQuoteDelimiter(s, i).Some?
    ensures ReadsToken(s, i, TokenAt(s, i))
  {
    hide ScanFrom;
    hide TagEnd;
    hide ReadsToken;
    hide QuotedEnd;
    hide EscapedEnd;
    hide DollarEnd;
    hide LineEnd;
    hide CommentEnd;
    hide WordEnd;
    hide NumberEnd;
    hide PositionEnd;
    var tag := DollarQuoteDelimiter(s, i).value;
    var state := DollarQuotedString(tag);
    var end := DollarEnd(s, i + |tag|, tag);
    RunDollar(s, i + |tag|, tag);
    ReadOpened(s, i, i + |tag|, state, end);
    ReadsConstruct(s, i, Opening(i, state), end, TokenAt(s, i));
  }

  lemma ReadWord(s: bytes, i: nat)
    requires i < |s| && TokenAt(s, i).kind.Word?
    ensures ReadsToken(s, i, TokenAt(s, i))
  {
    hide ScanFrom;
    hide ReadsToken;
    hide QuotedEnd;
    hide EscapedEnd;
    hide DollarEnd;
    hide LineEnd;
    hide CommentEnd;
    hide NumberEnd;
    hide PositionEnd;
    hide DelimiterEnd;
    SilentTurn(s, i, Normal, i + 1, Normal);
    RunWord(s, i + 1);
    ReadsPlain(s, i, TokenAt(s, i));
  }

  /** Bytes that open nothing and end nothing. */
  lemma {:induction false} RunPlain(s: bytes, i: nat, end: nat)
    requires i <= end <= |s|
    requires forall k :: i <= k < end ==> NormalStep(s, k) == Step(k + 1, Normal, false)
    ensures ScanFrom(s, i, Normal) == ScanFrom(s, end, Normal)
    decreases end - i
  {
    hide NormalStep;
    hide ScanFrom;
    if i < end {
      assert StepAt(s, i, Normal) == Step(i + 1, Normal, false);
      SilentTurn(s, i, Normal, i + 1, Normal);
      RunPlain(s, i + 1, end);
    }
  }

  lemma NumberByteIsPlain(s: bytes, k: nat)
    requires k < |s| && IsNumberByte(s, k)
    ensures NormalStep(s, k) == Step(k + 1, Normal, false)
  {
    hide DollarQuoteDelimiter;
  }

  lemma ReadNumber(s: bytes, i: nat)
    requires i < |s| && TokenAt(s, i).kind.Number?
    ensures ReadsToken(s, i, TokenAt(s, i))
  {
    hide ScanFrom;
    hide NormalStep;
    hide IsNumberByte;
    hide ReadsToken;
    hide QuotedEnd;
    hide EscapedEnd;
    hide DollarEnd;
    hide LineEnd;
    hide CommentEnd;
    hide WordEnd;
    hide NumberEnd;
    hide PositionEnd;
    hide DelimiterEnd;
    var end := NumberEnd(s, i);
    NumberBytes(s, i);
    forall k | i <= k < end
      ensures NormalStep(s, k) == Step(k + 1, Normal, false)
    {
      NumberByteIsPlain(s, k);
    }
    RunPlain(s, i, end);
    ReadsPlain(s, i, TokenAt(s, i));
  }

  lemma ReadParameter(s: bytes, i: nat)
    requires i < |s| && TokenAt(s, i).kind.Parameter?
    ensures ReadsToken(s, i, TokenAt(s, i))
  {
    hide ScanFrom;
    hide ReadsToken;
    hide QuotedEnd;
    hide EscapedEnd;
    hide DollarEnd;
    hide LineEnd;
    hide CommentEnd;
    hide WordEnd;
    hide NumberEnd;
    RunPlain(s, i, PositionEnd(s, i + 1));
    ReadsPlain(s, i, TokenAt(s, i));
  }

  lemma ReadEscape(s: bytes, i: nat)
    requires i < |s| && IsEscapeLetter(s[i]) && Get(s, i + 1) == QUOTE && IsEscapeStringPrefix(s, i + 1)
    ensures ReadsToken(s, i, TokenAt(s, i))
  {
    hide ScanFrom;
    hide DollarQuoteDelimiter;
    hide ReadsToken;
    hide QuotedEnd;
    hide EscapedEnd;
    hide DollarEnd;
    hide LineEnd;
    hide CommentEnd;
    hide WordEnd;
    hide NumberEnd;
    hide PositionEnd;
    hide DelimiterEnd;
    SilentTurn(s, i, Normal, i + 1, Normal);
    var end := EscapedEnd(s, i + 2);
    RunEscaped(s, i + 2);
    ReadOpened(s, i + 1, i + 2, EscapeString, end);
    ReadsConstruct(s, i, Opening(i + 1, EscapeString), end, TokenAt(s, i));
  }

  lemma ReadQuoted(s: bytes, i: nat)
    requires i < |s|
    requires (s[i] == QUOTE && !IsEscapeStringPrefix(s, i)) || s[i] == DOUBLE_QUOTE
    ensures ReadsToken(s, i, TokenAt(s, i))
  {
    hide ScanFrom;
    hide IsEscapeStringPrefix;
    hide DollarQuoteDelimiter;
    hide ReadsToken;
    hide QuotedEnd;
    hide EscapedEnd;
    hide DollarEnd;
    hide LineEnd;
    hide CommentEnd;
    hide WordEnd;
    hide NumberEnd;
    hide PositionEnd;
    hide DelimiterEnd;
    var state := if s[i] == QUOTE then SingleQuotedString else DoubleQuotedIdentifier;
    var end := QuotedEnd(s, i + 1, s[i]);
    RunQuoted(s, i + 1, state, s[i]);
    ReadOpened(s, i, i + 1, state, end);
    ReadsConstruct(s, i, Opening(i, state), end, TokenAt(s, i));
  }

  lemma ReadRemark(s: bytes, i: nat)
    requires i < |s| && IsPair(s, i, DASH, DASH)
    ensures ReadsToken(s, i, TokenAt(s, i))
  {
    hide ScanFrom;
    hide DollarQuoteDelimiter;
    hide ReadsToken;
    hide QuotedEnd;
    hide EscapedEnd;
    hide DollarEnd;
    hide LineEnd;
    hide CommentEnd;
    hide WordEnd;
    hide NumberEnd;
    hide PositionEnd;
    hide DelimiterEnd;
    var end := LineEnd(s, i + 2);
    RunLine(s, i + 2);
    ReadOpened(s, i, i + 2, LineComment, end);
    ReadsConstruct(s, i, Opening(i, LineComment), end, TokenAt(s, i));
  }

  lemma ReadBlockRemark(s: bytes, i: nat)
    requires i < |s| && IsPair(s, i, SLASH, STAR)
    ensures ReadsToken(s, i, TokenAt(s, i))
  {
    hide ScanFrom;
    hide DollarQuoteDelimiter;
    hide QuotedEnd;
    hide EscapedEnd;
    hide DollarEnd;
    hide LineEnd;
    hide CommentEnd;
    hide WordEnd;
    hide NumberEnd;
    hide PositionEnd;
    hide DelimiterEnd;
    RunBlock(s, i + 2, 1);
    OpeningTurn(s, i, i + 2, BlockComment(1));
    if CommentEnd(s, i + 2).None? {
      assert [Opening(i, BlockComment(1))] + [] == [Opening(i, BlockComment(1))];
    } else {
      var behind := ScanFrom(s, CommentEnd(s, i + 2).value, Normal);
      assert [] + behind.ends == behind.ends;
    }
  }

  lemma ReadMark(s: bytes, i: nat)
    requires i < |s| && (TokenAt(s, i).kind.Mark? || TokenAt(s, i).kind.Terminator?)
    ensures ReadsToken(s, i, TokenAt(s, i))
  {
    hide ScanFrom;
    hide QuotedEnd;
    hide EscapedEnd;
    hide DollarEnd;
    hide LineEnd;
    hide CommentEnd;
    hide WordEnd;
    hide NumberEnd;
    hide PositionEnd;
    hide TagEnd;
    if s[i] == SEMICOLON {
      TerminatorTurn(s, i);
      assert [] + ScanFrom(s, i + 1, Normal).openings == ScanFrom(s, i + 1, Normal).openings;
    } else {
      SilentTurn(s, i, Normal, i + 1, Normal);
      ReadsPlain(s, i, TokenAt(s, i));
    }
  }

  lemma ReadToken(s: bytes, i: nat, previous: Option<Token>)
    requires i < |s| && Boundary(s, i, previous)
    requires previous.Some? ==> !Clash(s, previous.value, TokenAt(s, i))
    ensures ReadsToken(s, i, TokenAt(s, i))
  {
    hide ReadsToken;
    hide TagEnd;
    hide QuotedEnd;
    hide EscapedEnd;
    hide DollarEnd;
    hide LineEnd;
    hide CommentEnd;
    hide WordEnd;
    hide NumberEnd;
    hide PositionEnd;
    if s[i] == QUOTE || s[i] == DOUBLE_QUOTE {
      ReadQuoted(s, i);
    } else if IsPair(s, i, DASH, DASH) {
      ReadRemark(s, i);
    } else if IsPair(s, i, SLASH, STAR) {
      ReadBlockRemark(s, i);
    } else if IsEscapeLetter(s[i]) && Get(s, i + 1) == QUOTE {
      ReadEscape(s, i);
    } else if s[i] == DOLLAR && DelimiterEnd(s, i).Some? {
      ReadDollar(s, i);
    } else if IsIdentifierStart(s[i]) {
      ReadWord(s, i);
    } else if StartsNumber(s, i) {
      ReadNumber(s, i);
    } else if s[i] == DOLLAR && IsDigit(Get(s, i + 1)) {
      ReadParameter(s, i);
    } else {
      ReadMark(s, i);
    }
  }

  // ---- Where tokens clash, the scanner opens something else, or nothing, there. ----

  lemma {:induction false} OpeningsFrom(s: bytes, i: nat, state: LexicalState)
    requires i <= |s| && state.Valid()
    ensures var openings := ScanFrom(s, i, state).openings;
            openings != [] ==> i <= openings[0].at
    decreases |s| - i
  {
    hide StepAt;
    if i < |s| {
      var step := StepAt(s, i, state);
      OpeningsFrom(s, step.next, step.state);
    }
  }

  /** The scanner's first opening from `i` is not the one given. */
  ghost predicate Misses(s: bytes, i: nat, opening: Opening)
    requires i <= |s|
  {
    var openings := ScanFrom(s, i, Normal).openings;
    openings == [] || openings[0] != opening
  }

  lemma MissedDollar(s: bytes, i: nat)
    requires 0 < i < |s| && IsIdentifierContinue(s[i - 1]) && TokenAt(s, i).kind.DollarConstant?
    ensures Misses(s, i, OpeningsOf(s, TokenAt(s, i))[0])
  {
    hide ScanFrom;
    hide QuotedEnd;
    hide EscapedEnd;
    hide DollarEnd;
    hide LineEnd;
    hide CommentEnd;
    hide WordEnd;
    hide NumberEnd;
    hide PositionEnd;
    SilentTurn(s, i, Normal, i + 1, Normal);
    OpeningsFrom(s, i + 1, Normal);
  }

  lemma MissedEscape(s: bytes, i: nat)
    requires 0 < i < |s| && IsIdentifierContinue(s[i - 1]) && TokenAt(s, i).kind.EscapeConstant?
    ensures Misses(s, i, OpeningsOf(s, TokenAt(s, i))[0])
  {
    hide ScanFrom;
    hide DollarQuoteDelimiter;
    hide QuotedEnd;
    hide EscapedEnd;
    hide DollarEnd;
    hide LineEnd;
    hide CommentEnd;
    hide WordEnd;
    hide NumberEnd;
    hide PositionEnd;
    hide DelimiterEnd;
    SilentTurn(s, i, Normal, i + 1, Normal);
    OpeningTurn(s, i + 1, i + 2, SingleQuotedString);
  }

  lemma {:induction false} MissedContinuation(s: bytes, i: nat, newlineSeen: bool)
    requires 0 < i < |s| && ContinuationQuote(s, i, newlineSeen).Some?
    requires !IsEscapeLetter(s[i - 1])
    ensures Misses(s, i, Opening(ContinuationQuote(s, i, newlineSeen).value, EscapeString))
    decreases |s| - i
  {
    if IsWhitespace(s[i]) {
      assert NormalStep(s, i) == Step(i + 1, Normal, false);
      MissedContinuation(s, i + 1, newlineSeen || IsNewline(s[i]));
    } else if IsPair(s, i, DASH, DASH) {
      assert NormalStep(s, i) == Step(i + 2, LineComment, false);
    } else if IsPair(s, i, SLASH, STAR) {
      assert NormalStep(s, i) == Step(i + 2, BlockComment(1), false);
    } else {
      assert NormalStep(s, i) == Step(i + 1, SingleQuotedString, false);
    }
  }

  lemma Missed(s: bytes, i: nat, previous: Token)
    requires i < |s| && Boundary(s, i, Some(previous)) && Clash(s, previous, NextToken(s, i, Some(previous)))
    ensures Misses(s, i, OpeningsOf(s, NextToken(s, i, Some(previous)))[0])
  {
    if Continues(s, i, Some(previous)) {
      MissedContinuation(s, i, false);
    } else if TokenAt(s, i).kind.DollarConstant? {
      MissedDollar(s, i);
    } else {
      MissedEscape(s, i);
    }
  }

  /** Tokens and scan agree on terminators, constructs and what is left open. */
  ghost predicate Agree(s: bytes, i: nat, tokens: seq<Token>)
    requires i <= |s|
  {
    var run := ScanFrom(s, i, Normal);
    && run.ends == TokenEnds(tokens)
    && run.openings == TokenOpenings(s, tokens)
    && CompletenessOf(run.last) == LeftOpen(tokens)
  }

  /** The verdict on the tokens from `i`: all of them agree, or the openings differ. */
  ghost predicate Verdict(s: bytes, i: nat, previous: Option<Token>, tokens: seq<Token>)
    requires i <= |s|
  {
    && (NoClash(s, previous, tokens) ==> Agree(s, i, tokens))
    && (!NoClash(s, previous, tokens) ==> ScanFrom(s, i, Normal).openings != TokenOpenings(s, tokens))
  }

  lemma VerdictClash(s: bytes, i: nat, previous: Option<Token>, tokens: seq<Token>)
    requires i <= |s| && tokens != [] && !FirstFits(s, previous, tokens)
    requires OpeningsOf(s, tokens[0]) != [] && Misses(s, i, OpeningsOf(s, tokens[0])[0])
    ensures Verdict(s, i, previous, tokens)
  {
    assert TokenOpenings(s, tokens)[0] == OpeningsOf(s, tokens[0])[0];
  }

  lemma VerdictClosed(s: bytes, i: nat, previous: Option<Token>, t: Token, rest: seq<Token>)
    requires i <= |s| && t.end <= |s| && t.closed && ReadsToken(s, i, t)
    requires FirstFits(s, previous, [t] + rest) && Verdict(s, t.end, Some(t), rest)
    ensures Verdict(s, i, previous, [t] + rest)
  {
    var tokens := [t] + rest;
    assert tokens[1..] == rest;
    assert LeftOpen(tokens) == LeftOpen(rest);
    var here := OpeningsOf(s, t);
    var behind := ScanFrom(s, t.end, Normal).openings;
    assert (here + behind)[|here|..] == behind;
    assert (here + TokenOpenings(s, rest))[|here|..] == TokenOpenings(s, rest);
  }

  lemma VerdictOpen(s: bytes, i: nat, previous: Option<Token>, t: Token)
    requires i <= |s| && t.end <= |s| && !t.closed && !t.kind.Terminator? && ReadsToken(s, i, t)
    requires FirstFits(s, previous, [t])
    ensures Verdict(s, i, previous, [t])
  {
    assert [t][1..] == [];
    assert NoClash(s, Some(t), []);
    assert NoClash(s, previous, [t]);
  }

  lemma ClashOpens(s: bytes, i: nat, previous: Token)
    requires i < |s|
    ensures var t := NextToken(s, i, Some(previous));
            && (Clash(s, previous, t) ==> OpeningsOf(s, t) != [])
            && (!Clash(s, previous, t) ==> t == TokenAt(s, i))
  {
    hide TokenAt;
    hide EscapedEnd;
  }

  lemma {:induction false} LexAgrees(s: bytes, i: nat, previous: Option<Token>)
    requires i <= |s| && Boundary(s, i, previous)
    ensures Verdict(s, i, previous, Lex(s, i, previous))
    decreases |s| - i
  {
    hide TokenAt;
    hide Boundary;
    hide Clash;
    hide NextToken;
    hide ReadsToken;
    hide Verdict;
    hide OpeningsOf;
    hide Misses;
    if i == |s| {
      NothingLeft(s, previous);
    } else {
      var t := NextToken(s, i, previous);
      var rest := Lex(s, t.end, Some(t));
      assert [t] + rest == Lex(s, i, previous);
      if previous.Some? {
        ClashOpens(s, i, previous.value);
      } else {
        assert t == TokenAt(s, i) by {
          FirstToken(s, i);
        }
      }
      if previous.Some? && Clash(s, previous.value, t) {
        Missed(s, i, previous.value);
        VerdictClash(s, i, previous, [t] + rest);
      } else {
        ReadToken(s, i, previous);
        if t.closed {
          BoundaryAfter(s, i);
          LexAgrees(s, t.end, Some(t));
          VerdictClosed(s, i, previous, t, rest);
        } else {
          OpenReachesEnd(s, i);
          assert rest == [] && [t] + rest == [t];
          VerdictOpen(s, i, previous, t);
        }
      }
    }
  }

  lemma FirstToken(s: bytes, i: nat)
    requires i < |s|
    ensures NextToken(s, i, None) == TokenAt(s, i)
  {
    hide TokenAt;
  }

  lemma NothingLeft(s: bytes, previous: Option<Token>)
    ensures Verdict(s, |s|, previous, [])
  {
    ScanEnd(s, Normal);
  }

  lemma OpenReachesEnd(s: bytes, i: nat)
    requires i < |s| && !TokenAt(s, i).closed
    ensures TokenAt(s, i).end == |s| && !TokenAt(s, i).kind.Terminator?
  {
  }

  /** The scanner enters exactly the constructs of the manual if and only if no tokens clash. */
  lemma ScannerMeetsManual(s: bytes)
    ensures Scan(s).openings == TokenOpenings(s, Tokens(s)) <==> NoClash(s, None, Tokens(s))
    ensures NoClash(s, None, Tokens(s)) ==>
              && Scan(s).ends == TokenEnds(Tokens(s))
              && CompletenessOf(Scan(s).last) == LeftOpen(Tokens(s))
  {
    LexAgrees(s, 0, None);
  }

  // ---- Behind any byte of a word, terminators differ. ----

  /** `$$;$$` */
  const CLOSED_DOLLAR_QUOTE: bytes := [DOLLAR, DOLLAR, SEMICOLON, DOLLAR, DOLLAR]

  lemma ScanOfDollarQuote(s: bytes, i: nat)
    requires 0 < i && |s| == i + 5 && IsIdentifierContinue(s[i - 1])
    requires s[i] == s[i + 1] == s[i + 3] == s[i + 4] == DOLLAR && s[i + 2] == SEMICOLON
    ensures ScanFrom(s, i, Normal).ends == [i + 3]
  {
    hide ScanFrom;
    hide TagEnd;
    assert s[i + 3..i + 5] == EMPTY_TAG;
    SilentTurn(s, i, Normal, i + 1, Normal);
    SilentTurn(s, i + 1, Normal, i + 2, Normal);
    TerminatorTurn(s, i + 2);
    OpeningTurn(s, i + 3, i + 5, DollarQuotedString(EMPTY_TAG));
    ScanEnd(s, DollarQuotedString(EMPTY_TAG));
  }

  lemma TokenOfDollarQuote(s: bytes, i: nat)
    requires |s| == i + 5 && s[i] == s[i + 1] == s[i + 3] == s[i + 4] == DOLLAR && s[i + 2] == SEMICOLON
    ensures TokenAt(s, i) == Token(i, i + 5, DollarConstant(EMPTY_TAG), true)
  {
    hide TagEnd;
    assert s[i..i + 2] == EMPTY_TAG == s[i + 3..i + 5] && s[i + 2..i + 4][0] == SEMICOLON;
    assert DollarEnd(s, i + 3, EMPTY_TAG) == Some(i + 5);
    assert DollarEnd(s, i + 2, EMPTY_TAG) == Some(i + 5);
  }

  /** Whatever token ends like a word, the scanner finds a terminator in a dollar quote that follows it. */
  lemma DollarQuoteIsSplit(s: bytes, i: nat)
    requires 0 < i <= |s| && IsIdentifierContinue(s[i - 1]) && s[i..] == CLOSED_DOLLAR_QUOTE
    ensures ScanFrom(s, i, Normal).ends == [i + 3]
    ensures TokenAt(s, i) == Token(i, i + 5, DollarConstant(EMPTY_TAG), true)
  {
    hide ScanFrom;
    hide TokenAt;
    var t := s[i..];
    assert s[i] == t[0] && s[i + 1] == t[1] && s[i + 2] == t[2] && s[i + 3] == t[3] && s[i + 4] == t[4];
    ScanOfDollarQuote(s, i);
    TokenOfDollarQuote(s, i);
  }

  /** `E'\';'` */
  const CLOSED_ESCAPE_STRING: bytes := [69, QUOTE, BACKSLASH, QUOTE, SEMICOLON, QUOTE]

  /** The same for an escape string. */
  lemma EscapeStringIsSplit(s: bytes, i: nat)
    requires 0 < i <= |s| && IsIdentifierContinue(s[i - 1]) && s[i..] == CLOSED_ESCAPE_STRING
    ensures ScanFrom(s, i, Normal).ends == [i + 5]
    ensures TokenAt(s, i) == Token(i, i + 6, EscapeConstant, true)
  {
    assert |s| == i + 6 && forall k :: 0 <= k < 6 ==> s[i + k] == CLOSED_ESCAPE_STRING[k];
    SilentTurn(s, i, Normal, i + 1, Normal);
    OpeningTurn(s, i + 1, i + 2, SingleQuotedString);
    SilentTurn(s, i + 2, SingleQuotedString, i + 3, SingleQuotedString);
    SilentTurn(s, i + 3, SingleQuotedString, i + 4, Normal);
    TerminatorTurn(s, i + 4);
    OpeningTurn(s, i + 5, i + 6, SingleQuotedString);
    ScanEnd(s, SingleQuotedString);
    assert EscapedEnd(s, i + 4) == Some(i + 6);
  }

  // ---- Whole inputs on which the terminators differ. ----

  /** `$$$$$$;` holds an empty dollar quote and then one left open. */
  const ADJACENT_DOLLAR_QUOTES: bytes := [DOLLAR, DOLLAR, DOLLAR, DOLLAR, DOLLAR, DOLLAR, SEMICOLON]

  const EMPTY_TAG: bytes := [DOLLAR, DOLLAR]

  lemma AdjacentDollarQuotesScan()
    ensures Scan(ADJACENT_DOLLAR_QUOTES).ends == [7]
  {
    var s := ADJACENT_DOLLAR_QUOTES;
    assert s[0..2] == EMPTY_TAG == s[2..4];
    assert StepAt(s, 0, Normal) == Step(2, DollarQuotedString(EMPTY_TAG), false);
    assert StepAt(s, 2, DollarQuotedString(EMPTY_TAG)) == Step(4, Normal, false);
    assert StepAt(s, 4, Normal) == Step(5, Normal, false);
    assert StepAt(s, 5, Normal) == Step(6, Normal, false);
    assert ScanFrom(s, 6, Normal).ends == [7];
    assert ScanFrom(s, 4, Normal).ends == [7];
    assert ScanFrom(s, 2, DollarQuotedString(EMPTY_TAG)).ends == [7];
  }

  lemma AdjacentDollarQuotesLex()
    ensures TokenEnds(Tokens(ADJACENT_DOLLAR_QUOTES)) == []
  {
    var s := ADJACENT_DOLLAR_QUOTES;
    assert s[0..2] == EMPTY_TAG == s[2..4] == s[4..6];
    var first := Token(0, 4, DollarConstant(EMPTY_TAG), true);
    var second := Token(4, 7, DollarConstant(EMPTY_TAG), false);
    assert TokenAt(s, 0) == first;
    assert DollarEnd(s, 6, EMPTY_TAG) == None;
    assert TokenAt(s, 4) == second;
    assert Lex(s, 4, Some(first)) == [second];
    assert Tokens(s) == [first, second];
    assert [first, second][1..] == [second] && [second][1..] == [];
    assert TokenEnds([second]) == [];
  }

  /** `1$$;$$` holds a number and a closed dollar quote. */
  const DOLLAR_QUOTE_BEHIND_NUMBER: bytes := [49, DOLLAR, DOLLAR, SEMICOLON, DOLLAR, DOLLAR]

  lemma DollarQuoteBehindNumberScan()
    ensures Scan(DOLLAR_QUOTE_BEHIND_NUMBER).ends == [4]
  {
    var s := DOLLAR_QUOTE_BEHIND_NUMBER;
    assert s[4..6] == EMPTY_TAG;
    assert StepAt(s, 0, Normal) == Step(1, Normal, false);
    assert StepAt(s, 1, Normal) == Step(2, Normal, false);
    assert StepAt(s, 2, Normal) == Step(3, Normal, false);
    assert StepAt(s, 3, Normal) == Step(4, Normal, true);
    assert StepAt(s, 4, Normal) == Step(6, DollarQuotedString(EMPTY_TAG), false);
    assert ScanFrom(s, 4, Normal).ends == [];
    assert ScanFrom(s, 3, Normal).ends == [4];
    assert ScanFrom(s, 1, Normal).ends == [4];
  }

  lemma DollarQuoteBehindNumberLex()
    ensures TokenEnds(Tokens(DOLLAR_QUOTE_BEHIND_NUMBER)) == []
  {
    var s := DOLLAR_QUOTE_BEHIND_NUMBER;
    assert s[1..3] == EMPTY_TAG == s[4..6] && s[3..5][0] == SEMICOLON;
    var first := Token(0, 1, Number, true);
    var second := Token(1, 6, DollarConstant(EMPTY_TAG), true);
    assert TokenAt(s, 0) == first;
    assert DollarEnd(s, 3, EMPTY_TAG) == Some(6);
    assert TokenAt(s, 1) == second;
    assert Lex(s, 6, Some(second)) == [];
    assert Lex(s, 1, Some(first)) == [second];
    assert Tokens(s) == [first, second];
    assert [first, second][1..] == [second] && [second][1..] == [];
    assert TokenEnds([second]) == [];
  }

  /** `1E'\';'` holds a number and a closed escape string. */
  const ESCAPE_BEHIND_NUMBER: bytes := [49, 69, QUOTE, BACKSLASH, QUOTE, SEMICOLON, QUOTE]

  lemma EscapeBehindNumberScan()
    ensures Scan(ESCAPE_BEHIND_NUMBER).ends == [6]
  {
    var s := ESCAPE_BEHIND_NUMBER;
    assert StepAt(s, 0, Normal) == Step(1, Normal, false);
    assert StepAt(s, 1, Normal) == Step(2, Normal, false);
    assert StepAt(s, 2, Normal) == Step(3, SingleQuotedString, false);
    assert StepAt(s, 3, SingleQuotedString) == Step(4, SingleQuotedString, false);
    assert StepAt(s, 4, SingleQuotedString) == Step(5, Normal, false);
    assert StepAt(s, 5, Normal) == Step(6, Normal, true);
    assert ScanFrom(s, 6, Normal).ends == [];
    assert ScanFrom(s, 5, Normal).ends == [6];
    assert ScanFrom(s, 3, SingleQuotedString).ends == [6];
    assert ScanFrom(s, 1, Normal).ends == [6];
  }

  lemma EscapeBehindNumberLex()
    ensures TokenEnds(Tokens(ESCAPE_BEHIND_NUMBER)) == []
  {
    var s := ESCAPE_BEHIND_NUMBER;
    var first := Token(0, 1, Number, true);
    var second := Token(1, 7, EscapeConstant, true);
    assert TokenAt(s, 0) == first;
    assert EscapedEnd(s, 5) == Some(7);
    assert TokenAt(s, 1) == second;
    assert Lex(s, 7, Some(second)) == [];
    assert Lex(s, 1, Some(first)) == [second];
    assert Tokens(s) == [first, second];
    assert [first, second][1..] == [second] && [second][1..] == [];
    assert TokenEnds([second]) == [];
  }

  /** `E'` newline `'\';`: the manual reads one constant, in which the last quote is escaped. */
  const CONTINUED_CONSTANT: bytes := [69, QUOTE, QUOTE, LF, QUOTE, BACKSLASH, QUOTE, SEMICOLON]

  lemma ContinuedConstantScan()
    ensures Scan(CONTINUED_CONSTANT).ends == [8]
  {
    var s := CONTINUED_CONSTANT;
    assert StepAt(s, 0, Normal) == Step(1, Normal, false);
    assert StepAt(s, 1, Normal) == Step(2, EscapeString, false);
    assert StepAt(s, 2, EscapeString) == Step(3, Normal, false);
    assert StepAt(s, 3, Normal) == Step(4, Normal, false);
    assert StepAt(s, 4, Normal) == Step(5, SingleQuotedString, false);
    assert StepAt(s, 5, SingleQuotedString) == Step(6, SingleQuotedString, false);
    assert StepAt(s, 6, SingleQuotedString) == Step(7, Normal, false);
    assert ScanFrom(s, 7, Normal).ends == [8];
    assert ScanFrom(s, 5, SingleQuotedString).ends == [8];
    assert ScanFrom(s, 3, Normal).ends == [8];
    assert ScanFrom(s, 1, Normal).ends == [8];
  }

  lemma ContinuedConstantLex()
    ensures TokenEnds(Tokens(CONTINUED_CONSTANT)) == []
  {
    var s := CONTINUED_CONSTANT;
    var first := Token(0, 3, EscapeConstant, true);
    var second := Token(4, 8, EscapeConstant, false);
    assert TokenAt(s, 0) == first;
    assert ContinuationQuote(s, 3, false) == Some(4);
    assert EscapedEnd(s, 5) == None;
    assert Lex(s, 3, Some(first)) == [second];
    assert Tokens(s) == [first, second];
    assert [first, second][1..] == [second] && [second][1..] == [];
    assert TokenEnds([second]) == [];
  }
}
