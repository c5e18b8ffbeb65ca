// Trivia skipping and the leading keywords that classify a statement, with the
// grammar of trivia they answer to.

module Classification {
  import opened Bytes
  import opened Wrappers
  import opened Scanner
  import opened Lexicon

  datatype TransactionControl = Begin | Commit | Rollback | Savepoint | Release | RollbackTo | Other

  /** Behind a run of whitespace. */
  function SpacesEnd(s: bytes, i: nat): (r: nat)
    ensures i <= r && (i <= |s| ==> r <= |s|) && !IsWhitespace(Get(s, r))
    decreases |s| - i
  {
    if i < |s| && IsWhitespace(s[i]) then SpacesEnd(s, i + 1) else i
  }

  /** At the newline that ends a line comment, or at the end of the text. */
  function LineBodyEnd(s: bytes, i: nat): (r: nat)
    ensures i <= r && (i <= |s| ==> r <= |s|) && (r < |s| ==> IsNewline(s[r]))
    decreases |s| - i
  {
    if i < |s| && !IsNewline(s[i]) then LineBodyEnd(s, i + 1) else i
  }

  /** Where the comment loop stops, and whether the comment closed there. */
  datatype CommentSkip = CommentSkip(index: nat, closed: bool)

  function SkipComment(s: bytes, i: nat, depth: nat): (r: CommentSkip)
    ensures i <= r.index && (i <= |s| ==> r.index <= |s|)
    decreases |s| - i
  {
    if depth == 0 then CommentSkip(i, true)
    else if i + 2 > |s| then CommentSkip(i, false)
    else if IsPair(s, i, SLASH, STAR) then SkipComment(s, i + 2, depth + 1)
    else if IsPair(s, i, STAR, SLASH) then SkipComment(s, i + 2, depth - 1)
    else SkipComment(s, i + 1, depth)
  }

  /** One turn of the skipping loop: where it ends, and whether the loop goes on there. */
  datatype TriviaTurn = Stop(index: nat) | GoOn(index: nat)

  function TriviaTurnAt(s: bytes, i: nat): (r: TriviaTurn)
    ensures i <= r.index && (i <= |s| ==> r.index <= |s|) && (r.GoOn? ==> i < r.index)
  {
    var j := SpacesEnd(s, i);
    if IsPair(s, j, DASH, DASH) then GoOn(LineBodyEnd(s, j + 2))
    else if IsPair(s, j, SLASH, STAR) then
      var comment := SkipComment(s, j + 2, 1);
      if comment.closed then GoOn(comment.index) else Stop(comment.index)
    else Stop(j)
  }

  function SkipTrivia(s: bytes, i: nat): (r: nat)
    requires i <= |s|
    ensures i <= r <= |s|
    decreases |s| - i
  {
    match TriviaTurnAt(s, i)
    case Stop(index) => index
    case GoOn(index) => SkipTrivia(s, index)
  }

  method SkipTriviaLoop(s: bytes, start: nat) returns (index: nat)
    requires start <= |s|
    ensures index == SkipTrivia(s, start)
  {
    index := start;
    while true
      invariant start <= index <= |s| && SkipTrivia(s, start) == SkipTrivia(s, index)
      decreases |s| - index
    {
      ghost var top := index;
      while index < |s| && IsWhitespace(s[index])
        invariant top <= index <= |s| && SpacesEnd(s, top) == SpacesEnd(s, index)
      {
        index := index + 1;
      }
      if IsPair(s, index, DASH, DASH) {
        index := index + 2;
        ghost var body := index;
        while index < |s| && !IsNewline(s[index])
          invariant body <= index <= |s| && LineBodyEnd(s, body) == LineBodyEnd(s, index)
        {
          index := index + 1;
        }
      } else if IsPair(s, index, SLASH, STAR) {
        var closed;
        index, closed := SkipCommentLoop(s, index + 2);
        if !closed {
          return;
        }
      } else {
        return;
      }
    }
  }

  method SkipCommentLoop(s: bytes, start: nat) returns (index: nat, closed: bool)
    requires start <= |s|
    ensures CommentSkip(index, closed) == SkipComment(s, start, 1)
  {
    index := start;
    var depth := 1;
    while depth > 0
      invariant start <= index <= |s| && SkipComment(s, start, 1) == SkipComment(s, index, depth)
      decreases |s| - index
    {
      if IsPair(s, index, SLASH, STAR) {
        depth := depth + 1;
        index := index + 2;
      } else if IsPair(s, index, STAR, SLASH) {
        depth := depth - 1;
        index := index + 2;
      } else if index + 2 <= |s| {
        index := index + 1;
      } else {
        return index, false;
      }
    }
    closed := true;
  }

  function AlphaEnd(s: bytes, i: nat): (r: nat)
    ensures i <= r && (i <= |s| ==> r <= |s|)
    decreases |s| - i
  {
    if i < |s| && IsAlpha(s[i]) then AlphaEnd(s, i + 1) else i
  }

  /** At most `limit` alphabetic words, each behind trivia only, from `i` on. */
  function KeywordsFrom(s: bytes, i: nat, limit: nat): (r: seq<bytes>)
    requires i <= |s|
    ensures |r| <= limit
    decreases limit
  {
    var start := SkipTrivia(s, i);
    var end := AlphaEnd(s, start);
    if limit == 0 || start == end then [] else [s[start..end]] + KeywordsFrom(s, end, limit - 1)
  }

  method LeadingKeywords(s: bytes, limit: nat) returns (keywords: seq<bytes>)
    ensures keywords == KeywordsFrom(s, 0, limit)
  {
    hide KeywordsFrom;
    hide SkipTrivia;
    hide AlphaEnd;
    keywords := [];
    var index := 0;
    ghost var rest := KeywordsFrom(s, 0, limit);
    assert [] + rest == rest;
    while |keywords| < limit
      invariant index <= |s| && |keywords| <= limit
      invariant rest == KeywordsFrom(s, index, limit - |keywords|)
      invariant KeywordsFrom(s, 0, limit) == keywords + rest
      decreases limit - |keywords|
    {
      KeywordsStep(s, index, limit - |keywords|);
      var start := SkipTriviaLoop(s, index);
      index := WordLoop(s, start);
      if start == index {
        assert rest == [] && keywords + [] == keywords;
        return;
      }
      var word := s[start..index];
      rest := KeywordsFrom(s, index, limit - |keywords| - 1);
      assert keywords + ([word] + rest) == (keywords + [word]) + rest;
      keywords := keywords + [word];
    }
    NoMoreKeywords(s, index);
    assert keywords + [] == keywords;
  }

  lemma KeywordsStep(s: bytes, i: nat, limit: nat)
    requires i <= |s| && limit > 0
    ensures var start := SkipTrivia(s, i);
            var end := AlphaEnd(s, start);
            KeywordsFrom(s, i, limit)
            == if start == end then [] else [s[start..end]] + KeywordsFrom(s, end, limit - 1)
  {
    hide SkipTrivia;
    hide AlphaEnd;
  }

  lemma NoMoreKeywords(s: bytes, i: nat)
    requires i <= |s|
    ensures KeywordsFrom(s, i, 0) == []
  {
  }

  method WordLoop(s: bytes, start: nat) returns (index: nat)
    requires start <= |s|
    ensures index == AlphaEnd(s, start)
  {
    index := start;
    while index < |s| && IsAlpha(s[index])
      invariant start <= index <= |s| && AlphaEnd(s, start) == AlphaEnd(s, index)
    {
      index := index + 1;
    }
  }

  predicate Is(keywords: seq<bytes>, index: nat, keyword: string) {
    index < |keywords| && EqIgnoreCase(keywords[index], keyword)
  }

  function ClassOf(keywords: seq<bytes>): TransactionControl {
    if Is(keywords, 0, "BEGIN") || (Is(keywords, 0, "START") && Is(keywords, 1, "TRANSACTION")) then Begin
    else if Is(keywords, 0, "COMMIT") || Is(keywords, 0, "END") then Commit
    else if (Is(keywords, 0, "ROLLBACK") || Is(keywords, 0, "ABORT")) && Is(keywords, 1, "TO") then RollbackTo
    else if Is(keywords, 0, "ROLLBACK") || Is(keywords, 0, "ABORT") then Rollback
    else if Is(keywords, 0, "SAVEPOINT") then Savepoint
    else if Is(keywords, 0, "RELEASE") then Release
    else Other
  }

  function Classify(statement: bytes): TransactionControl {
    ClassOf(KeywordsFrom(statement, 0, 3))
  }

  // ---- The grammar of trivia. ----

  /** Whitespace and closed comments up to the end of the text, where a line comment may be open. */
  predicate TriviaFrom(s: bytes, i: nat)
    decreases |s| - i
  {
    || i == |s|
    || (i < |s| && IsWhitespace(s[i]) && TriviaFrom(s, i + 1))
    || (IsPair(s, i, DASH, DASH) && (LineEnd(s, i + 2).Some? ==> TriviaFrom(s, LineEnd(s, i + 2).value)))
    || (IsPair(s, i, SLASH, STAR) && CommentEnd(s, i + 2).Some? && TriviaFrom(s, CommentEnd(s, i + 2).value))
  }

  predicate IsTrivia(s: bytes) {
    TriviaFrom(s, 0)
  }

  /** Trivia with no line comment left open: more text can follow it. */
  predicate ClosedTriviaFrom(s: bytes, i: nat)
    decreases |s| - i
  {
    || i == |s|
    || (i < |s| && IsWhitespace(s[i]) && ClosedTriviaFrom(s, i + 1))
    || (IsPair(s, i, DASH, DASH) && LineEnd(s, i + 2).Some? && ClosedTriviaFrom(s, LineEnd(s, i + 2).value))
    || (IsPair(s, i, SLASH, STAR) && CommentEnd(s, i + 2).Some?
        && ClosedTriviaFrom(s, CommentEnd(s, i + 2).value))
  }

  predicate IsClosedTrivia(s: bytes) {
    ClosedTriviaFrom(s, 0)
  }

  lemma {:induction false} LineBodyMeetsLineEnd(s: bytes, i: nat)
    requires i <= |s|
    ensures LineEnd(s, i) == if LineBodyEnd(s, i) < |s| then Some(LineBodyEnd(s, i) + 1) else None
    decreases |s| - i
  {
    if i < |s| && !IsNewline(s[i]) {
      LineBodyMeetsLineEnd(s, i + 1);
    }
  }

  lemma SkipSpace(s: bytes, i: nat)
    requires i < |s| && IsWhitespace(s[i])
    ensures SkipTrivia(s, i) == SkipTrivia(s, i + 1)
  {
    assert TriviaTurnAt(s, i) == TriviaTurnAt(s, i + 1);
  }

  lemma SkipLine(s: bytes, i: nat)
    requires i <= |s| && IsPair(s, i, DASH, DASH)
    ensures SkipTrivia(s, i) == match LineEnd(s, i + 2)
                                case None => |s|
                                case Some(e) => SkipTrivia(s, e)
  {
    hide SkipComment;
    hide LineBodyEnd;
    hide LineEnd;
    LineBodyMeetsLineEnd(s, i + 2);
    var e := LineBodyEnd(s, i + 2);
    assert TriviaTurnAt(s, i) == GoOn(e);
    assert SkipTrivia(s, i) == SkipTrivia(s, e);
    if e < |s| {
      SkipSpace(s, e);
    }
  }

  /** The comment loop with its depth counter follows the nesting of comments. */
  lemma {:induction false} SkipCommentMeetsEnd(s: bytes, i: nat, depth: nat)
    requires i <= |s| && 1 <= depth
    ensures match CommentEnd(s, i)
            case None => !SkipComment(s, i, depth).closed
            case Some(e) => SkipComment(s, i, depth) == SkipComment(s, e, depth - 1)
    decreases |s| - i
  {
    if i < |s| {
      if IsPair(s, i, SLASH, STAR) {
        SkipCommentMeetsEnd(s, i + 2, depth + 1);
        if CommentEnd(s, i + 2).Some? {
          SkipCommentMeetsEnd(s, CommentEnd(s, i + 2).value, depth);
        }
      } else if !IsPair(s, i, STAR, SLASH) {
        SkipCommentMeetsEnd(s, i + 1, depth);
      }
    }
  }

  lemma SkipBlock(s: bytes, i: nat)
    requires i <= |s| && IsPair(s, i, SLASH, STAR) && CommentEnd(s, i + 2).Some?
    ensures SkipTrivia(s, i) == SkipTrivia(s, CommentEnd(s, i + 2).value)
  {
    SkipCommentMeetsEnd(s, i + 2, 1);
  }

  /** What the stream tests: nothing is left open and skipping trivia reaches the end. */
  predicate Skippable(s: bytes, i: nat)
    requires i <= |s|
  {
    CompletenessOf(ScanFrom(s, i, Normal).last) == Complete && SkipTrivia(s, i) == |s|
  }

  lemma {:induction false} SkippableIsTrivia(s: bytes, i: nat)
    requires i <= |s|
    ensures Skippable(s, i) <==> TriviaFrom(s, i)
    ensures TriviaFrom(s, i) ==> ScanFrom(s, i, Normal).ends == []
    decreases |s| - i
  {
    hide CommentEnd;
    hide LineEnd;
    hide SkipComment;
    if i < |s| {
      if IsWhitespace(s[i]) {
        assert NormalStep(s, i) == Step(i + 1, Normal, false);
        SkipSpace(s, i);
        SkippableIsTrivia(s, i + 1);
      } else if IsPair(s, i, DASH, DASH) {
        assert NormalStep(s, i) == Step(i + 2, LineComment, false);
        RunLine(s, i + 2);
        SkipLine(s, i);
        if LineEnd(s, i + 2).Some? {
          SkippableIsTrivia(s, LineEnd(s, i + 2).value);
        }
      } else if IsPair(s, i, SLASH, STAR) {
        assert NormalStep(s, i) == Step(i + 2, BlockComment(1), false);
        RunBlock(s, i + 2, 1);
        if CommentEnd(s, i + 2).Some? {
          SkipBlock(s, i);
          SkippableIsTrivia(s, CommentEnd(s, i + 2).value);
        }
      }
    }
  }

  /** Closed trivia is exactly the trivia behind which the scanner is in no comment. */
  lemma {:induction false} ClosedTriviaMeans(s: bytes, i: nat)
    requires i <= |s|
    ensures ClosedTriviaFrom(s, i) <==> TriviaFrom(s, i) && ScanFrom(s, i, Normal).last == Normal
    decreases |s| - i
  {
    hide CommentEnd;
    hide LineEnd;
    if i < |s| {
      if IsWhitespace(s[i]) {
        assert NormalStep(s, i) == Step(i + 1, Normal, false);
        ClosedTriviaMeans(s, i + 1);
      } else if IsPair(s, i, DASH, DASH) {
        assert NormalStep(s, i) == Step(i + 2, LineComment, false);
        RunLine(s, i + 2);
        if LineEnd(s, i + 2).Some? {
          ClosedTriviaMeans(s, LineEnd(s, i + 2).value);
        }
      } else if IsPair(s, i, SLASH, STAR) {
        assert NormalStep(s, i) == Step(i + 2, BlockComment(1), false);
        RunBlock(s, i + 2, 1);
        if CommentEnd(s, i + 2).Some? {
          ClosedTriviaMeans(s, CommentEnd(s, i + 2).value);
        }
      }
    }
  }
}
