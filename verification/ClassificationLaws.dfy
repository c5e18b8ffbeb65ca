// What cannot change the class of a statement: trivia before it, and letter case.

module ClassificationLaws {
  import opened Bytes
  import opened Wrappers
  import opened Scanner
  import opened Lexicon
  import opened Classification

  // ---- Closed trivia keeps its meaning whatever follows it. ----

  lemma {:induction false} LineEndExtended(t: bytes, s: bytes, i: nat)
    ensures LineEnd(t, i).Some? ==> LineEnd(t + s, i) == LineEnd(t, i)
    decreases |t| - i
  {
    if i < |t| && !IsNewline(t[i]) {
      LineEndExtended(t, s, i + 1);
    }
  }

  lemma {:induction false} CommentEndExtended(t: bytes, s: bytes, i: nat)
    ensures CommentEnd(t, i).Some? ==> CommentEnd(t + s, i) == CommentEnd(t, i)
    decreases |t| - i
  {
    if i + 1 < |t| {
      assert (t + s)[i] == t[i] && (t + s)[i + 1] == t[i + 1];
      if IsPair(t, i, SLASH, STAR) {
        CommentEndExtended(t, s, i + 2);
        if CommentEnd(t, i + 2).Some? {
          CommentEndExtended(t, s, CommentEnd(t, i + 2).value);
        }
      } else if !IsPair(t, i, STAR, SLASH) {
        CommentEndExtended(t, s, i + 1);
      }
    } else if i < |t| {
      assert CommentEnd(t, i + 1) == None;
    }
  }

  lemma {:induction false} SkipClosedTrivia(t: bytes, s: bytes, i: nat)
    requires i <= |t| && ClosedTriviaFrom(t, i)
    ensures SkipTrivia(t + s, i) == SkipTrivia(t + s, |t|)
    decreases |t| - i
  {
    hide SkipTrivia;
    hide CommentEnd;
    hide LineEnd;
    if i < |t| {
      assert (t + s)[i] == t[i] && (i + 1 < |t| ==> Get(t + s, i + 1) == Get(t, i + 1));
      if IsWhitespace(t[i]) {
        SkipSpace(t + s, i);
        SkipClosedTrivia(t, s, i + 1);
      } else if IsPair(t, i, DASH, DASH) {
        LineEndExtended(t, s, i + 2);
        SkipLine(t + s, i);
        SkipClosedTrivia(t, s, LineEnd(t, i + 2).value);
      } else {
        CommentEndExtended(t, s, i + 2);
        SkipBlock(t + s, i);
        SkipClosedTrivia(t, s, CommentEnd(t, i + 2).value);
      }
    }
  }

  // ---- Skipping and reading words look at nothing behind them. ----

  /** `s` is what `w` holds from `d` on. */
  ghost predicate Tail(w: bytes, d: nat, s: bytes) {
    d <= |w| && s == w[d..]
  }

  lemma TailGet(w: bytes, d: nat, s: bytes, i: nat)
    requires Tail(w, d, s)
    ensures Get(w, d + i) == Get(s, i)
  {
  }

  lemma {:induction false} SpacesEndShift(w: bytes, d: nat, s: bytes, i: nat)
    requires Tail(w, d, s) && i <= |s|
    ensures SpacesEnd(w, d + i) == d + SpacesEnd(s, i)
    decreases |s| - i
  {
    TailGet(w, d, s, i);
    if i < |s| && IsWhitespace(s[i]) {
      SpacesEndShift(w, d, s, i + 1);
    }
  }

  lemma {:induction false} LineBodyEndShift(w: bytes, d: nat, s: bytes, i: nat)
    requires Tail(w, d, s) && i <= |s|
    ensures LineBodyEnd(w, d + i) == d + LineBodyEnd(s, i)
    decreases |s| - i
  {
    TailGet(w, d, s, i);
    if i < |s| && !IsNewline(s[i]) {
      LineBodyEndShift(w, d, s, i + 1);
    }
  }

  lemma {:induction false} SkipCommentShift(w: bytes, d: nat, s: bytes, i: nat, depth: nat)
    requires Tail(w, d, s) && i <= |s|
    ensures var skip := SkipComment(s, i, depth);
            SkipComment(w, d + i, depth) == CommentSkip(d + skip.index, skip.closed)
    decreases |s| - i
  {
    TailGet(w, d, s, i);
    TailGet(w, d, s, i + 1);
    if depth > 0 && i + 2 <= |s| {
      if IsPair(s, i, SLASH, STAR) {
        SkipCommentShift(w, d, s, i + 2, depth + 1);
      } else if IsPair(s, i, STAR, SLASH) {
        SkipCommentShift(w, d, s, i + 2, depth - 1);
      } else {
        SkipCommentShift(w, d, s, i + 1, depth);
      }
    }
  }

  lemma TriviaTurnShift(w: bytes, d: nat, s: bytes, i: nat)
    requires Tail(w, d, s) && i <= |s|
    ensures TriviaTurnAt(w, d + i) == match TriviaTurnAt(s, i)
                                      case Stop(index) => Stop(d + index)
                                      case GoOn(index) => GoOn(d + index)
  {
    hide SpacesEnd;
    hide LineBodyEnd;
    hide SkipComment;
    hide Tail;
    SpacesEndShift(w, d, s, i);
    var j := SpacesEnd(s, i);
    TailGet(w, d, s, j);
    TailGet(w, d, s, j + 1);
    if IsPair(s, j, DASH, DASH) {
      LineBodyEndShift(w, d, s, j + 2);
    } else if IsPair(s, j, SLASH, STAR) {
      SkipCommentShift(w, d, s, j + 2, 1);
    }
  }

  lemma {:induction false} SkipTriviaShift(w: bytes, d: nat, s: bytes, i: nat)
    requires Tail(w, d, s) && i <= |s|
    ensures SkipTrivia(w, d + i) == d + SkipTrivia(s, i)
    decreases |s| - i
  {
    TriviaTurnShift(w, d, s, i);
    match TriviaTurnAt(s, i)
    case Stop(_) =>
    case GoOn(index) => SkipTriviaShift(w, d, s, index);
  }

  lemma {:induction false} AlphaEndShift(w: bytes, d: nat, s: bytes, i: nat)
    requires Tail(w, d, s) && i <= |s|
    ensures AlphaEnd(w, d + i) == d + AlphaEnd(s, i)
    decreases |s| - i
  {
    TailGet(w, d, s, i);
    if i < |s| && IsAlpha(s[i]) {
      AlphaEndShift(w, d, s, i + 1);
    }
  }

  lemma TailSlice(w: bytes, d: nat, s: bytes, i: nat, j: nat)
    requires Tail(w, d, s) && i <= j <= |s|
    ensures w[d + i..d + j] == s[i..j]
  {
    forall k | 0 <= k < j - i
      ensures w[d + i..d + j][k] == s[i..j][k]
    {
      TailGet(w, d, s, i + k);
    }
  }

  lemma {:induction false} KeywordsShift(w: bytes, d: nat, s: bytes, i: nat, limit: nat)
    requires Tail(w, d, s) && i <= |s|
    ensures KeywordsFrom(w, d + i, limit) == KeywordsFrom(s, i, limit)
    decreases limit
  {
    hide SkipTrivia;
    hide AlphaEnd;
    hide Tail;
    SkipTriviaShift(w, d, s, i);
    var start := SkipTrivia(s, i);
    AlphaEndShift(w, d, s, start);
    var end := AlphaEnd(s, start);
    if limit > 0 && start < end {
      TailSlice(w, d, s, start, end);
      KeywordsShift(w, d, s, end, limit - 1);
    }
  }

  /** Closed trivia in front of a statement never changes its leading keywords. */
  lemma TriviaKeepsKeywords(t: bytes, s: bytes, limit: nat)
    requires IsClosedTrivia(t)
    ensures KeywordsFrom(t + s, 0, limit) == KeywordsFrom(s, 0, limit)
  {
    SkipClosedTrivia(t, s, 0);
    assert Tail(t + s, |t|, s);
    KeywordsShift(t + s, |t|, s, 0, limit);
    assert KeywordsFrom(t + s, 0, limit) == KeywordsFrom(t + s, |t|, limit);
  }

  /** So it never changes the class. */
  lemma TriviaKeepsClass(t: bytes, s: bytes)
    requires IsClosedTrivia(t)
    ensures Classify(t + s) == Classify(s)
  {
    hide ClassOf;
    TriviaKeepsKeywords(t, s, 3);
  }

  // ---- Which words make which class. ----

  /** An ASCII text as bytes. */
  function Ascii(text: string): (r: bytes)
    requires forall k :: 0 <= k < |text| ==> text[k] as int < 128
    ensures |r| == |text| && forall k :: 0 <= k < |r| ==> r[k] == text[k] as int
  {
    seq(|text|, k requires 0 <= k < |text| => text[k] as int)
  }

  predicate IsWord(s: bytes) {
    s != [] && forall k :: 0 <= k < |s| ==> IsAlpha(s[k])
  }

  lemma {:induction false} AlphaEndOfWord(word: bytes, rest: bytes, i: nat)
    requires IsWord(word) && i <= |word| && !IsAlpha(Get(rest, 0))
    ensures AlphaEnd(word + rest, i) == |word|
    decreases |word| - i
  {
    if i < |word| {
      AlphaEndOfWord(word, rest, i + 1);
    } else {
      assert rest != [] ==> (word + rest)[i] == rest[0];
    }
  }

  /** A word that is not continued is the first keyword, and the others are those of the rest. */
  lemma FirstWord(word: bytes, rest: bytes, limit: nat)
    requires IsWord(word) && !IsAlpha(Get(rest, 0))
    ensures KeywordsFrom(word + rest, 0, limit + 1) == [word] + KeywordsFrom(rest, 0, limit)
  {
    var s := word + rest;
    AlphaEndOfWord(word, rest, 0);
    assert SkipTrivia(s, 0) == 0;
    assert s[0..|word|] == word;
    assert Tail(s, |word|, rest);
    KeywordsShift(s, |word|, rest, 0, limit);
  }

  /** A keyword in capitals is spelled by itself alone. */
  lemma Spelled(keywords: seq<bytes>, word: string, keyword: string)
    requires forall k :: 0 <= k < |word| ==> 'A' <= word[k] <= 'Z'
    requires keywords != [] && keywords[0] == Ascii(word)
    ensures Is(keywords, 0, keyword) <==> word == keyword
  {
    if Is(keywords, 0, keyword) {
      assert forall k :: 0 <= k < |word| ==> ToUpper(keywords[0][k]) == keyword[k] as int;
      assert forall k :: 0 <= k < |word| ==> word[k] as int == keyword[k] as int;
    }
  }

  /** The class that a first keyword and the ones behind it make. */
  lemma ClassOfSpelled(keywords: seq<bytes>, word: string)
    requires word in {"BEGIN", "COMMIT", "END", "SAVEPOINT", "RELEASE", "ROLLBACK", "ABORT", "START"}
    requires keywords != [] && keywords[0] == Ascii(word)
    ensures ClassOf(keywords)
         == if word == "BEGIN" then Begin
            else if word == "SAVEPOINT" then Savepoint
            else if word == "RELEASE" then Release
            else if word == "COMMIT" || word == "END" then Commit
            else if word == "START" then
              if Is(keywords, 1, "TRANSACTION") then Begin else Other
            else if Is(keywords, 1, "TO") then RollbackTo else Rollback
  {
    hide EqIgnoreCase;
    Spelled(keywords, word, "BEGIN");
    Spelled(keywords, word, "START");
    Spelled(keywords, word, "COMMIT");
    Spelled(keywords, word, "END");
    Spelled(keywords, word, "ROLLBACK");
    Spelled(keywords, word, "ABORT");
    Spelled(keywords, word, "SAVEPOINT");
    Spelled(keywords, word, "RELEASE");
  }

  /** The class of a statement that starts with one of these words, whatever follows the word. */
  lemma ClassOfFirstWord(word: string, rest: bytes)
    requires word in {"BEGIN", "COMMIT", "END", "SAVEPOINT", "RELEASE"} && !IsAlpha(Get(rest, 0))
    ensures Classify(Ascii(word) + rest)
         == if word == "BEGIN" then Begin
            else if word == "SAVEPOINT" then Savepoint
            else if word == "RELEASE" then Release
            else Commit
  {
    hide KeywordsFrom;
    hide ClassOf;
    FirstWord(Ascii(word), rest, 2);
    ClassOfSpelled(KeywordsFrom(Ascii(word) + rest, 0, 3), word);
  }

  /** ROLLBACK and ABORT end a transaction unless TO comes next; START begins one if TRANSACTION does. */
  lemma ClassOfTwoWords(word: string, rest: bytes)
    requires word in {"ROLLBACK", "ABORT", "START"} && !IsAlpha(Get(rest, 0))
    ensures var second := KeywordsFrom(rest, 0, 2);
            Classify(Ascii(word) + rest)
            == if word == "START" then
                 if Is(second, 0, "TRANSACTION") then Begin else Other
               else if Is(second, 0, "TO") then RollbackTo else Rollback
  {
    hide KeywordsFrom;
    hide ClassOf;
    FirstWord(Ascii(word), rest, 2);
    var keywords := KeywordsFrom(Ascii(word) + rest, 0, 3);
    ClassOfSpelled(keywords, word);
    SecondIs(keywords, KeywordsFrom(rest, 0, 2), "TO");
    SecondIs(keywords, KeywordsFrom(rest, 0, 2), "TRANSACTION");
  }

  lemma SecondIs(keywords: seq<bytes>, later: seq<bytes>, keyword: string)
    requires keywords != [] && keywords == [keywords[0]] + later
    ensures Is(keywords, 1, keyword) <==> Is(later, 0, keyword)
  {
  }

  /** The word spells a keyword, letter by letter, in any case. */
  predicate Spells(word: bytes, keyword: string) {
    |word| == |keyword|
    && forall k :: 0 <= k < |word| ==> word[k] == keyword[k] as int || word[k] == keyword[k] as int + 32
  }

  predicate IsCapital(keyword: string) {
    forall k :: 0 <= k < |keyword| ==> 'A' <= keyword[k] <= 'Z'
  }

  lemma SpellsMeans(word: bytes, keyword: string)
    requires IsCapital(keyword)
    ensures EqIgnoreCase(word, keyword) == Spells(word, keyword)
  {
  }

  /** The first word says nothing about transactions; a START needs its TRANSACTION. */
  predicate NoControl(keywords: seq<bytes>) {
    || keywords == []
    || (&& !Spells(keywords[0], "BEGIN") && !Spells(keywords[0], "COMMIT") && !Spells(keywords[0], "END")
        && !Spells(keywords[0], "ROLLBACK") && !Spells(keywords[0], "ABORT")
        && !Spells(keywords[0], "SAVEPOINT") && !Spells(keywords[0], "RELEASE")
        && (!Spells(keywords[0], "START") || |keywords| == 1 || !Spells(keywords[1], "TRANSACTION")))
  }

  lemma IsSpelled(keywords: seq<bytes>, index: nat, keyword: string)
    requires IsCapital(keyword)
    ensures Is(keywords, index, keyword) <==> index < |keywords| && Spells(keywords[index], keyword)
  {
    hide EqIgnoreCase;
    hide Spells;
    if index < |keywords| {
      SpellsMeans(keywords[index], keyword);
    }
  }

  /** A statement is of no class exactly when its leading words say nothing about transactions. */
  lemma OtherMeans(s: bytes)
    ensures Classify(s).Other? <==> NoControl(KeywordsFrom(s, 0, 3))
  {
    hide KeywordsFrom;
    hide Is;
    hide Spells;
    var keywords := KeywordsFrom(s, 0, 3);
    IsSpelled(keywords, 0, "BEGIN");
    IsSpelled(keywords, 0, "START");
    IsSpelled(keywords, 1, "TRANSACTION");
    IsSpelled(keywords, 0, "COMMIT");
    IsSpelled(keywords, 0, "END");
    IsSpelled(keywords, 0, "ROLLBACK");
    IsSpelled(keywords, 0, "ABORT");
    IsSpelled(keywords, 0, "SAVEPOINT");
    IsSpelled(keywords, 0, "RELEASE");
    OtherOf(keywords);
  }

  lemma OtherOf(keywords: seq<bytes>)
    ensures ClassOf(keywords).Other?
       <==> && !Is(keywords, 0, "BEGIN") && !Is(keywords, 0, "COMMIT") && !Is(keywords, 0, "END")
            && !Is(keywords, 0, "ROLLBACK") && !Is(keywords, 0, "ABORT")
            && !Is(keywords, 0, "SAVEPOINT") && !Is(keywords, 0, "RELEASE")
            && !(Is(keywords, 0, "START") && Is(keywords, 1, "TRANSACTION"))
  {
    hide EqIgnoreCase;
  }

  /** The class of a statement that starts with any other word, whatever follows the word. */
  lemma ClassOfOtherWord(word: bytes, rest: bytes)
    requires IsWord(word) && !IsAlpha(Get(rest, 0))
    ensures Classify(word + rest).Other? <==> NoControl([word] + KeywordsFrom(rest, 0, 2))
  {
    hide KeywordsFrom;
    hide NoControl;
    FirstWord(word, rest, 2);
    OtherMeans(word + rest);
  }

  /** A statement whose trivia is followed by no word is of no class. */
  lemma ClassWithoutWord(t: bytes, s: bytes)
    requires IsClosedTrivia(t)
    requires var b := Get(s, 0); !(65 <= b <= 90) && !(97 <= b <= 122) && !IsBlankByte(b)
    requires !(Get(s, 0) == 45 && Get(s, 1) == 45) && !(Get(s, 0) == 47 && Get(s, 1) == 42)
    ensures Classify(t + s).Other?
  {
    TriviaKeepsClass(t, s);
    assert SkipTrivia(s, 0) == 0 && KeywordsFrom(s, 0, 3) == [];
    OtherMeans(s);
  }

  lemma {:induction false} OpenCommentStops(s: bytes, i: nat, depth: nat)
    requires i <= |s| && !SkipComment(s, i, depth).closed
    ensures |s| - 1 <= SkipComment(s, i, depth).index
    decreases |s| - i
  {
    if depth != 0 && i + 2 <= |s| {
      if IsPair(s, i, SLASH, STAR) {
        OpenCommentStops(s, i + 2, depth + 1);
      } else if IsPair(s, i, STAR, SLASH) {
        OpenCommentStops(s, i + 2, depth - 1);
      } else {
        OpenCommentStops(s, i + 1, depth);
      }
    }
  }

  /** A comment that stays open leads nowhere: no word behind or inside it makes a class. */
  lemma ClassInOpenComment(t: bytes, s: bytes)
    requires IsClosedTrivia(t)
    requires Get(s, 0) == 47 && Get(s, 1) == 42 && CommentEnd(s, 2) == None
    ensures Classify(t + s).Other?
  {
    hide SkipComment;
    hide CommentEnd;
    hide KeywordsFrom;
    hide Spells;
    TriviaKeepsClass(t, s);
    SkipCommentMeetsEnd(s, 2, 1);
    OpenCommentStops(s, 2, 1);
    var start := SkipTrivia(s, 0);
    assert |s| - 1 <= start;
    KeywordsStep(s, 0, 3);
    var keywords := KeywordsFrom(s, 0, 3);
    if keywords != [] {
      ShortSpellsNothing(keywords[0]);
    }
    OtherMeans(s);
  }

  lemma ShortSpellsNothing(word: bytes)
    requires |word| <= 1
    ensures forall keyword: string :: 1 < |keyword| ==> !Spells(word, keyword)
  {
  }

  /** The words of a text are maximal runs of letters. */
  lemma {:induction false} WordEndMeans(s: bytes, i: nat, e: nat)
    requires i <= |s|
    ensures AlphaEnd(s, i) == e
       <==> && i <= e <= |s| && (forall k :: i <= k < e ==> 65 <= s[k] <= 90 || 97 <= s[k] <= 122)
            && (e == |s| || !(65 <= s[e] <= 90 || 97 <= s[e] <= 122))
    decreases |s| - i
  {
    if i < |s| && IsAlpha(s[i]) {
      WordEndMeans(s, i + 1, e);
    }
  }

  predicate IsBlankByte(b: int) {
    b == 9 || b == 10 || b == 12 || b == 13 || b == 32
  }

  /** Blanks are maximal runs of tab, line feed, form feed, carriage return and space. */
  lemma {:induction false} BlankRunMeans(s: bytes, i: nat, e: nat)
    requires i <= |s|
    ensures SpacesEnd(s, i) == e
       <==> && i <= e <= |s| && (forall k :: i <= k < e ==> IsBlankByte(s[k])) && (e == |s| || !IsBlankByte(s[e]))
    decreases |s| - i
  {
    if i < |s| && IsWhitespace(s[i]) {
      BlankRunMeans(s, i + 1, e);
    }
  }

  // ---- Letter case. ----

  ghost predicate SameLetters(s: bytes, t: bytes) {
    |s| == |t| && forall k :: 0 <= k < |s| ==> ToUpper(s[k]) == ToUpper(t[k])
  }

  lemma SameGet(s: bytes, t: bytes, i: int)
    requires SameLetters(s, t)
    ensures IsAlpha(Get(s, i)) <==> IsAlpha(Get(t, i))
    ensures !IsAlpha(Get(s, i)) ==> Get(s, i) == Get(t, i)
  {
    assert 0 <= i < |s| ==> ToUpper(s[i]) == ToUpper(t[i]);
  }

  lemma {:induction false} SameSpacesEnd(s: bytes, t: bytes, i: nat)
    requires SameLetters(s, t) && i <= |s|
    ensures SpacesEnd(s, i) == SpacesEnd(t, i)
    decreases |s| - i
  {
    SameGet(s, t, i);
    if i < |s| && IsWhitespace(s[i]) {
      SameSpacesEnd(s, t, i + 1);
    }
  }

  lemma {:induction false} SameLineBodyEnd(s: bytes, t: bytes, i: nat)
    requires SameLetters(s, t) && i <= |s|
    ensures LineBodyEnd(s, i) == LineBodyEnd(t, i)
    decreases |s| - i
  {
    SameGet(s, t, i);
    if i < |s| && !IsNewline(s[i]) {
      SameLineBodyEnd(s, t, i + 1);
    }
  }

  lemma {:induction false} SameSkipComment(s: bytes, t: bytes, i: nat, depth: nat)
    requires SameLetters(s, t) && i <= |s|
    ensures SkipComment(s, i, depth) == SkipComment(t, i, depth)
    decreases |s| - i
  {
    SameGet(s, t, i);
    SameGet(s, t, i + 1);
    if depth > 0 && i + 2 <= |s| {
      if IsPair(s, i, SLASH, STAR) {
        SameSkipComment(s, t, i + 2, depth + 1);
      } else if IsPair(s, i, STAR, SLASH) {
        SameSkipComment(s, t, i + 2, depth - 1);
      } else {
        SameSkipComment(s, t, i + 1, depth);
      }
    }
  }

  lemma SameTriviaTurn(s: bytes, t: bytes, i: nat)
    requires SameLetters(s, t) && i <= |s|
    ensures TriviaTurnAt(s, i) == TriviaTurnAt(t, i)
  {
    SameSpacesEnd(s, t, i);
    var j := SpacesEnd(s, i);
    SameGet(s, t, j);
    SameGet(s, t, j + 1);
    if IsPair(s, j, DASH, DASH) {
      SameLineBodyEnd(s, t, j + 2);
    } else if IsPair(s, j, SLASH, STAR) {
      SameSkipComment(s, t, j + 2, 1);
    }
  }

  lemma {:induction false} SameSkipTrivia(s: bytes, t: bytes, i: nat)
    requires SameLetters(s, t) && i <= |s|
    ensures SkipTrivia(s, i) == SkipTrivia(t, i)
    decreases |s| - i
  {
    SameTriviaTurn(s, t, i);
    match TriviaTurnAt(s, i)
    case Stop(_) =>
    case GoOn(index) => SameSkipTrivia(s, t, index);
  }

  lemma {:induction false} SameAlphaEnd(s: bytes, t: bytes, i: nat)
    requires SameLetters(s, t) && i <= |s|
    ensures AlphaEnd(s, i) == AlphaEnd(t, i)
    decreases |s| - i
  {
    SameGet(s, t, i);
    if i < |s| && IsAlpha(s[i]) {
      SameAlphaEnd(s, t, i + 1);
    }
  }

  ghost predicate SameWords(a: seq<bytes>, b: seq<bytes>) {
    |a| == |b| && forall k :: 0 <= k < |a| ==> SameLetters(a[k], b[k])
  }

  lemma {:induction false} SameKeywords(s: bytes, t: bytes, i: nat, limit: nat)
    requires SameLetters(s, t) && i <= |s|
    ensures SameWords(KeywordsFrom(s, i, limit), KeywordsFrom(t, i, limit))
    decreases limit
  {
    hide SkipTrivia;
    hide AlphaEnd;
    SameSkipTrivia(s, t, i);
    var start := SkipTrivia(s, i);
    SameAlphaEnd(s, t, start);
    var end := AlphaEnd(s, start);
    if limit > 0 && start < end {
      assert SameLetters(s[start..end], t[start..end]);
      SameKeywords(s, t, end, limit - 1);
    }
  }

  lemma SameIs(a: seq<bytes>, b: seq<bytes>, index: nat, keyword: string)
    requires SameWords(a, b)
    ensures Is(a, index, keyword) == Is(b, index, keyword)
  {
    if index < |a| && |a[index]| == |keyword| {
      assert SameLetters(a[index], b[index]);
      assert forall k :: 0 <= k < |keyword| ==> ToUpper(a[index][k]) == ToUpper(b[index][k]);
    }
  }

  /** Letter case never changes the class of a statement. */
  lemma CaseKeepsClass(s: bytes, t: bytes)
    requires SameLetters(s, t)
    ensures Classify(s) == Classify(t)
  {
    SameKeywords(s, t, 0, 3);
    var a, b := KeywordsFrom(s, 0, 3), KeywordsFrom(t, 0, 3);
    SameIs(a, b, 0, "BEGIN");
    SameIs(a, b, 0, "START");
    SameIs(a, b, 1, "TRANSACTION");
    SameIs(a, b, 0, "COMMIT");
    SameIs(a, b, 0, "END");
    SameIs(a, b, 0, "ROLLBACK");
    SameIs(a, b, 0, "ABORT");
    SameIs(a, b, 1, "TO");
    SameIs(a, b, 0, "SAVEPOINT");
    SameIs(a, b, 0, "RELEASE");
  }
}
