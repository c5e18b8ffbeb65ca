// The statement stream: text goes in by pushes of any size, whole statements come
// out, and the unterminated rest stays pending.

module StatementStreams {
  import opened Bytes
  import opened Wrappers
  import opened Scanner
  import opened Framing
  import opened Lexicon
  import opened Classification

  datatype Statement = Statement(text: bytes, control: TransactionControl)

  function Classified(texts: seq<bytes>): (r: seq<Statement>)
    ensures |r| == |texts|
  {
    seq(|texts|, k requires 0 <= k < |texts| => Statement(texts[k], Classify(texts[k])))
  }

  predicate AllWithin(texts: seq<bytes>, limit: nat) {
    forall text :: text in texts ==> |text| <= limit
  }

  /** Every statement and what is still pending fit the limit, when there is one. */
  predicate Fits(framed: Framed, limit: Option<nat>) {
    limit.Some? ==> AllWithin(framed.statements, limit.value) && |framed.pending| <= limit.value
  }

  class StatementStream {
    var pending: bytes

    constructor ()
      ensures pending == []
    {
      pending := [];
    }

    /** None stands for the error that a statement or the pending text is over the limit. */
    method Push(input: bytes, limit: Option<nat>) returns (r: Option<seq<Statement>>)
      modifies this
      ensures r.Some? <==> Fits(Frame(old(pending) + input), limit)
      ensures r.Some? ==> r.value == Classified(Frame(old(pending) + input).statements)
      ensures r.Some? ==> pending == Frame(old(pending) + input).pending
    {
      pending := pending + input;
      var ends, _ := RunScan(pending);
      var start;
      r, start := CutAll(pending, ends, limit);
      if r.None? {
        return;
      }
      pending := pending[start..];
      if limit.Some? && |pending| > limit.value {
        return None;
      }
    }

    method PendingIsTrivia() returns (r: bool)
      ensures r == IsTrivia(pending)
    {
      var _, state := RunScan(pending);
      var skipped := SkipTriviaLoop(pending, 0);
      SkippableIsTrivia(pending, 0);
      r := CompletenessOf(state) == Complete && skipped == |pending|;
    }

    /** Hands over a pending text that is lexically closed and more than trivia. */
    method TakeCompleteStatement() returns (r: Option<Statement>)
      modifies this
      ensures r.Some? <==> CompletenessOf(Scan(old(pending)).last) == Complete && !IsTrivia(old(pending))
      ensures r.Some? ==> r.value == Statement(old(pending), Classify(old(pending))) && pending == []
      ensures r.None? ==> pending == old(pending)
    {
      var _, state := RunScan(pending);
      var trivia := PendingIsTrivia();
      if CompletenessOf(state) != Complete || trivia {
        return None;
      }
      r := Some(Statement(pending, Classify(pending)));
      pending := [];
    }
  }

  /** The cutting loop of a push: one statement for each end, up to the last one. */
  method CutAll(whole: bytes, ends: seq<nat>, limit: Option<nat>)
    returns (r: Option<seq<Statement>>, start: nat)
    requires ends == Scan(whole).ends
    ensures start <= |whole|
    ensures r.Some? <==> (limit.Some? ==> AllWithin(Frame(whole).statements, limit.value))
    ensures r.Some? ==> r.value == Classified(Frame(whole).statements) && whole[start..] == Frame(whole).pending
  {
    hide Frame;
    hide Scan;
    hide Cutting;
    hide Classify;
    FirstCut(whole);
    assert ends[0..] == ends;
    var statements := [];
    start := 0;
    var k := 0;
    ghost var texts: seq<bytes> := [];
    while k < |ends|
      invariant k <= |ends| && start <= |whole|
      invariant Cutting(whole, texts, start, ends[k..])
      invariant statements == Classified(texts)
      invariant limit.Some? ==> AllWithin(texts, limit.value)
    {
      var end := ends[k];
      NextCut(whole, texts, start, ends[k..]);
      assert ends[k..][1..] == ends[k + 1..];
      var text := whole[start..end];
      if limit.Some? && end - start > limit.value {
        return None, start;
      }
      statements := statements + [Statement(text, Classify(text))];
      texts := texts + [text];
      start := end;
      k := k + 1;
    }
    assert ends[k..] == [];
    LastCut(whole, texts, start);
    return Some(statements), start;
  }

  /** The texts cut so far, and the ends that the one scan reports ahead. */
  ghost predicate Cutting(whole: bytes, texts: seq<bytes>, start: nat, ahead: seq<nat>) {
    && start <= |whole|
    && ahead == ScanFrom(whole, start, Normal).ends
    && Frame(whole).statements == texts + FrameFrom(whole, start).statements
    && Frame(whole).pending == FrameFrom(whole, start).pending
  }

  lemma FirstCut(whole: bytes)
    ensures Cutting(whole, [], 0, Scan(whole).ends)
  {
    assert [] + Frame(whole).statements == Frame(whole).statements;
  }

  lemma NextCut(whole: bytes, texts: seq<bytes>, start: nat, ahead: seq<nat>)
    requires Cutting(whole, texts, start, ahead) && ahead != []
    ensures start < ahead[0] <= |whole|
    ensures Cutting(whole, texts + [whole[start..ahead[0]]], ahead[0], ahead[1..])
    ensures whole[start..ahead[0]] in Frame(whole).statements
  {
    ScanThrough(whole, start, Normal);
    var text := whole[start..ahead[0]];
    var later := FrameFrom(whole, ahead[0]).statements;
    assert texts + ([text] + later) == (texts + [text]) + later;
    assert Frame(whole).statements[|texts|] == text;
  }

  lemma LastCut(whole: bytes, texts: seq<bytes>, start: nat)
    requires Cutting(whole, texts, start, [])
    ensures Frame(whole) == Framed(texts, whole[start..])
  {
    assert texts + [] == texts;
  }

  // ---- Runs of pushes. ----

  /** What a run of pushes emits in all, and what it leaves pending; None once a push fails. */
  function Pushes(pending: bytes, chunks: seq<bytes>, limit: Option<nat>): Option<Framed>
    decreases |chunks|
  {
    if chunks == [] then Some(Framed([], pending))
    else
      var now := Frame(pending + chunks[0]);
      if !Fits(now, limit) then None
      else
        match Pushes(now.pending, chunks[1..], limit)
        case None => None
        case Some(later) => Some(Framed(now.statements + later.statements, later.pending))
  }

  lemma {:induction false} ConservationFrom(s: bytes, i: nat)
    requires i <= |s|
    ensures Concat(FrameFrom(s, i).statements) + FrameFrom(s, i).pending == s[i..]
    decreases |s| - i
  {
    hide ScanFrom;
    hide FrameFrom;
    hide Concat;
    FrameTurn(s, i);
    var ends := ScanFrom(s, i, Normal).ends;
    if ends == [] {
      assert Concat([]) + s[i..] == s[i..] by {
        ConcatNothing();
      }
    } else {
      ConservationFrom(s, ends[0]);
      var head, rest := s[i..ends[0]], FrameFrom(s, ends[0]);
      ConcatStep([head] + rest.statements);
      assert ([head] + rest.statements)[1..] == rest.statements;
      Associative(head, Concat(rest.statements), rest.pending);
      assert s[i..] == head + s[ends[0]..];
    }
  }

  lemma FrameTurn(s: bytes, i: nat)
    requires i <= |s|
    ensures var ends := ScanFrom(s, i, Normal).ends;
            if ends == [] then FrameFrom(s, i) == Framed([], s[i..])
            else
              && i < ends[0] <= |s|
              && var rest := FrameFrom(s, ends[0]);
                 FrameFrom(s, i) == Framed([s[i..ends[0]]] + rest.statements, rest.pending)
  {
    hide ScanFrom;
    ScanEnds(s, i, Normal);
  }

  lemma ConcatNothing()
    ensures Concat([]) == []
  {
  }

  /** Emitted texts and pending text are the input, byte for byte. */
  lemma Conservation(s: bytes)
    ensures Concat(Frame(s).statements) + Frame(s).pending == s
  {
    ConservationFrom(s, 0);
  }

  /** Where framing may stop and go on: at the start of the text or behind a semicolon. */
  ghost predicate Cut(s: bytes, i: nat) {
    i <= |s| && (i == 0 || s[i - 1] == SEMICOLON)
  }

  lemma CutRestart(s: bytes, i: nat)
    requires Cut(s, i)
    ensures FrameFrom(s, i) == Frame(s[i..])
  {
    if i > 0 {
      FrameRestart(s, i, i);
    } else {
      assert s[0..] == s;
    }
  }

  lemma {:induction false} PendingIsUncut(s: bytes, i: nat)
    requires Cut(s, i)
    ensures Frame(FrameFrom(s, i).pending) == Framed([], FrameFrom(s, i).pending)
    decreases |s| - i
  {
    hide ScanFrom;
    hide FrameFrom;
    FrameUnfolds(s, i);
    if ScanFrom(s, i, Normal).ends == [] {
      CutRestart(s, i);
    } else {
      PendingIsUncut(s, ScanFrom(s, i, Normal).ends[0]);
    }
  }

  lemma FrameUnfolds(s: bytes, i: nat)
    requires Cut(s, i)
    ensures var ends := ScanFrom(s, i, Normal).ends;
            if ends == [] then FrameFrom(s, i) == Framed([], s[i..])
            else
              && i < ends[0] <= |s| && Cut(s, ends[0])
              && FrameFrom(s, i) == Framed([s[i..ends[0]]] + FrameFrom(s, ends[0]).statements,
                                           FrameFrom(s, ends[0]).pending)
  {
    hide ScanFrom;
    if ScanFrom(s, i, Normal).ends != [] {
      ScanThrough(s, i, Normal);
    }
  }

  /** Framing two pieces one after the other is framing them at once. */
  lemma {:induction false} FrameInTwo(s: bytes, t: bytes, i: nat)
    requires Cut(s, i)
    ensures var first := FrameFrom(s, i);
            var second := Frame(first.pending + t);
            FrameFrom(s + t, i) == Framed(first.statements + second.statements, second.pending)
    decreases |s| - i
  {
    hide FrameFrom;
    hide ScanFrom;
    assert Cut(s + t, i);
    FrameUnfolds(s, i);
    var ends := ScanFrom(s, i, Normal).ends;
    if ends == [] {
      CutRestart(s + t, i);
      assert (s + t)[i..] == s[i..] + t;
    } else {
      var e := ends[0];
      ScanExtended(s, t, i, Normal);
      FrameUnfolds(s + t, i);
      FrameInTwo(s, t, e);
      assert (s + t)[i..e] == s[i..e];
    }
  }

  /** A pending text only grows until its statement is complete. */
  lemma PendingWithin(pending: bytes, t: bytes, limit: nat)
    requires Frame(pending).statements == [] && Fits(Frame(pending + t), Some(limit))
    ensures |pending| <= limit
  {
    ScanExtended(pending, t, 0, Normal);
    var ends := Scan(pending + t).ends;
    if ends != [] {
      assert ends[0..] == ends && ends[0] > |pending|;
      ScanEnds(pending + t, 0, Normal);
      assert (pending + t)[0..ends[0]] in Frame(pending + t).statements;
    }
  }

  lemma FitsInTwo(s: bytes, t: bytes, limit: Option<nat>)
    ensures Fits(Frame(s + t), limit) <==> Fits(Frame(s), limit) && Fits(Frame(Frame(s).pending + t), limit)
  {
    hide FrameFrom;
    FrameInTwo(s, t, 0);
    PendingIsUncut(s, 0);
    var first := Frame(s);
    var second := Frame(first.pending + t);
    if limit.Some? && Fits(Frame(s + t), limit) {
      assert forall text :: text in second.statements ==> text in Frame(s + t).statements;
      PendingWithin(first.pending, t, limit.value);
    }
  }

  lemma {:induction false} PushesAtOnce(pending: bytes, chunks: seq<bytes>, limit: Option<nat>)
    requires Frame(pending) == Framed([], pending) && Fits(Framed([], pending), limit)
    ensures Pushes(pending, chunks, limit).Some? <==> Fits(Frame(pending + Concat(chunks)), limit)
    ensures Pushes(pending, chunks, limit).Some? ==>
              Pushes(pending, chunks, limit) == Some(Frame(pending + Concat(chunks)))
    decreases |chunks|
  {
    hide FrameFrom;
    if chunks == [] {
      assert pending + Concat(chunks) == pending;
    } else {
      var s := pending + chunks[0];
      var t := Concat(chunks[1..]);
      assert pending + Concat(chunks) == s + t;
      FrameInTwo(s, t, 0);
      FitsInTwo(s, t, limit);
      PendingIsUncut(s, 0);
      if Fits(Frame(s), limit) {
        PushesAtOnce(Frame(s).pending, chunks[1..], limit);
      }
    }
  }

  /**
   * Chunk invariance: however an input is split, the pushes together emit and
   * leave pending what one push of the whole input does, and with a limit they
   * all succeed if and only if that one push fits it.
   */
  lemma ChunkInvariance(chunks: seq<bytes>, limit: Option<nat>)
    ensures Pushes([], chunks, limit).Some? <==> Fits(Frame(Concat(chunks)), limit)
    ensures Pushes([], chunks, limit).Some? ==> Pushes([], chunks, limit).value == Frame(Concat(chunks))
  {
    assert [] + Concat(chunks) == Concat(chunks);
    PushesAtOnce([], chunks, limit);
  }

  lemma NothingLeft(s: bytes)
    ensures ScanFrom(s, |s|, Normal).ends == []
  {
  }

  /** The first cut of a text, framed alone, is itself. */
  lemma FirstIsFixpoint(s: bytes)
    requires Scan(s).ends != []
    ensures var e := Scan(s).ends[0];
            0 < e <= |s| && s[e - 1] == SEMICOLON && Frame(s[..e]) == Framed([s[..e]], [])
  {
    hide ScanFrom;
    ScanThrough(s, 0, Normal);
    var e := Scan(s).ends[0];
    var text, rest := s[..e], s[e..];
    assert text + rest == s;
    ScanExtended(text, rest, 0, Normal);
    assert Scan(s).ends[0..] == Scan(s).ends;
    assert text[0..e] == text && text[e..] == [];
    NothingLeft(text);
    assert FrameFrom(text, e) == Framed([], []);
  }

  /** A statement framed alone is that statement, with nothing pending. */
  lemma {:induction false} EmittedIsFixpoint(s: bytes, i: nat, text: bytes)
    requires Cut(s, i) && text in FrameFrom(s, i).statements
    ensures Frame(text) == Framed([text], [])
    ensures text != [] && text[|text| - 1] == SEMICOLON
    decreases |s| - i
  {
    hide ScanFrom;
    hide FrameFrom;
    hide Frame;
    FrameUnfolds(s, i);
    var e := ScanFrom(s, i, Normal).ends[0];
    if text == s[i..e] {
      if i > 0 {
        ScanRestart(s, i, i, Normal);
      } else {
        assert s[0..] == s;
      }
      FirstIsFixpoint(s[i..]);
      assert s[i..][..e - i] == text;
    } else {
      EmittedIsFixpoint(s, e, text);
    }
  }
}
