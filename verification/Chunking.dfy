/**
  When the cuts of the network show. A session of `memcached/server/Session.cc` asks for the end of the
  connection if it has more than 1024 bytes and no end of line, so a line of 1024 bytes or more is taken
  or refused depending on where it is cut. Everything else depends on the bytes alone.
*/
module Chunking {
  import opened ItemStore
  import opened Requests
  import opened Texts
  import opened Session

  /**
    Every command line in the stream is shorter than 1024 bytes, and what comes after the last end of a
    line, if a line is due there, is at most `tail` bytes.
  */
  ghost predicate LinesWithin(s: State, buf: string, tail: nat)
    requires Good(s)
    decreases |buf|
  {
    buf == "" ||
    match s.mode
    case NewCommand =>
      var i := FindCRLF(buf);
      if i < |buf| then
        ProcessKeepsGood(s, buf[..i]);
        i < MAX_LINE && LinesWithin(ProcessRequest(s, buf[..i]), buf[i + 2..], tail)
      else |buf| <= tail
    case ReceiveValue(p) =>
      var n := Min(|buf|, Needed(s));
      ReceiveKeepsGood(s, buf[..n]);
      LinesWithin(Receive(s, buf[..n]), buf[n..], tail)
    case DiscardValue(left) => |buf| < left || LinesWithin(s.(mode := NewCommand), buf[left..], tail)
    case Aborted => true
  }

  /** No line is too long, as far as it goes. */
  ghost predicate ShortLines(s: State, buf: string)
    requires Good(s)
  {
    LinesWithin(s, buf, MAX_LINE)
  }

  /** No line is too long before the last byte of the stream. */
  ghost predicate ShortBeforeEnd(s: State, buf: string)
    requires Good(s)
  {
    LinesWithin(s, buf, MAX_LINE + 1)
  }

  /**
    In a stream of short lines no portion of it, wherever it is cut, is taken for an overlong line; with
    one byte more after the last end of a line, no portion but the whole.
  */
  lemma {:induction false} ShortLinesStay(s: State, a: string, b: string, tail: nat)
    requires Good(s) && LinesWithin(s, a + b, tail) && tail <= if b == "" then MAX_LINE else MAX_LINE + 1
    ensures !TooLong(Drain(s, a))
    decreases |a|
  {
    hide ProcessRequest, Receive, Good;
    if a != "" {
      match s.mode
      case NewCommand => ShortLinesInLine(s, a, b, tail);
      case ReceiveValue(p) => ShortLinesInValue(s, a, b, tail);
      case DiscardValue(left) =>
        if |a| >= left {
          assert (a + b)[left..] == a[left..] + b;
          GoodAfterDiscard(s);
          ShortLinesStay(s.(mode := NewCommand), a[left..], b, tail);
        }
      case Aborted =>
    }
  }

  lemma {:induction false} ShortLinesInLine(s: State, a: string, b: string, tail: nat)
    requires Good(s) && s.mode == NewCommand && a != "" && LinesWithin(s, a + b, tail)
    requires tail <= if b == "" then MAX_LINE else MAX_LINE + 1
    ensures !TooLong(Drain(s, a))
    decreases |a|, 0
  {
    hide ProcessRequest, Good, FindCRLF;
    var i := FindCRLF(a);
    if i < |a| {
      FindInPrefix(a, b);
      assert (a + b)[..i] == a[..i] && (a + b)[i + 2..] == a[i + 2..] + b;
      ProcessKeepsGood(s, a[..i]);
      ShortLinesStay(ProcessRequest(s, a[..i]), a[i + 2..], b, tail);
    } else {
      NoCRLFInPrefix(a, b);
    }
  }

  lemma {:induction false} ShortLinesInValue(s: State, a: string, b: string, tail: nat)
    requires Good(s) && s.mode.ReceiveValue? && a != "" && LinesWithin(s, a + b, tail)
    requires tail <= if b == "" then MAX_LINE else MAX_LINE + 1
    ensures !TooLong(Drain(s, a))
    decreases |a|, 0
  {
    hide ProcessRequest, Receive, FindCRLF;
    var n := Needed(s);
    if |a| >= n {
      assert (a + b)[..n] == a[..n] && (a + b)[n..] == a[n..] + b;
      ReceiveKeepsGood(s, a[..n]);
      ShortLinesStay(Receive(s, a[..n]), a[n..], b, tail);
    } else {
      assert a[..|a|] == a && a[|a|..] == "";
      ReceiveInPieces(s, a, "");
    }
  }

  /** The chunks of a stream: none is empty, and together they are the bytes. */
  ghost predicate Cuts(chunks: seq<string>, bytes: string) {
    Concat(chunks) == bytes && forall i :: 0 <= i < |chunks| ==> chunks[i] != ""
  }

  // ----- short lines: the cuts do not show

  lemma {:induction false} FeedIsDrain(s: State, chunks: seq<string>, more: string, tail: nat)
    requires Good(s) && LinesWithin(s, Concat(chunks) + more, tail)
    requires tail <= if more == "" then MAX_LINE else MAX_LINE + 1
    ensures Feed(Drained(s, ""), chunks) == Drain(s, Concat(chunks))
  {
    hide Drain, LinesWithin, Good;
    if chunks == [] {
      DrainNothing(s);
    } else {
      var init, last := chunks[..|chunks| - 1], chunks[|chunks| - 1];
      assert Concat(chunks) + more == Concat(init) + (last + more);
      FeedIsDrain(s, init, last + more, tail);
      DrainInPortions(s, Concat(init), last);
      ShortLinesStay(s, Concat(chunks), more, tail);
    }
  }

  /** With short lines the outcome of every cut is that of one call on all bytes. */
  lemma FeedIsRound(s: State, chunks: seq<string>)
    requires Good(s) && ShortBeforeEnd(s, Concat(chunks)) && forall i :: 0 <= i < |chunks| ==> chunks[i] != ""
    ensures Feed(Drained(s, ""), chunks) == Round(s, Concat(chunks))
  {
    hide Drain, LinesWithin, Good;
    if chunks == [] {
      DrainNothing(s);
    } else {
      var init, last := chunks[..|chunks| - 1], chunks[|chunks| - 1];
      FeedIsDrain(s, init, last, MAX_LINE + 1);
      DrainInPortions(s, Concat(init), last);
    }
  }

  // ----- a long line: some cut shows

  /** Once the session has taken `head` completely, the rest of the stream is its own. */
  lemma AfterHead(s: State, s': State, head: string, x: string)
    requires Good(s) && Good(s') && Drain(s, head) == Drained(s', "")
    ensures Drain(s, head + x) == Drain(s', x)
  {
    hide Drain, Good;
    DrainInPortions(s, head, x);
    assert "" + x == x;
  }

  /** In a stream with a long line, some prefix before its end is taken for an overlong line. */
  lemma {:induction false} LongLineTrips(s: State, buf: string) returns (n: nat)
    requires Good(s) && !ShortBeforeEnd(s, buf)
    ensures n < |buf| && TooLong(Drain(s, buf[..n]))
    decreases |buf|
  {
    hide ProcessRequest, Receive, Good, FindCRLF;
    match s.mode
    case NewCommand =>
      var i := FindCRLF(buf);
      if i == |buf| || i >= MAX_LINE {
        n := if i == |buf| then i - 1 else i + 1;
        NoCRLFBefore(buf, n);
        DrainUnended(s, buf[..n]);
      } else {
        ProcessKeepsGood(s, buf[..i]);
        var s' := ProcessRequest(s, buf[..i]);
        n := LongLineTrips(s', buf[i + 2..]);
        TakesLine(s, buf, i);
        n := TripsLater(s, s', buf, i + 2, n);
      }
    case ReceiveValue(p) => n := LongLineAfterValue(s, buf);
    case DiscardValue(left) =>
      GoodAfterDiscard(s);
      var s' := s.(mode := NewCommand);
      n := LongLineTrips(s', buf[left..]);
      assert Drain(s, buf[..left]) == Drained(s', "") by {
        assert buf[..left][left..] == "";
        DrainNothing(s');
      }
      n := TripsLater(s, s', buf, left, n);
  }

  lemma {:induction false} LongLineAfterValue(s: State, buf: string) returns (n: nat)
    requires Good(s) && !ShortBeforeEnd(s, buf) && s.mode.ReceiveValue?
    ensures n < |buf| && TooLong(Drain(s, buf[..n]))
    decreases |buf|, 0
  {
    hide ProcessRequest, Receive, FindCRLF;
    var k := Min(|buf|, Needed(s));
    ReceiveKeepsGood(s, buf[..k]);
    var s' := Receive(s, buf[..k]);
    n := LongLineTrips(s', buf[k..]);
    assert Drain(s, buf[..k]) == Drained(s', "") by {
      assert buf[..k][..k] == buf[..k] && buf[..k][k..] == "";
      DrainNothing(s');
    }
    n := TripsLater(s, s', buf, k, n);
  }

  lemma TripsLater(s: State, s': State, buf: string, k: nat, n: nat) returns (m: nat)
    requires Good(s) && Good(s') && k <= |buf| && n < |buf| - k
    requires Drain(s, buf[..k]) == Drained(s', "") && TooLong(Drain(s', buf[k..][..n]))
    ensures m < |buf| && TooLong(Drain(s, buf[..m]))
  {
    hide Drain, Good;
    m := k + n;
    assert buf[..m] == buf[..k] + buf[k..][..n];
    AfterHead(s, s', buf[..k], buf[k..][..n]);
  }

  lemma TakesLine(s: State, buf: string, i: nat)
    requires Good(s) && s.mode == NewCommand && FindCRLF(buf) == i < |buf|
    ensures Good(ProcessRequest(s, buf[..i])) && Drain(s, buf[..i + 2]) == Drained(ProcessRequest(s, buf[..i]), "")
  {
    hide ProcessRequest, FindCRLF, Good;
    ProcessKeepsGood(s, buf[..i]);
    var line := buf[..i + 2];
    assert forall j :: 0 <= j < i + 2 ==> line[j] == buf[j];
    FirstCRLF(line, i);
    assert line[..i] == buf[..i] && line[i + 2..] == "";
    DrainNothing(ProcessRequest(s, buf[..i]));
  }

  lemma NoCRLFBefore(buf: string, n: nat)
    requires n <= |buf| && FindCRLF(buf) >= n - 1
    ensures FindCRLF(buf[..n]) == n
  {
    var a := buf[..n];
    assert forall j :: 0 <= j < n ==> a[j] == buf[j];
  }

  // ----- what was sent before does not matter for what is done next

  /** The sessions differ at most in what they have sent and in what is left in their buffers. */
  ghost predicate Alike(s: State, t: State) {
    s.mode == t.mode && s.store == t.store && s.requests == t.requests && s.startTime == t.startTime
  }

  /** From `s` and from `t`, alike, steps lead to `s'` and `t'`, alike, with as many outputs more. */
  ghost predicate Together(s: State, t: State, s': State, t': State) {
    Alike(s', t') && s.out <= s'.out && t.out <= t'.out && |s'.out| - |s.out| == |t'.out| - |t.out|
  }

  lemma {:induction false} GetsTogether(s: State, t: State, keys: seq<string>, withCas: bool, noreply: bool)
    requires Good(s) && Alike(s, t)
    ensures Together(s, t, DoGet(s, keys, withCas, noreply), DoGet(t, keys, withCas, noreply))
    decreases keys
  {
    hide Shown;
    if keys != [] && |keys[0]| <= LONGEST_KEY {
      if keys[0] in s.store.items {
        var shown := Shown(s.store.items[keys[0]], withCas);
        var s1, t1 := s.(outputBuf := s.outputBuf + shown), t.(outputBuf := t.outputBuf + shown);
        GetsTogether(s1, t1, keys[1..], withCas, noreply);
      } else {
        GetsTogether(s, t, keys[1..], withCas, noreply);
      }
    }
  }

  lemma ProcessTogether(s: State, t: State, line: string)
    requires Good(s) && s.mode == NewCommand && Alike(s, t)
    ensures Good(t) && Together(s, t, ProcessRequest(s, line), ProcessRequest(t, line))
  {
    hide Parse, HasNoreply, DoGet, DoUpdate, DoDelete, Answer, WellStored;
    var noreply, request := HasNoreply(line), Parse(line);
    var s1, t1 := s.(requests := s.requests + 1), t.(requests := t.requests + 1);
    match request
    case Get(keys, withCas) => GetsTogether(s1, t1, keys, withCas, noreply);
    case Update(_, _, _, _, _, _) => UpdateTogether(s1, t1, request, noreply);
    case _ => AnswerTogether(s1, t1, request, noreply);
  }

  lemma UpdateTogether(s: State, t: State, u: Request, noreply: bool)
    requires Alike(s, t) && u.Update?
    ensures Together(s, t, DoUpdate(s, u, noreply), DoUpdate(t, u, noreply))
  {
    hide ToDiscard, RelExptime;
  }

  lemma AnswerTogether(s: State, t: State, request: Request, noreply: bool)
    requires Alike(s, t)
    ensures Together(s, t, Answer(s, request, noreply), Answer(t, request, noreply))
    ensures request.Delete? ==> Together(s, t, DoDelete(s, request.key, noreply), DoDelete(t, request.key, noreply))
  {
  }

  lemma ReceiveTogether(s: State, t: State, bytes: string)
    requires Good(s) && Alike(s, t)
    requires s.mode.ReceiveValue? && |s.mode.p.item.value| + |bytes| <= s.mode.p.valuelen
    ensures Good(t) && Together(s, t, Receive(s, bytes), Receive(t, bytes))
  {
    hide EndsWithCRLF, Accepts, WellStored;
  }

  /**
    What a session does with the bytes that come next (store, mode, unread rest, number of outputs) does
    not depend on what it has sent, asked of the connection or left in its buffer.
  */
  lemma {:induction false} DrainTogether(s: State, t: State, buf: string)
    requires Good(s) && Alike(s, t)
    ensures Good(t)
    ensures var d, e := Drain(s, buf), Drain(t, buf); Together(s, t, d.s, e.s) && d.rest == e.rest
    decreases |buf|
  {
    hide ProcessRequest, Receive, FindCRLF;
    if buf != "" {
      match s.mode
      case NewCommand =>
        var i := FindCRLF(buf);
        if i < |buf| {
          ProcessKeepsGood(s, buf[..i]);
          ProcessTogether(s, t, buf[..i]);
          DrainTogether(ProcessRequest(s, buf[..i]), ProcessRequest(t, buf[..i]), buf[i + 2..]);
        }
      case ReceiveValue(p) =>
        var n := Min(|buf|, Needed(s));
        ReceiveKeepsGood(s, buf[..n]);
        ReceiveTogether(s, t, buf[..n]);
        DrainTogether(Receive(s, buf[..n]), Receive(t, buf[..n]), buf[n..]);
      case DiscardValue(left) =>
        if |buf| >= left {
          DrainTogether(s.(mode := NewCommand), t.(mode := NewCommand), buf[left..]);
        }
      case Aborted =>
    }
  }

  /** A request to close stays one output more, whatever comes. */
  lemma ClosingShows(s: State, buf: string)
    requires Good(s)
    ensures Good(Closing(s)) && |Round(Closing(s), buf).s.out| == |Round(s, buf).s.out| + 1
  {
    hide Drain;
    DrainTogether(s, Closing(s), buf);
  }

  /**
    With a long line before the end of the stream, the cut within that line has another outcome than the
    uncut stream: one request more to close the connection.
  */
  lemma LongLineShows(s: State, bytes: string) returns (chunks: seq<string>)
    requires Good(s) && !ShortBeforeEnd(s, bytes)
    ensures Cuts([bytes], bytes) && Cuts(chunks, bytes)
    ensures Feed(Drained(s, ""), chunks) != Feed(Drained(s, ""), [bytes])
  {
    hide Drain, LinesWithin, Good;
    var n := LongLineTrips(s, bytes);
    DrainNothing(s);
    assert n > 0 by {
      assert bytes[..0] == "";
    }
    var a, b := bytes[..n], bytes[n..];
    assert bytes == a + b;
    chunks := [a, b];
    ConcatTwo(a, b);
    ConcatTwo(bytes, "");
    FeedOne(s, bytes);
    FeedTwo(s, a, b);
    DrainInPortions(s, a, b);
    var d := Drain(s, a);
    ClosingShows(d.s, d.rest + b);
  }

  lemma ConcatTwo(a: string, b: string)
    ensures Concat([a]) == a && Concat([a, b]) == a + b
  {
    assert [a][..0] == [] && [a, b][..1] == [a];
    assert Concat([a]) == [] + a;
  }

  lemma FeedOne(s: State, a: string)
    requires Good(s)
    ensures Feed(Drained(s, ""), [a]) == Round(s, a)
  {
    hide Drain, Good;
    assert [a][..0] == [] && "" + a == a;
  }

  lemma FeedTwo(s: State, a: string, b: string)
    requires Good(s)
    ensures var d := Round(s, a); Feed(Drained(s, ""), [a, b]) == Round(d.s, d.rest + b)
  {
    hide Drain, Good;
    FeedOne(s, a);
    assert [a, b][..1] == [a];
  }

  /** Replies, store operations, requests to close, final state and unread bytes are those of the bytes alone. */
  ghost predicate CutsAgree(s: State, bytes: string)
    requires Good(s)
  {
    forall c, d :: Cuts(c, bytes) && Cuts(d, bytes) ==> Feed(Drained(s, ""), c) == Feed(Drained(s, ""), d)
  }

  /**
    The ways to cut a stream agree if and only if every line that ends is shorter than 1024 bytes and
    what comes after the last one is at most 1025 bytes. They then do what one call does with all bytes.
  */
  lemma ChunkingIsInvisible(s: State, bytes: string)
    requires Good(s)
    ensures ShortBeforeEnd(s, bytes) <==> CutsAgree(s, bytes)
    ensures ShortBeforeEnd(s, bytes) ==> forall c :: Cuts(c, bytes) ==> Feed(Drained(s, ""), c) == Round(s, bytes)
  {
    hide Round, LinesWithin, Feed, Good;
    if ShortBeforeEnd(s, bytes) {
      forall c | Cuts(c, bytes)
        ensures Feed(Drained(s, ""), c) == Round(s, bytes)
      {
        FeedIsRound(s, c);
      }
    } else {
      var chunks := LongLineShows(s, bytes);
    }
  }

  // ----- what the client loses

  /** What the client gets: a connection that was shut down sends no more. */
  function Received(out: seq<Output>): (r: seq<string>) {
    if out == [] || out[0] == ShutdownConnection then []
    else (if out[0].Send? then [out[0].s] else []) + Received(out[1..])
  }

  lemma {:induction false} NothingAfterShutdown(a: seq<Output>, b: seq<Output>)
    ensures Received(a + [ShutdownConnection] + b) == Received(a)
  {
    var s := a + [ShutdownConnection] + b;
    if a != [] && a[0] != ShutdownConnection {
      NothingAfterShutdown(a[1..], b);
      assert s[1..] == a[1..] + [ShutdownConnection] + b;
    }
  }

  /**
    Every overlong line has such a cut, just before its last byte: the client then gets nothing of the
    answer, and without the cut it gets all of it.
  */
  lemma CutLosesReply(s: State, line: string)
    requires Good(s) && s.mode == NewCommand && FindCRLF(line + "\r\n") == |line| >= MAX_LINE
    ensures Feed(Drained(s, ""), [line + "\r\n"]) == Drained(ProcessRequest(s, line), "")
    ensures Received(Feed(Drained(s, ""), [line + "\r", "\n"]).s.out) == Received(s.out)
  {
    hide ProcessRequest, FindCRLF, Good, Drain, Received;
    var a, all := line + "\r", line + "\r\n";
    assert all[..|line|] == line && all[..|line| + 2] == all;
    TakesLine(s, all, |line|);
    FeedOne(s, all);
    assert a == all[..|line| + 1] && a + "\n" == all;
    NoCRLFBefore(all, |a|);
    DrainUnended(s, a);
    FeedTwo(s, a, "\n");
    ClosedAnswer(s, all);
  }

  lemma DrainUnended(s: State, a: string)
    requires Good(s) && s.mode == NewCommand && FindCRLF(a) == |a|
    ensures Drain(s, a) == Drained(s, a)
  {
  }

  lemma ClosedAnswer(s: State, buf: string)
    requires Good(s)
    ensures Received(Round(Closing(s), buf).s.out) == Received(s.out)
  {
    hide Drain, Received;
    DrainTogether(s, Closing(s), buf);
    var r := Round(Closing(s), buf).s.out;
    var o := s.out + [ShutdownConnection];
    assert o <= r && r == o + r[|o|..];
    NothingAfterShutdown(s.out, r[|o|..]);
  }

  // ----- the session object

  /** The connection hands the session its bytes in chunks. */
  method FeedAll(session: Session, chunks: seq<string>)
    requires session.Valid()
    modifies session, session.server, session.server.shards
    ensures session.Valid()
    ensures Drained(session.Abs(), session.input) == Feed(Drained(old(session.Abs()), old(session.input)), chunks)
    ensures old(session.input) == "" && ShortLines(old(session.Abs()), Concat(chunks)) ==>
      Drained(session.Abs(), session.input) == Drain(old(session.Abs()), Concat(chunks))
    ensures session.bytesRead + |session.input| == old(session.bytesRead) + |old(session.input)| + |Concat(chunks)|
  {
    hide Good, Round, Drain, LinesWithin;
    ghost var d := Drained(session.Abs(), session.input);
    for i := 0 to |chunks|
      invariant session.Valid() && Drained(session.Abs(), session.input) == Feed(d, chunks[..i])
      invariant session.bytesRead + |session.input| == old(session.bytesRead) + |d.rest| + |Concat(chunks[..i])|
    {
      assert chunks[..i + 1][..i] == chunks[..i];
      session.OnMessage(chunks[i]);
    }
    assert chunks[..|chunks|] == chunks;
    if d.rest == "" && ShortLines(d.s, Concat(chunks)) {
      assert Concat(chunks) + "" == Concat(chunks);
      FeedIsDrain(d.s, chunks, "", MAX_LINE);
    }
  }
}
