/**
  `AsyncLogging` (`muduo/base/AsyncLogging.cc`): front-end threads append lines under the lock, the
  back end swaps the filled buffers out and writes them, and two spare buffers go round. A buffer is
  its contents; a null `unique_ptr` is `Null`.
*/
module AsyncLogging {

  /** `kLargeBuffer`. */
  const CAPACITY := 4000 * 1000

  datatype BufferPtr = Null | Buffer(data: string)

  ghost function Flat(buffers: seq<string>): (s: string) {
    if buffers == [] then "" else Flat(buffers[..|buffers| - 1]) + buffers[|buffers| - 1]
  }

  lemma FlatSnoc(buffers: seq<string>, b: string)
    ensures Flat(buffers + [b]) == Flat(buffers) + b
  {
    assert (buffers + [b])[..|buffers|] == buffers;
  }

  /** What the back end has done with the lines: written or dropped, and its notices in between. */
  datatype Piece = Written(s: string) | Dropped(s: string) | Notice(s: string)

  /** The file: what was written, and the notices. */
  ghost function FileOf(pieces: seq<Piece>): (s: string) {
    if pieces == [] then "" else
      FileOf(pieces[..|pieces| - 1]) + if pieces[|pieces| - 1].Dropped? then "" else pieces[|pieces| - 1].s
  }

  /** The lines: what was written, and what was dropped. */
  ghost function LinesOf(pieces: seq<Piece>): (s: string) {
    if pieces == [] then "" else
      LinesOf(pieces[..|pieces| - 1]) + if pieces[|pieces| - 1].Notice? then "" else pieces[|pieces| - 1].s
  }

  lemma PieceAdded(pieces: seq<Piece>, p: Piece)
    ensures FileOf(pieces + [p]) == FileOf(pieces) + if p.Dropped? then "" else p.s
    ensures LinesOf(pieces + [p]) == LinesOf(pieces) + if p.Notice? then "" else p.s
  {
    assert (pieces + [p])[..|pieces|] == pieces;
  }

  /** As long as nothing was dropped and no notice written, the file is the lines. */
  lemma {:induction false} NothingDropped(pieces: seq<Piece>)
    requires forall i :: 0 <= i < |pieces| ==> pieces[i].Written?
    ensures FileOf(pieces) == LinesOf(pieces)
  {
    if pieces != [] {
      NothingDropped(pieces[..|pieces| - 1]);
    }
  }

  /**
    What was written or dropped, the batch in hand, what was erased from it, the filled buffers and the
    current buffer make up what was logged, in this order.
  */
  ghost predicate Account(pieces: seq<Piece>, batch: seq<string>, erased: string, buffers: seq<string>,
                          current: string, logged: string) {
    LinesOf(pieces) + Flat(batch) + erased + Flat(buffers) + current == logged
  }

  lemma AccountLine(pieces: seq<Piece>, batch: seq<string>, erased: string, buffers: seq<string>, current: string,
                    logged: string, line: string)
    requires Account(pieces, batch, erased, buffers, current, logged)
    ensures Account(pieces, batch, erased, buffers, current + line, logged + line)
  {
    var x := LinesOf(pieces) + Flat(batch) + erased + Flat(buffers);
    assert x + (current + line) == (x + current) + line;
  }

  lemma AccountPush(pieces: seq<Piece>, batch: seq<string>, erased: string, buffers: seq<string>, current: string,
                    logged: string)
    requires Account(pieces, batch, erased, buffers, current, logged)
    ensures Account(pieces, batch, erased, buffers + [current], "", logged)
  {
    FlatSnoc(buffers, current);
    var x := LinesOf(pieces) + Flat(batch) + erased;
    assert x + (Flat(buffers) + current) + "" == (x + Flat(buffers)) + current;
  }

  lemma AccountSwap(pieces: seq<Piece>, buffers: seq<string>, current: string, logged: string)
    requires Account(pieces, [], "", buffers, current, logged)
    ensures Account(pieces, buffers + [current], "", [], "", logged)
  {
    FlatSnoc(buffers, current);
    var x := LinesOf(pieces);
    assert x + "" + "" + Flat(buffers) + current == x + (Flat(buffers) + current) + "" + "" + "";
  }

  lemma {:induction false} FlatConcat(a: seq<string>, b: seq<string>)
    ensures Flat(a + b) == Flat(a) + Flat(b)
  {
    if b == [] {
      assert a + b == a && Flat(a) + "" == Flat(a);
    } else {
      var k := |b| - 1;
      FlatConcat(a, b[..k]);
      assert (a + b)[..|a + b| - 1] == a + b[..k];
      assert Flat(a) + (Flat(b[..k]) + b[k]) == (Flat(a) + Flat(b[..k])) + b[k];
    }
  }

  lemma AccountErased(pieces: seq<Piece>, batch: seq<string>, n: nat, notice: string, buffers: seq<string>,
                      current: string, logged: string)
    requires Account(pieces, batch, "", buffers, current, logged) && n <= |batch|
    ensures Account(pieces + [Notice(notice)], batch[..n], Flat(batch[n..]), buffers, current, logged)
  {
    hide Flat, FileOf, LinesOf;
    PieceAdded(pieces, Notice(notice));
    FlatConcat(batch[..n], batch[n..]);
    assert batch[..n] + batch[n..] == batch;
    var x := LinesOf(pieces);
    assert x + "" == x && x + (Flat(batch[..n]) + Flat(batch[n..])) + "" == x + Flat(batch[..n]) + Flat(batch[n..]);
  }

  lemma FinishedPieces(pieces: seq<Piece>, batch: seq<string>, erased: string)
    ensures FileOf(Finished(pieces, batch, erased)) == FileOf(pieces) + Flat(batch)
    ensures LinesOf(Finished(pieces, batch, erased)) == LinesOf(pieces) + Flat(batch) + erased
  {
    hide Flat, FileOf, LinesOf;
    var one := pieces + [Written(Flat(batch))];
    PieceAdded(pieces, Written(Flat(batch)));
    if erased == "" {
      assert one + [] == one && LinesOf(one) + "" == LinesOf(one);
    } else {
      PieceAdded(one, Dropped(erased));
      assert FileOf(one) + "" == FileOf(one);
    }
  }

  lemma AccountWritten(pieces: seq<Piece>, batch: seq<string>, erased: string, buffers: seq<string>, current: string,
                       logged: string)
    requires Account(pieces, batch, erased, buffers, current, logged)
    ensures Account(Finished(pieces, batch, erased), [], "", buffers, current, logged)
    ensures FileOf(Finished(pieces, batch, erased)) == FileOf(pieces) + Flat(batch)
  {
    hide FileOf, LinesOf, Finished;
    FinishedPieces(pieces, batch, erased);
    var x := LinesOf(pieces) + Flat(batch) + erased;
    assert x + "" + "" == x;
  }

  /** What one batch adds: all of it, or a notice, the first two buffers and the rest as dropped. */
  ghost function BatchDone(pieces: seq<Piece>, batch: seq<string>, notice: string): (r: seq<Piece>) {
    if |batch| <= 25 then Finished(pieces, batch, "")
    else Finished(pieces + [Notice(notice)], batch[..2], Flat(batch[2..]))
  }

  /** The pieces after a batch was written and the rest of it dropped. */
  ghost function Finished(pieces: seq<Piece>, batch: seq<string>, erased: string): (r: seq<Piece>) {
    pieces + [Written(Flat(batch))] + if erased == "" then [] else [Dropped(erased)]
  }

  /** A front-end line, a swap of the back end, or the writing that follows it. */
  datatype Event = Line(line: string) | Swap | Write(notice: string)

  /** `FixedBuffer::append`: a line that does not fit is ignored. */
  function AppendTo(buffer: string, line: string): (r: string) {
    if CAPACITY - |buffer| > |line| then buffer + line else buffer
  }

  ghost function Kept(line: string): (s: string) {
    if |line| < CAPACITY then line else ""
  }

  /** The lines of the front ends, in the order of the lock. */
  ghost function LinesIn(events: seq<Event>): (s: string) {
    if events == [] then ""
    else
      var last := events[|events| - 1];
      LinesIn(events[..|events| - 1]) + if last.Line? then Kept(last.line) else ""
  }

  lemma LinesSnoc(events: seq<Event>, e: Event)
    ensures LinesIn(events + [e]) == LinesIn(events) + if e.Line? then Kept(e.line) else ""
  {
    assert (events + [e])[..|events|] == events;
  }

  class AsyncLogging {
    var currentBuffer: string
    var nextBuffer: BufferPtr
    var buffers: seq<string>
    var newBuffer1: BufferPtr
    var newBuffer2: BufferPtr
    var buffersToWrite: seq<string>
    var writing: bool               // the back end is between its swap and its next wait
    var file: string
    ghost var logged: string        // all lines shorter than a buffer, in the order of the lock
    ghost var pieces: seq<Piece>    // what became of them
    ghost var erased: string        // taken out of the batch in hand, because it was oversized

    constructor ()
      ensures Valid() && logged == file == "" && pieces == []
    {
      currentBuffer, nextBuffer, buffers, newBuffer1, newBuffer2 := "", Buffer(""), [], Buffer(""), Buffer("");
      buffersToWrite, writing, file, logged, pieces, erased := [], false, "", "", [], "";
    }

    /**
      Nothing is repeated or reordered between the front end and the file, and nothing is lost but what is
      accounted as dropped from an oversized batch; and the spare buffers are where the back end asserts
      that they are.
    */
    ghost predicate Valid()
      reads this
    {
      Sound() && erased == ""
    }

    ghost predicate Sound()
      reads this
    {
      && Account(pieces, buffersToWrite, erased, buffers, currentBuffer, logged) && file == FileOf(pieces)
      && (nextBuffer == Null ==> buffers != [])
      && (nextBuffer.Buffer? ==> nextBuffer.data == "")
      && |currentBuffer| < CAPACITY
      && (!writing ==> newBuffer1 == Buffer("") && newBuffer2 == Buffer("") && buffersToWrite == [])
      && (writing ==> newBuffer1 == Null && buffersToWrite != [])
      && (writing ==> newBuffer2 == Buffer("") || (newBuffer2 == Null && |buffersToWrite| >= 2))
    }

    /**
      A line shorter than a buffer is appended whole; a longer one is lost. A buffer is handed to the back end only
      if the line does not fit in it.
    */
    method Append(line: string)
      requires Valid()
      modifies this`currentBuffer, this`nextBuffer, this`buffers, this`logged
      ensures Valid() && logged == old(logged) + Kept(line)
      ensures |old(currentBuffer)| + |line| < CAPACITY ==>
        currentBuffer == old(currentBuffer) + line && buffers == old(buffers) && nextBuffer == old(nextBuffer)
      ensures |old(currentBuffer)| + |line| >= CAPACITY ==>
        && buffers == old(buffers) + [old(currentBuffer)] && currentBuffer == Kept(line) && nextBuffer == Null
    {
      hide Account;
      ghost var kept := Kept(line);
      if CAPACITY - |currentBuffer| > |line| {
        AccountLine(pieces, buffersToWrite, erased, buffers, currentBuffer, logged, line);
        currentBuffer := AppendTo(currentBuffer, line);
      } else {
        AccountPush(pieces, buffersToWrite, erased, buffers, currentBuffer, logged);
        AccountLine(pieces, buffersToWrite, erased, buffers + [currentBuffer], "", logged, kept);
        buffers := buffers + [currentBuffer];
        if nextBuffer != Null {
          currentBuffer, nextBuffer := nextBuffer.data, Null;
        } else {
          currentBuffer := "";
        }
        currentBuffer := AppendTo(currentBuffer, line);
        assert currentBuffer == "" + kept;
      }
      logged := logged + kept;
    }

    /** The critical section of `threadFunc`, after its wait. */
    method SwapBuffers()
      requires Valid() && !writing
      modifies this`currentBuffer, this`nextBuffer, this`buffers, this`newBuffer1, this`newBuffer2,
        this`buffersToWrite, this`writing
      ensures Valid() && writing && buffersToWrite == old(buffers) + [old(currentBuffer)] && buffers == []
        && currentBuffer == ""
      ensures nextBuffer == Buffer("")
    {
      hide Account;
      AccountSwap(pieces, buffers, currentBuffer, logged);
      buffers := buffers + [currentBuffer];
      currentBuffer, newBuffer1 := newBuffer1.data, Null;
      buffersToWrite, buffers := buffers, buffersToWrite;
      if nextBuffer == Null {
        nextBuffer, newBuffer2 := newBuffer2, Null;
      }
      writing := true;
    }

    /** An oversized batch keeps exactly its first two buffers, after a notice. */
    method DropOversized(notice: string)
      requires Valid() && writing
      modifies this`buffersToWrite, this`file, this`pieces, this`erased
      ensures Sound() && writing
      ensures |old(buffersToWrite)| <= 25 ==>
        buffersToWrite == old(buffersToWrite) && pieces == old(pieces) && erased == ""
      ensures |old(buffersToWrite)| > 25 ==>
        && buffersToWrite == old(buffersToWrite)[..2] && erased == Flat(old(buffersToWrite)[2..])
        && pieces == old(pieces) + [Notice(notice)]
    {
      hide Account, Flat, FileOf, LinesOf;
      if |buffersToWrite| > 25 {
        AccountErased(pieces, buffersToWrite, 2, notice, buffers, currentBuffer, logged);
        PieceAdded(pieces, Notice(notice));
        file := file + notice;
        pieces, erased := pieces + [Notice(notice)], Flat(buffersToWrite[2..]);
        buffersToWrite := buffersToWrite[..2];
      }
    }

    /**
      The rest of the loop of `threadFunc`: write the batch and recycle two of its buffers as spares. Of an
      oversized batch everything but the first two buffers is dropped, and nothing else.
    */
    method WriteBuffers(notice: string)
      requires Valid() && writing
      modifies this`newBuffer1, this`newBuffer2, this`buffersToWrite, this`writing, this`file, this`pieces, this`erased
      ensures Valid() && !writing
      ensures pieces == BatchDone(old(pieces), old(buffersToWrite), notice)
    {
      hide Account, Flat, FileOf, LinesOf, Finished;
      DropOversized(notice);
      AccountWritten(pieces, buffersToWrite, erased, buffers, currentBuffer, logged);
      WriteOut();
      pieces, erased := Finished(pieces, buffersToWrite, erased), "";
      ghost var _ := Recycle();
    }

    /** The last of the first two written buffers become the spares again, each one once. */
    method Recycle() returns (ghost left: nat)
      requires newBuffer1 == Null && buffersToWrite != []
      requires newBuffer2 == Buffer("") || (newBuffer2 == Null && |buffersToWrite| >= 2)
      modifies this`newBuffer1, this`newBuffer2, this`buffersToWrite, this`writing
      ensures newBuffer1 == Buffer("") && newBuffer2 == Buffer("") && buffersToWrite == [] && !writing
      ensures left + (if old(newBuffer2) == Null then 2 else 1) ==
        if |old(buffersToWrite)| > 2 then 2 else |old(buffersToWrite)|
    {
      if |buffersToWrite| > 2 {
        buffersToWrite := buffersToWrite[..2];
      }
      if newBuffer1 == Null {
        assert buffersToWrite != [];
        buffersToWrite := buffersToWrite[..|buffersToWrite| - 1];
        newBuffer1 := Buffer("");
      }
      if newBuffer2 == Null {
        assert buffersToWrite != [];
        buffersToWrite := buffersToWrite[..|buffersToWrite| - 1];
        newBuffer2 := Buffer("");
      }
      left := |buffersToWrite|;
      buffersToWrite := [];
      writing := false;
    }

    /** The loop that writes the batch, buffer by buffer. */
    method WriteOut()
      modifies this`file
      ensures file == old(file) + Flat(buffersToWrite)
    {
      for i := 0 to |buffersToWrite|
        invariant file == old(file) + Flat(buffersToWrite[..i])
      {
        assert buffersToWrite[..i + 1] == buffersToWrite[..i] + [buffersToWrite[i]];
        FlatSnoc(buffersToWrite[..i], buffersToWrite[i]);
        file := file + buffersToWrite[i];
      }
      assert buffersToWrite[..|buffersToWrite|] == buffersToWrite;
    }

    method Handle(event: Event)
      requires Valid()
      modifies this
      ensures Valid() && logged == old(logged) + if event.Line? then Kept(event.line) else ""
      ensures pieces ==
        if event.Write? && old(writing) then BatchDone(old(pieces), old(buffersToWrite), event.notice) else old(pieces)
      ensures writing == (event.Swap? || (old(writing) && !event.Write?))
      ensures event.Swap? && !old(writing) ==>
        buffersToWrite == old(buffers) + [old(currentBuffer)] && buffers == [] && currentBuffer == ""
      ensures event.Line? || (event.Swap? && old(writing)) ==> buffersToWrite == old(buffersToWrite)
    {
      match event
      case Line(line) => Append(line);
      case Swap => if !writing { SwapBuffers(); }
      case Write(notice) => if writing { WriteBuffers(notice); }
    }

    /** Every interleaving of front-end lines with the steps of the back end: what is logged is the lines. */
    method Run(events: seq<Event>)
      requires Valid()
      modifies this
      ensures Valid() && logged == old(logged) + LinesIn(events) && old(pieces) <= pieces
    {
      hide Valid, LinesIn, Kept;
      NoEvents(old(logged));
      for i := 0 to |events|
        invariant Valid() && logged == old(logged) + LinesIn(events[..i]) && old(pieces) <= pieces
      {
        assert events[..i + 1] == events[..i] + [events[i]];
        LinesSnoc(events[..i], events[i]);
        Handle(events[i]);
      }
      assert events[..|events|] == events;
    }
  }

  lemma NoEvents(logged: string)
    ensures logged + LinesIn([]) == logged
  {
  }
}
