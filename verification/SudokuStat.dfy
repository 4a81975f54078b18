/**
  `SudokuStat` of `sudoku/stat.h`: two ring buffers of 60 seconds against the whole history of responses.
*/
module SudokuStat {

  const SECONDS := 60
  const MICROSECONDS := 1000 * 1000

  /** A response with non-negative latency: the second it was sent in, and its latency. */
  datatype Response = Response(second: int, elapsed: nat)

  ghost function Count(h: seq<Response>, second: int): (n: nat) {
    if h == [] then 0 else
      Count(h[..|h| - 1], second) + if h[|h| - 1].second == second then 1 else 0
  }

  ghost function Sum(h: seq<Response>, second: int): (n: nat) {
    if h == [] then 0 else
      Sum(h[..|h| - 1], second) + if h[|h| - 1].second == second then h[|h| - 1].elapsed else 0
  }

  lemma Recorded(h: seq<Response>, r: Response, second: int)
    ensures Count(h + [r], second) == Count(h, second) + if r.second == second then 1 else 0
    ensures Sum(h + [r], second) == Sum(h, second) + if r.second == second then r.elapsed else 0
  {
    assert (h + [r])[..|h|] == h;
  }

  /** Nothing happened in a second after all responses. */
  lemma {:induction false} NothingLater(h: seq<Response>, last: int, second: int)
    requires (forall i :: 0 <= i < |h| ==> h[i].second <= last) && second > last
    ensures Count(h, second) == 0 && Sum(h, second) == 0
  {
    if h != [] {
      NothingLater(h[..|h| - 1], last, second);
    }
  }

  function Max(a: int, b: int): (m: int) {
    if a < b then b else a
  }

  /** `push_back` of a full circular buffer overwrites the front. */
  function PushBack(s: seq<int>, x: int): (r: seq<int>)
    requires |s| <= SECONDS
    ensures |r| <= SECONDS && r != []
  {
    if |s| == SECONDS then s[1..] + [x] else s + [x]
  }

  /** The buffers hold the counts and sums of the seconds up to `last`. */
  ghost predicate Windows(h: seq<Response>, last: int, requests: seq<int>, latencies: seq<int>) {
    && |requests| == |latencies| <= SECONDS
    && (forall i :: 0 <= i < |h| ==> 0 < h[i].second <= last)
    && forall i :: 0 <= i < |requests| ==>
      requests[i] == Count(h, last - |requests| + 1 + i) && latencies[i] == Sum(h, last - |requests| + 1 + i)
  }

  /** A second passes in which nothing has happened yet. */
  lemma Passed(h: seq<Response>, last: int, requests: seq<int>, latencies: seq<int>)
    requires Windows(h, last, requests, latencies)
    ensures Windows(h, last + 1, PushBack(requests, 0), PushBack(latencies, 0))
  {
    NothingLater(h, last, last + 1);
    var requests', latencies' := PushBack(requests, 0), PushBack(latencies, 0);
    var first, first' := last - |requests| + 1, last + 1 - |requests'| + 1;
    forall i | 0 <= i < |requests'|
      ensures requests'[i] == Count(h, first' + i) && latencies'[i] == Sum(h, first' + i)
    {
      if i < |requests'| - 1 {
        assert first' + i == first + (first' - first + i);
        assert requests'[i] == requests[first' - first + i];
        assert latencies'[i] == latencies[first' - first + i];
      }
    }
  }

  /** A response in the window is added to its second. */
  lemma AddedAt(h: seq<Response>, last: int, requests: seq<int>, latencies: seq<int>, k: nat, elapsed: nat)
    requires Windows(h, last, requests, latencies) && k < |requests| && last - |requests| + 1 + k > 0
    ensures Windows(h + [Response(last - |requests| + 1 + k, elapsed)], last, requests[k := requests[k] + 1],
      latencies[k := latencies[k] + elapsed])
  {
    var first := last - |requests| + 1;
    var requests', latencies' := requests[k := requests[k] + 1], latencies[k := latencies[k] + elapsed];
    forall i | 0 <= i < |requests|
      ensures requests'[i] == Count(h + [Response(first + k, elapsed)], first + i)
      ensures latencies'[i] == Sum(h + [Response(first + k, elapsed)], first + i)
    {
      Recorded(h, Response(first + k, elapsed), first + i);
    }
  }

  /** A response before the window changes nothing in it. */
  lemma Discarded(h: seq<Response>, last: int, requests: seq<int>, latencies: seq<int>, r: Response)
    requires Windows(h, last, requests, latencies) && 0 < r.second < last - |requests| + 1
    ensures Windows(h + [r], last, requests, latencies)
  {
    forall i | 0 <= i < |requests|
      ensures requests[i] == Count(h + [r], last - |requests| + 1 + i)
        && latencies[i] == Sum(h + [r], last - |requests| + 1 + i)
    {
      Recorded(h, r, last - |requests| + 1 + i);
    }
  }

  /** The window starts again at a later second. */
  lemma Restarted(h: seq<Response>, last: int, requests: seq<int>, latencies: seq<int>, second: int)
    requires Windows(h, last, requests, latencies) && second > last
    ensures Windows(h, second, [0], [0])
  {
    NothingLater(h, last, second);
  }

  // ----- the sums of the report

  ghost function CountIn(h: seq<Response>, from: int, to: int): (n: nat) {
    if h == [] then 0 else
      CountIn(h[..|h| - 1], from, to) + if from <= h[|h| - 1].second < to then 1 else 0
  }

  ghost function SumIn(h: seq<Response>, from: int, to: int): (n: nat) {
    if h == [] then 0 else
      SumIn(h[..|h| - 1], from, to) + if from <= h[|h| - 1].second < to then h[|h| - 1].elapsed else 0
  }

  lemma {:induction false} OneMoreSecond(h: seq<Response>, from: int, to: int)
    requires from <= to
    ensures CountIn(h, from, to + 1) == CountIn(h, from, to) + Count(h, to)
    ensures SumIn(h, from, to + 1) == SumIn(h, from, to) + Sum(h, to)
  {
    if h != [] {
      OneMoreSecond(h[..|h| - 1], from, to);
    }
  }

  lemma {:induction false} EmptyWindow(h: seq<Response>, from: int)
    ensures CountIn(h, from, from) == 0 && SumIn(h, from, from) == 0
  {
    if h != [] {
      EmptyWindow(h[..|h| - 1], from);
    }
  }

  class SudokuStat {
    var lastSecond: int
    var requests: seq<int>
    var latencies: seq<int>
    var totalRequests: int
    var totalResponses: int
    var totalSolved: int
    var badRequests: int
    var droppedRequests: int
    var totalLatency: int
    var badLatency: int
    ghost var history: seq<Response>   // since the last reset

    constructor ()
      ensures Valid() && history == [] && droppedRequests == 0
    {
      lastSecond, requests, latencies := 0, [], [];
      totalRequests, totalResponses, totalSolved, badRequests, droppedRequests, totalLatency, badLatency :=
        0, 0, 0, 0, 0, 0, 0;
      history := [];
    }

    ghost function FirstSecond(): (s: int)
      reads this
    {
      lastSecond - |requests| + 1
    }

    ghost predicate Valid()
      reads this
    {
      && Windows(history, lastSecond, requests, latencies)
      && (lastSecond == 0 <==> requests == []) && FirstSecond() >= 1
      && (lastSecond == 0 ==> history == []) && lastSecond >= 0
    }

    /**
      The window reaches the latest second. It starts again only after a reset or a jump of its whole length;
      otherwise it starts where it did, or 59 seconds before its end.
    */
    ghost predicate Moved(second: int, last: int, first: int)
      reads this
    {
      && lastSecond == Max(last, second)
      && FirstSecond() == if last == 0 || second >= last + SECONDS then second
        else Max(first, lastSecond - SECONDS + 1)
    }

    /** Every cell of the window is right after each response, however the clock jumps; the window never moves back. */
    method RecordResponse(now: int, receive: int, solved: bool)
      requires Valid() && now >= MICROSECONDS
      modifies this
      ensures Valid() && FirstSecond() >= old(FirstSecond())
      ensures now >= receive ==> Moved(now / MICROSECONDS, old(lastSecond), old(FirstSecond()))
      ensures now < receive ==> unchanged(`lastSecond) && unchanged(`requests) && unchanged(`latencies)
      ensures history == if now < receive then old(history)
        else old(history) + [Response(now / MICROSECONDS, now - receive)]
      ensures totalResponses == old(totalResponses) + 1 && totalSolved == old(totalSolved) + if solved then 1 else 0
      ensures now < receive ==> badLatency == old(badLatency) + 1 && totalLatency == old(totalLatency)
      ensures now >= receive ==> badLatency == old(badLatency) && totalLatency == old(totalLatency) + (now - receive)
    {
      var second := now / MICROSECONDS;
      var elapsed := now - receive;
      totalResponses := totalResponses + 1;
      if solved {
        totalSolved := totalSolved + 1;
      }
      if elapsed < 0 {
        badLatency := badLatency + 1;
        return;
      }
      totalLatency := totalLatency + elapsed;
      Place(second, elapsed);
    }

    method Place(second: int, elapsed: nat)
      requires Valid() && second > 0
      modifies this`lastSecond, this`requests, this`latencies, this`history
      ensures Valid() && FirstSecond() >= old(FirstSecond()) && history == old(history) + [Response(second, elapsed)]
      ensures Moved(second, old(lastSecond), old(FirstSecond()))
    {
      hide Windows;
      WindowSizes(history, lastSecond, requests, latencies);
      var firstSecond := lastSecond - |requests| + 1;
      if lastSecond == second {
        AddAt(|requests| - 1, elapsed);
      } else if lastSecond + 1 == second || lastSecond == 0 {
        if lastSecond == 0 {
          FirstWindow(second);
        } else {
          Passed(history, lastSecond, requests, latencies);
        }
        lastSecond := second;
        requests := PushBack(requests, 0);
        latencies := PushBack(latencies, 0);
        AddAt(|requests| - 1, elapsed);
      } else if second > lastSecond {
        if second < lastSecond + SECONDS {
          CatchUp(second);
        } else {
          Restarted(history, lastSecond, requests, latencies, second);
          requests := [0];
          latencies := [0];
          lastSecond := second;
        }
        AddAt(|requests| - 1, elapsed);
      } else if second >= firstSecond {
        AddAt(second - firstSecond, elapsed);
      } else {
        Discarded(history, lastSecond, requests, latencies, Response(second, elapsed));
        history := history + [Response(second, elapsed)];
      }
    }

    method AddAt(k: nat, elapsed: nat)
      requires Windows(history, lastSecond, requests, latencies) && k < |requests| && FirstSecond() >= 1
      modifies this`requests, this`latencies, this`history
      ensures Windows(history, lastSecond, requests, latencies) && |requests| == |old(requests)|
      ensures history == old(history) + [Response(old(FirstSecond()) + k, elapsed)]
    {
      AddedAt(history, lastSecond, requests, latencies, k, elapsed);
      history := history + [Response(FirstSecond() + k, elapsed)];
      requests := requests[k := requests[k] + 1];
      latencies := latencies[k := latencies[k] + elapsed];
    }

    /** The loop that lets the seconds up to `second` pass. */
    method CatchUp(second: int)
      requires Windows(history, lastSecond, requests, latencies) && lastSecond < second && |requests| <= SECONDS
      modifies this`lastSecond, this`requests, this`latencies
      ensures Windows(history, lastSecond, requests, latencies) && lastSecond == second && requests != []
      ensures FirstSecond() == Max(old(FirstSecond()), second - SECONDS + 1)
    {
      while lastSecond < second
        invariant Windows(history, lastSecond, requests, latencies) && lastSecond <= second
        invariant lastSecond > old(lastSecond) ==> requests != []
        invariant FirstSecond() == Max(old(FirstSecond()), lastSecond - SECONDS + 1)
      {
        Passed(history, lastSecond, requests, latencies);
        requests := PushBack(requests, 0);
        latencies := PushBack(latencies, 0);
        lastSecond := lastSecond + 1;
      }
    }

    /** The window sums of `report`: all responses since the reset that fall into the seconds of the window. */
    method WindowSums() returns (requests60s: int, latency60s: int)
      requires Valid()
      ensures requests60s == CountIn(history, FirstSecond(), lastSecond + 1)
      ensures latency60s == SumIn(history, FirstSecond(), lastSecond + 1)
    {
      requests60s, latency60s := 0, 0;
      EmptyWindow(history, FirstSecond());
      for i := 0 to |requests|
        invariant requests60s == CountIn(history, FirstSecond(), FirstSecond() + i)
        invariant latency60s == SumIn(history, FirstSecond(), FirstSecond() + i)
      {
        OneMoreSecond(history, FirstSecond(), FirstSecond() + i);
        requests60s := requests60s + requests[i];
        latency60s := latency60s + latencies[i];
      }
    }

    /** `reset` forgets everything but the dropped requests. */
    method Reset()
      modifies this
      ensures Valid() && history == [] && totalResponses == totalSolved == totalRequests == badRequests == 0
      ensures totalLatency == badLatency == 0 && requests == latencies == []
      ensures droppedRequests == old(droppedRequests)
    {
      lastSecond, requests, latencies := 0, [], [];
      totalRequests, totalResponses, totalSolved, badRequests, totalLatency, badLatency := 0, 0, 0, 0, 0, 0;
      history := [];
    }
  }

  lemma WindowSizes(h: seq<Response>, last: int, requests: seq<int>, latencies: seq<int>)
    requires Windows(h, last, requests, latencies)
    ensures |requests| == |latencies| <= SECONDS
  {
  }

  lemma FirstWindow(second: int)
    ensures Windows([], second, [0], [0])
  {
  }
}
