/**
  `Session` of `memcached/server/Session.cc`: commands and values taken from a byte stream as it
  arrives. What the session does depends on the bytes, not on how the network cuts them.
*/
module Session {
  import opened ItemStore
  import opened Requests
  import opened Texts
  import MemcacheServer

  const MAX_VALUE := 1024 * 1024
  const MAX_LINE := 1024
  const MONTH := 60 * 60 * 24 * 30

  /** An item whose value is still arriving: `valuelen` bytes, CRLF included. */
  datatype Partial = Partial(item: Item, valuelen: nat, policy: Policy, noreply: bool)

  /** `Aborted` stands for the failed assertions: a missing key, a negative size. */
  datatype Mode = NewCommand | ReceiveValue(p: Partial) | DiscardValue(left: nat) | Aborted

  /** What the session asks of the connection and of the server. */
  datatype Output = Send(s: string) | ShutdownConnection | StopServer

  datatype State = State(mode: Mode, store: Store, out: seq<Output>, outputBuf: string, requests: nat, startTime: int)

  ghost predicate Good(s: State) {
    && WellStored(s.store)
    && (s.mode.ReceiveValue? ==> |s.mode.p.item.value| < s.mode.p.valuelen && s.mode.p.valuelen >= 2)
    && (s.mode.DiscardValue? ==> s.mode.left > 0)
  }

  // ----- what one request, and one value, does

  function Reply(s: State, noreply: bool, msg: string): (r: State) {
    if noreply then s else s.(out := s.out + [Send(msg)])
  }

  /** `Item::output`. */
  function Shown(item: Item, withCas: bool): (s: string)
    requires |item.value| >= 2
  {
    "VALUE " + item.key + " " + Show(item.flags) + " " + Show(|item.value| - 2)
      + (if withCas then " " + Show(item.cas) else "")
    + "\r\n" + item.value
  }

  /** The session has not asked for the end of the connection. */
  predicate Open(s: State) {
    ShutdownConnection !in s.out
  }

  /** `send` of the buffer: a connection that is to be closed does not take it, and the text stays there. */
  function SendBuffer(s: State): (r: State) {
    s.(out := s.out + [Send(s.outputBuf)], outputBuf := if Open(s) then "" else s.outputBuf)
  }

  /**
    The keys of a get, one after the other; a key that is too long ends it and leaves what was written in the
    buffer.
  */
  function DoGet(s: State, keys: seq<string>, withCas: bool, noreply: bool): (r: State)
    requires WellStored(s.store)
    decreases keys
  {
    if keys == [] then SendBuffer(s.(outputBuf := s.outputBuf + "END\r\n"))
    else if |keys[0]| > LONGEST_KEY then Reply(s, noreply, BAD_FORMAT)
    else if keys[0] in s.store.items then
      DoGet(s.(outputBuf := s.outputBuf + Shown(s.store.items[keys[0]], withCas)), keys[1..], withCas, noreply)
    else DoGet(s, keys[1..], withCas, noreply)
  }

  /** Expiration relative to the start of the server, cut to an `int` as the casts cut it. */
  function RelExptime(exptime: int, startTime: int): (e: int) {
    if exptime > MONTH then
      if ToInt(exptime - startTime) < 1 then 1 else ToInt(exptime - startTime)
    else ToInt(exptime)
  }

  /** An expiration up to a month is kept; a later one is relative to the start of the server, and at least 1. */
  lemma RelativeExpiration(exptime: int, startTime: int)
    ensures 0 <= exptime <= MONTH ==> RelExptime(exptime, startTime) == exptime
    ensures exptime > MONTH ==> RelExptime(exptime, startTime) >= 1
    ensures exptime > MONTH && -(TWO32 / 2) <= exptime - startTime < TWO32 / 2 ==>
      RelExptime(exptime, startTime) == if exptime <= startTime then 1 else exptime - startTime
  {
    var d := exptime - startTime;
    assert 0 <= d < TWO32 / 2 ==> d % TWO32 == d;
    assert -(TWO32 / 2) <= d < 0 ==> d % TWO32 == d + TWO32;
  }

  /** `bytes + 2` as an `int` that wraps around, assigned to the unsigned `bytesToDiscard_`. */
  function ToDiscard(bytes: int): (n: nat)
    ensures MAX_VALUE < bytes < TWO32 / 2 ==> n > 0 && (n == bytes + 2 <==> bytes + 2 < TWO32 / 2)
  {
    var n := ToInt(bytes + 2);
    if n >= 0 then n else n + TWO64
  }

  function DoUpdate(s: State, u: Request, noreply: bool): (r: State)
    requires u.Update?
  {
    if u.bytes > MAX_VALUE then
      var s1 := Reply(s, noreply, "SERVER_ERROR object too large for cache\r\n");
      s1.(store := DeleteItem(s.store, u.key), mode := DiscardValue(ToDiscard(u.bytes)))
    else if u.bytes < 0 then s.(mode := Aborted)
    else s.(mode := ReceiveValue(Partial(Item(u.key, u.flags, RelExptime(u.exptime, s.startTime), "", u.cas),
      u.bytes + 2, u.policy, noreply)))
  }

  /** Requests that do not look at the store. */
  function Answer(s: State, request: Request, noreply: bool): (r: State) {
    match request
    case BadUpdate => Reply(s, noreply, BAD_FORMAT)
    case BadDelete(reply) => Reply(s, noreply, reply)
    case Version => Reply(s, noreply, "VERSION 0.01 muduo\r\n")
    case Quit => s.(out := s.out + [ShutdownConnection])
    case Shutdown => s.(out := s.out + [ShutdownConnection, StopServer])
    case NoKey => s.(mode := Aborted)
    case _ => Reply(s, noreply, "ERROR\r\n")
  }

  function DoDelete(s: State, key: string, noreply: bool): (r: State) {
    Reply(s.(store := DeleteItem(s.store, key)), noreply, if key in s.store.items then "DELETED\r\n"
      else "NOT_FOUND\r\n")
  }

  /** `processRequest`. */
  function ProcessRequest(s: State, line: string): (r: State)
    requires Good(s) && s.mode == NewCommand
  {
    var noreply := HasNoreply(line);
    var s1 := s.(requests := s.requests + 1);
    var request := Parse(line);
    match request
    case Update(_, _, _, _, _, _) => DoUpdate(s1, request, noreply)
    case Get(keys, withCas) => DoGet(s1, keys, withCas, noreply)
    case Delete(key) => DoDelete(s1, key, noreply)
    case _ => Answer(s1, request, noreply)
  }

  /** The value is complete: store it and say so. */
  function Finish(s: State, p: Partial): (r: State)
    requires WellStored(s.store) && |p.item.value| >= 2
  {
    var s1 := s.(mode := NewCommand);
    if !EndsWithCRLF(p.item.value) then Reply(s1, p.noreply, "CLIENT_ERROR bad data chunk\r\n")
    else
      var stored := StoreItem(s.store, p.item, p.policy);
      Reply(s1.(store := stored.store), p.noreply,
            if stored.ok then "STORED\r\n"
            else if p.policy != Cas then "NOT_STORED\r\n"
            else if stored.existed then "EXISTS\r\n" else "NOT_FOUND\r\n")
  }

  /** `receiveValue` of bytes that the value still needs. */
  function Receive(s: State, bytes: string): (r: State)
    requires Good(s) && s.mode.ReceiveValue? && |s.mode.p.item.value| + |bytes| <= s.mode.p.valuelen
  {
    var p := s.mode.p.(item := s.mode.p.item.(value := s.mode.p.item.value + bytes));
    if |p.item.value| == p.valuelen then Finish(s, p) else s.(mode := ReceiveValue(p))
  }

  function Needed(s: State): (n: nat)
    requires s.mode.ReceiveValue? && |s.mode.p.item.value| < s.mode.p.valuelen
  {
    s.mode.p.valuelen - |s.mode.p.item.value|
  }

  function Min(a: nat, b: nat): (m: nat) {
    if a < b then a else b
  }

  lemma ProcessKeepsGood(s: State, line: string)
    requires Good(s) && s.mode == NewCommand
    ensures Good(ProcessRequest(s, line))
  {
    hide Parse, DoGet, HasNoreply;
    var request := Parse(line);
    if request.Get? {
      GetKeepsGood(s.(requests := s.requests + 1), request.keys, request.withCas, HasNoreply(line));
    }
  }

  lemma {:induction false} GetKeepsGood(s: State, keys: seq<string>, withCas: bool, noreply: bool)
    requires Good(s) && s.mode == NewCommand
    ensures var r := DoGet(s, keys, withCas, noreply); Good(r) && r.store == s.store && r.mode == NewCommand
    decreases keys
  {
    hide Shown;
    if keys != [] && |keys[0]| <= LONGEST_KEY {
      if keys[0] in s.store.items {
        GetKeepsGood(s.(outputBuf := s.outputBuf + Shown(s.store.items[keys[0]], withCas)), keys[1..], withCas,
          noreply);
      } else {
        GetKeepsGood(s, keys[1..], withCas, noreply);
      }
    }
  }

  /** The values under the keys, as a get shows them. */
  ghost function GetText(store: Store, keys: seq<string>, withCas: bool): (t: string)
    requires WellStored(store)
  {
    if keys == [] then ""
    else
      var shown := if keys[0] in store.items then Shown(store.items[keys[0]], withCas) else "";
      shown + GetText(store, keys[1..], withCas)
  }

  /**
    A get with keys of legal length sends the values of its keys after whatever an earlier get left in
    the buffer, which is then empty if the connection is open; a get with an overlong key is rejected but
    leaves the values before that key there.
  */
  lemma {:induction false} GetAnswers(s: State, keys: seq<string>, k: nat, withCas: bool, noreply: bool)
    requires WellStored(s.store) && k <= |keys|
      && (forall i :: 0 <= i < k ==> |keys[i]| <= LONGEST_KEY) && (k < |keys| ==> |keys[k]| > LONGEST_KEY)
    ensures k == |keys| ==>
      DoGet(s, keys, withCas, noreply) ==
        SendBuffer(s.(outputBuf := s.outputBuf + GetText(s.store, keys, withCas) + "END\r\n"))
    ensures k < |keys| ==>
      DoGet(s, keys, withCas, noreply) ==
        Reply(s.(outputBuf := s.outputBuf + GetText(s.store, keys[..k], withCas)), noreply, BAD_FORMAT)
    decreases keys
  {
    hide Shown, SendBuffer;
    if k == 0 {
      assert keys[..k] == [] && s.outputBuf + "" == s.outputBuf;
      assert s.(outputBuf := s.outputBuf) == s;
    } else {
      var shown := if keys[0] in s.store.items then Shown(s.store.items[keys[0]], withCas) else "";
      var s1 := s.(outputBuf := s.outputBuf + shown);
      assert shown == "" ==> s1 == s;
      GetAnswers(s1, keys[1..], k - 1, withCas, noreply);
      assert keys[..k][0] == keys[0] && keys[..k][1..] == keys[1..][..k - 1];
      assert (s.outputBuf + shown) + GetText(s.store, keys[1..], withCas) ==
        s.outputBuf + (shown + GetText(s.store, keys[1..], withCas));
      assert (s.outputBuf + shown) + GetText(s.store, keys[1..][..k - 1], withCas) ==
        s.outputBuf + (shown + GetText(s.store, keys[1..][..k - 1], withCas));
    }
  }

  /** So the answer to a get holds the values of its own keys alone exactly if nothing was left in the buffer. */
  lemma GetAnswersOwnKeys(s: State, keys: seq<string>, withCas: bool, noreply: bool)
    requires WellStored(s.store) && forall i :: 0 <= i < |keys| ==> |keys[i]| <= LONGEST_KEY
    ensures DoGet(s, keys, withCas, noreply).out == s.out + [Send(GetText(s.store, keys, withCas) + "END\r\n")] <==>
      s.outputBuf == ""
  {
    hide DoGet, GetText;
    var text := GetText(s.store, keys, withCas);
    GetAnswers(s, keys, |keys|, withCas, noreply);
    SameSuffix(s.outputBuf, text, "END\r\n");
    var a, b := s.out + [Send(s.outputBuf + text + "END\r\n")], s.out + [Send(text + "END\r\n")];
    assert a[|s.out|] == Send(s.outputBuf + text + "END\r\n") && b[|s.out|] == Send(text + "END\r\n");
  }

  lemma SameSuffix(a: string, b: string, c: string)
    ensures a + b + c == b + c <==> a == ""
  {
    assert |a + b + c| == |a| + |b + c|;
    assert "" + b == b;
  }

  lemma ReceiveKeepsGood(s: State, bytes: string)
    requires Good(s) && s.mode.ReceiveValue? && |s.mode.p.item.value| + |bytes| <= s.mode.p.valuelen
    ensures Good(Receive(s, bytes))
  {
    var item := s.mode.p.item.(value := s.mode.p.item.value + bytes);
    if EndsWithCRLF(item.value) {
      StoreKeepsWellStored(s.store, item, s.mode.p.policy);
    }
  }

  // ----- the stream

  datatype Drained = Drained(s: State, rest: string)

  /** The loop of `onMessage` on the bytes that are there: what it does, and what it leaves in the buffer. */
  function Drain(s: State, buf: string): (d: Drained)
    requires Good(s)
    ensures Good(d.s)
    decreases |buf|
  {
    if buf == "" then Drained(s, "")
    else match s.mode
      case NewCommand =>
        var i := FindCRLF(buf);
        if i < |buf| then
          ProcessKeepsGood(s, buf[..i]);
          Drain(ProcessRequest(s, buf[..i]), buf[i + 2..])
        else Drained(s, buf)
      case ReceiveValue(p) =>
        var n := Min(|buf|, Needed(s));
        ReceiveKeepsGood(s, buf[..n]);
        Drain(Receive(s, buf[..n]), buf[n..])
      case DiscardValue(left) =>
        if |buf| < left then Drained(s.(mode := DiscardValue(left - |buf|)), "")
        else Drain(s.(mode := NewCommand), buf[left..])
      case Aborted => Drained(s, buf)
  }

  /** A value received in two pieces, the first of which does not complete it. */
  lemma ReceiveInPieces(s: State, a: string, b: string)
    requires Good(s) && s.mode.ReceiveValue? && |a| < Needed(s) && |a| + |b| <= Needed(s)
    ensures Good(Receive(s, a)) && Receive(s, a).mode.ReceiveValue? && Needed(Receive(s, a)) == Needed(s) - |a|
    ensures Receive(Receive(s, a), b) == Receive(s, a + b)
  {
    ReceiveKeepsGood(s, a);
    var v := s.mode.p.item.value;
    assert (v + a) + b == v + (a + b);
  }

  /** Draining the bytes in two portions is draining them at once. */
  lemma {:induction false} DrainInPortions(s: State, a: string, b: string)
    requires Good(s)
    ensures var d := Drain(s, a); Drain(d.s, d.rest + b) == Drain(s, a + b)
    decreases |a|
  {
    if a == "" {
      DrainNothing(s);
      assert "" + b == b;
    } else {
      hide Drain, Good;
      match s.mode
      case NewCommand => DrainLineInPortions(s, a, b);
      case ReceiveValue(p) => DrainValueInPortions(s, a, b);
      case DiscardValue(left) => DrainDiscardInPortions(s, a, b);
      case Aborted => DrainAborted(s, a, b);
    }
  }

  lemma DrainNothing(s: State)
    requires Good(s)
    ensures Drain(s, "") == Drained(s, "")
  {
  }

  lemma DrainAborted(s: State, a: string, b: string)
    requires Good(s) && s.mode == Aborted
    ensures Drain(s, a) == Drained(s, a) && Drain(s, a + b) == Drained(s, a + b)
  {
  }

  lemma {:induction false} DrainLineInPortions(s: State, a: string, b: string)
    requires Good(s) && s.mode == NewCommand && a != ""
    ensures var d := Drain(s, a); Drain(d.s, d.rest + b) == Drain(s, a + b)
    decreases |a|, 0
  {
    hide ProcessRequest, Receive, Good, FindCRLF;
    var i := FindCRLF(a);
    if i < |a| {
      FindInPrefix(a, b);
      assert (a + b)[..i] == a[..i] && (a + b)[i + 2..] == a[i + 2..] + b;
      ProcessKeepsGood(s, a[..i]);
      DrainInPortions(ProcessRequest(s, a[..i]), a[i + 2..], b);
    }
  }

  lemma {:induction false} DrainValueInPortions(s: State, a: string, b: string)
    requires Good(s) && s.mode.ReceiveValue? && a != ""
    ensures var d := Drain(s, a); Drain(d.s, d.rest + b) == Drain(s, a + b)
    decreases |a|, 0
  {
    hide ProcessRequest, Receive, FindCRLF;
    var n := Needed(s);
    if |a| >= n {
      assert (a + b)[..n] == a[..n] && (a + b)[n..] == a[n..] + b;
      ReceiveKeepsGood(s, a[..n]);
      DrainInPortions(Receive(s, a[..n]), a[n..], b);
    } else {
      var k := Min(|a + b|, n);
      ReceiveInPieces(s, a, b[..k - |a|]);
      assert a[..|a|] == a && a[|a|..] == "";
      assert Drain(s, a) == Drained(Receive(s, a), "");
      assert "" + b == b;
      assert (a + b)[..k] == a + b[..k - |a|] && (a + b)[k..] == b[k - |a|..];
      if b == "" {
        assert a + b == a;
      } else {
        assert k - |a| == Min(|b|, Needed(Receive(s, a)));
      }
    }
  }

  lemma {:induction false} DrainDiscardInPortions(s: State, a: string, b: string)
    requires Good(s) && s.mode.DiscardValue? && a != ""
    ensures var d := Drain(s, a); Drain(d.s, d.rest + b) == Drain(s, a + b)
    decreases |a|, 0
  {
    hide Drain, Good;
    var left := s.mode.left;
    if |a| >= left {
      assert a == a[..left] + a[left..] && a + b == a[..left] + (a[left..] + b);
      DrainDiscarded(s, a[..left], a[left..]);
      DrainDiscarded(s, a[..left], a[left..] + b);
      DrainInPortions(s.(mode := NewCommand), a[left..], b);
    } else {
      DrainShortDiscard(s, a);
      assert "" + b == b;
      DrainMoreDiscard(s, a, b);
    }
  }

  lemma DrainDiscarded(s: State, v: string, rest: string)
    requires Good(s) && s.mode.DiscardValue? && |v| == s.mode.left
    ensures v != "" && Good(s.(mode := NewCommand)) && Drain(s, v + rest) == Drain(s.(mode := NewCommand), rest)
  {
    hide ProcessRequest, Receive, FindCRLF;
    assert (v + rest)[|v|..] == rest;
  }

  lemma DrainMoreDiscard(s: State, a: string, b: string)
    requires Good(s) && s.mode.DiscardValue? && 0 < |a| < s.mode.left
    ensures Drain(s.(mode := DiscardValue(s.mode.left - |a|)), b) == Drain(s, a + b)
  {
    hide ProcessRequest, Receive, FindCRLF;
    var left := s.mode.left;
    if b == "" {
      assert a + b == a;
    } else if |a + b| >= left {
      assert (a + b)[left..] == b[left - |a|..];
      assert s.(mode := DiscardValue(left - |a|)).(mode := NewCommand) == s.(mode := NewCommand);
    }
  }

  /** `onMessage` gives up on the connection: more than 1024 bytes and no end of line. */
  predicate TooLong(d: Drained) {
    d.s.mode == NewCommand && |d.rest| > MAX_LINE
  }

  function Closing(s: State): (r: State) {
    s.(out := s.out + [ShutdownConnection])
  }

  /** One call of `onMessage`: the loop, and the end of the connection if it stops at an overlong line. */
  function Round(s: State, buf: string): (d: Drained)
    requires Good(s)
    ensures Good(d.s)
  {
    var d := Drain(s, buf);
    if TooLong(d) then Drained(Closing(d.s), d.rest) else d
  }

  /** The session after the chunks arrived one by one, each followed by a call of `onMessage`. */
  ghost function Feed(d: Drained, chunks: seq<string>): (r: Drained)
    requires Good(d.s)
    ensures Good(r.s)
  {
    if chunks == [] then d else
      var e := Feed(d, chunks[..|chunks| - 1]);
      Round(e.s, e.rest + chunks[|chunks| - 1])
  }

  // ----- framing

  /** The session after an update line and its whole value: stored, or thrown away. */
  function AfterUpdate(s: State, line: string, v: string): (r: State)
    requires Good(s) && s.mode == NewCommand && Parse(line).Update? && Parse(line).bytes >= 0
      && |v| == Parse(line).bytes + 2
  {
    ProcessKeepsGood(s, line);
    var q := ProcessRequest(s, line);
    if q.mode.ReceiveValue? then Receive(q, v)
    else if |v| < q.mode.left then q.(mode := DiscardValue(q.mode.left - |v|))
    else q.(mode := NewCommand)
  }

  /** The largest size whose `bytes + 2` is an `int`. */
  const LARGEST_SIZE := 2147483645

  /**
    An update line followed by its value, `bytes` and a CRLF, brings the session back to a new command
    exactly at the end of the value, whether the value is stored or discarded, if and only if `bytes + 2`
    is an `int`. For the two larger sizes it goes on discarding.
  */
  lemma UpdateTakesItsValue(s: State, line: string, v: string, rest: string)
    requires Good(s) && s.mode == NewCommand && FindCRLF(line + "\r\n") == |line|
    requires Parse(line).Update? && Parse(line).bytes >= 0 && |v| == Parse(line).bytes + 2
    ensures var r := AfterUpdate(s, line, v);
      && Good(r) && Drain(s, line + "\r\n" + v + rest) == Drain(r, rest)
      && (r.mode == NewCommand <==> Parse(line).bytes <= LARGEST_SIZE)
  {
    hide Parse, FindCRLF, Finish, Good, ToDiscard;
    var head := line + "\r\n";
    var all := head + v + rest;
    FindInPrefix(head, v + rest);
    assert all == head + (v + rest);
    assert all[..|line|] == line && all[|line| + 2..] == v + rest;
    ProcessKeepsGood(s, line);
    var s1 := ProcessRequest(s, line);
    assert Drain(s, all) == Drain(s1, v + rest);
    DiscardSize(Parse(line).bytes);
    ValueDrained(s1, v, rest);
  }

  /** After an update of one of the two larger sizes the requests behind its value are not answered. */
  lemma RequestsDiscarded(s: State, line: string, v: string, rest: string)
    requires Good(s) && s.mode == NewCommand && FindCRLF(line + "\r\n") == |line|
    requires Parse(line).Update? && Parse(line).bytes > LARGEST_SIZE && |v| == Parse(line).bytes + 2
    requires |rest| < TWO64 - TWO32
    ensures var d := Drain(s, line + "\r\n" + v + rest);
      && d.rest == "" && d.s.mode.DiscardValue?
      && d.s.out == ProcessRequest(s, line).out && d.s.store == ProcessRequest(s, line).store
  {
    hide Parse, FindCRLF, Good, Drain, ProcessRequest;
    ProcessKeepsGood(s, line);
    OversizedMode(s, line);
    UpdateTakesItsValue(s, line, v, rest);
    DrainShortDiscard(AfterUpdate(s, line, v), rest);
  }

  lemma OversizedMode(s: State, line: string)
    requires Good(s) && s.mode == NewCommand && Parse(line).Update? && Parse(line).bytes > LARGEST_SIZE
    ensures ProcessRequest(s, line).mode == DiscardValue(Parse(line).bytes + 2 - TWO32 + TWO64)
  {
    hide Parse, ToDiscard;
    DiscardSize(Parse(line).bytes);
  }

  lemma DrainShortDiscard(s: State, rest: string)
    requires Good(s) && s.mode.DiscardValue? && |rest| < s.mode.left
    ensures Drain(s, rest) == Drained(s.(mode := DiscardValue(s.mode.left - |rest|)), "")
  {
  }

  lemma DiscardSize(bytes: int)
    requires -(TWO32 / 2) <= bytes < TWO32 / 2
    ensures bytes > MAX_VALUE ==>
      ToDiscard(bytes) == bytes + 2 + if bytes <= LARGEST_SIZE then 0 else TWO64 - TWO32
  {
  }

  lemma ValueDrained(s: State, v: string, rest: string)
    requires Good(s) && v != "" && (s.mode.ReceiveValue? || s.mode.DiscardValue?)
    requires if s.mode.ReceiveValue? then |v| == Needed(s) else |v| <= s.mode.left
    ensures var r :=
        if s.mode.ReceiveValue? then Receive(s, v)
        else if |v| < s.mode.left then s.(mode := DiscardValue(s.mode.left - |v|))
        else s.(mode := NewCommand);
      && Good(r) && Drain(s, v + rest) == Drain(r, rest)
      && (r.mode == NewCommand <==> s.mode.ReceiveValue? || |v| == s.mode.left)
  {
    hide ProcessRequest, FindCRLF;
    assert (v + rest)[..|v|] == v && (v + rest)[|v|..] == rest;
    if s.mode.ReceiveValue? {
      ReceiveKeepsGood(s, v);
    } else if |v| < s.mode.left {
      DrainMoreDiscard(s, v, rest);
    }
  }

  lemma GoodAfterDiscard(s: State)
    requires Good(s) && s.mode.DiscardValue?
    ensures Good(s.(mode := NewCommand)) && s.mode.left > 0
  {
  }

  lemma GoodWhileDiscarding(s: State, n: nat)
    requires Good(s) && s.mode.DiscardValue? && n > 0
    ensures Good(s.(mode := DiscardValue(n)))
  {
  }

  lemma NeededPositive(s: State)
    requires Good(s) && s.mode.ReceiveValue?
    ensures |s.mode.p.item.value| < s.mode.p.valuelen
  {
  }

  // ----- the session object

  class Session {
    const server: MemcacheServer.MemcacheServer
    const startTime: int
    var mode: Mode
    var out: seq<Output>
    var outputBuf: string
    var requestsProcessed: nat
    var input: string            // the input buffer of the connection
    var bytesRead: nat

    constructor (owner: MemcacheServer.MemcacheServer, start: int)
      requires owner.Valid()
      ensures Valid() && server == owner && startTime == start && input == "" && bytesRead == 0
      ensures Abs() == State(NewCommand, owner.view, [], "", 0, startTime)
    {
      server, startTime := owner, start;
      mode, out, outputBuf, requestsProcessed, input, bytesRead := NewCommand, [], "", 0, "", 0;
    }

    ghost function Abs(): (s: State)
      reads this, server
    {
      State(mode, server.view, out, outputBuf, requestsProcessed, startTime)
    }

    ghost predicate Valid()
      reads this, server, server.shards
    {
      server.Valid() && Good(Abs())
    }

    method SendReply(noreply: bool, msg: string)
      modifies this`out
      ensures Abs() == Reply(old(Abs()), noreply, msg)
    {
      if !noreply {
        out := out + [Send(msg)];
      }
    }

    method ReceiveValueFrom(n: nat)
      requires Valid() && mode.ReceiveValue? && n == Min(|input|, Needed(Abs()))
      modifies this`mode, this`out, this`input, server`gCas, server`view, server.shards
      ensures Valid() && Abs() == Receive(old(Abs()), old(input)[..n]) && input == old(input)[n..]
    {
      ReceiveKeepsGood(Abs(), input[..n]);
      var p := mode.p.(item := mode.p.item.(value := mode.p.item.value + input[..n]));
      input := input[n..];
      if |p.item.value| == p.valuelen {
        FinishValue(p);
      } else {
        mode := ReceiveValue(p);
      }
    }

    method FinishValue(p: Partial)
      requires server.Valid() && |p.item.value| >= 2
      modifies this`mode, this`out, server`gCas, server`view, server.shards
      ensures server.Valid() && Abs() == Finish(old(Abs()), p)
    {
      mode := NewCommand;
      if EndsWithCRLF(p.item.value) {
        var ok, existed := server.StoreItem(p.item, p.policy);
        if ok {
          SendReply(p.noreply, "STORED\r\n");
        } else if p.policy == Cas {
          if existed {
            SendReply(p.noreply, "EXISTS\r\n");
          } else {
            SendReply(p.noreply, "NOT_FOUND\r\n");
          }
        } else {
          SendReply(p.noreply, "NOT_STORED\r\n");
        }
      } else {
        SendReply(p.noreply, "CLIENT_ERROR bad data chunk\r\n");
      }
    }

    method Gets(keys: seq<string>, withCas: bool, noreply: bool)
      requires server.Valid()
      modifies this`out, this`outputBuf
      ensures server.Valid() && Abs() == DoGet(old(Abs()), keys, withCas, noreply)
    {
      hide Shown;
      var i := 0;
      while i < |keys|
        invariant 0 <= i <= |keys| && out == old(out)
        invariant DoGet(Abs(), keys[i..], withCas, noreply) == DoGet(old(Abs()), keys, withCas, noreply)
      {
        assert keys[i..][0] == keys[i] && keys[i..][1..] == keys[i + 1..];
        if |keys[i]| > LONGEST_KEY {
          SendReply(noreply, BAD_FORMAT);
          return;
        }
        var item := server.GetItem(keys[i]);
        if item.Some? {
          outputBuf := outputBuf + Shown(item.value, withCas);
        }
        i := i + 1;
      }
      assert keys[i..] == [];
      outputBuf := outputBuf + "END\r\n";
      var open := ShutdownConnection !in out;
      out := out + [Send(outputBuf)];
      if open {
        outputBuf := "";
      }
    }

    method ProcessLine(line: string)
      requires Valid() && mode == NewCommand
      modifies this`mode, this`out, this`outputBuf, this`requestsProcessed, server`view, server.shards
      ensures Valid() && Abs() == ProcessRequest(old(Abs()), line)
    {
      ProcessKeepsGood(Abs(), line);
      hide Parse, HasNoreply, DoGet, DoDelete, DoUpdate, Answer, Good, MemcacheServer.MemcacheServer.Valid;
      var noreply := HasNoreply(line);
      requestsProcessed := requestsProcessed + 1;
      var request := Parse(line);
      match request
      case Update(_, _, _, _, _, _) => Updates(request, noreply);
      case Get(keys, withCas) => Gets(keys, withCas, noreply);
      case Delete(key) => Deletes(key, noreply);
      case _ => AnswerRequest(request, noreply);
    }

    method Deletes(key: string, noreply: bool)
      requires server.Valid()
      modifies this`out, server`view, server.shards
      ensures server.Valid() && Abs() == DoDelete(old(Abs()), key, noreply)
    {
      var deleted := server.DeleteItem(key);
      if deleted {
        SendReply(noreply, "DELETED\r\n");
      } else {
        SendReply(noreply, "NOT_FOUND\r\n");
      }
    }

    method AnswerRequest(request: Request, noreply: bool)
      modifies this`mode, this`out
      ensures Abs() == Answer(old(Abs()), request, noreply)
    {
      match request
      case BadUpdate => SendReply(noreply, BAD_FORMAT);
      case BadDelete(reply) => SendReply(noreply, reply);
      case Version => SendReply(noreply, "VERSION 0.01 muduo\r\n");
      case Quit => out := out + [ShutdownConnection];
      case Shutdown => out := out + [ShutdownConnection, StopServer];
      case NoKey => mode := Aborted;
      case _ => SendReply(noreply, "ERROR\r\n");
    }

    method Updates(u: Request, noreply: bool)
      requires server.Valid() && u.Update?
      modifies this`mode, this`out, server`view, server.shards
      ensures server.Valid() && Abs() == DoUpdate(old(Abs()), u, noreply)
    {
      if u.bytes > MAX_VALUE {
        SendReply(noreply, "SERVER_ERROR object too large for cache\r\n");
        var _ := server.DeleteItem(u.key);
        mode := DiscardValue(ToDiscard(u.bytes));
      } else if u.bytes < 0 {
        mode := Aborted;
      } else {
        mode := ReceiveValue(Partial(Item(u.key, u.flags, RelExptime(u.exptime, startTime), "", u.cas), u.bytes + 2,
          u.policy, noreply));
      }
    }

    /** The loop of `onMessage`; whether it stopped at an overlong line. */
    method DrainInput() returns (overlong: bool)
      requires Valid()
      modifies this`mode, this`out, this`outputBuf, this`requestsProcessed, this`input, server, server.shards
      ensures Valid() && Drained(Abs(), input) == Drain(old(Abs()), old(input)) && |input| <= |old(input)|
      ensures overlong <==> TooLong(Drained(Abs(), input))
    {
      hide Good, ProcessRequest, Receive;
      overlong := false;
      while |input| > 0
        invariant Valid() && |input| <= |old(input)| && !overlong
        invariant Drain(Abs(), input) == Drain(old(Abs()), old(input))
        decreases |input|
      {
        match mode
        case NewCommand =>
          var i := FindCRLF(input);
          if i < |input| {
            ProcessLine(input[..i]);
            input := input[i + 2..];
          } else {
            overlong := |input| > MAX_LINE;
            break;
          }
        case ReceiveValue(p) =>
          NeededPositive(Abs());
          var n := Min(|input|, p.valuelen - |p.item.value|);
          ReceiveValueFrom(n);
        case DiscardValue(left) =>
          GoodAfterDiscard(Abs());
          if |input| < left {
            GoodWhileDiscarding(Abs(), left - |input|);
            mode := DiscardValue(left - |input|);
            input := "";
          } else {
            input := input[left..];
            mode := NewCommand;
          }
        case Aborted => break;
      }
    }

    /** `onMessage` after `chunk` was appended to the input buffer. */
    method OnMessage(chunk: string)
      requires Valid()
      modifies this, server, server.shards
      ensures Valid() && Drained(Abs(), input) == Round(old(Abs()), old(input) + chunk)
      ensures bytesRead + |input| == old(bytesRead) + |old(input)| + |chunk|
    {
      hide Drain;
      input := input + chunk;
      var initialReadable := |input|;
      var overlong := DrainInput();
      if overlong {
        out := out + [ShutdownConnection];
      }
      bytesRead := bytesRead + (initialReadable - |input|);
    }
  }
}
