/**
  What a get of `memcached/server/Session.cc` leaves in `outputBuf_`, and what a later get then sends.
  A client can tell from its requests when that happens.
*/
module LeftOvers {
  import opened ItemStore
  import opened Requests
  import opened RequestLines
  import opened Texts
  import opened Session
  import opened SetThenGet

  /** The place of the first key that is too long, or the number of keys. */
  function FirstLong(keys: seq<string>): (k: nat)
    ensures k <= |keys| && (forall i :: 0 <= i < k ==> |keys[i]| <= LONGEST_KEY)
    ensures k < |keys| ==> |keys[k]| > LONGEST_KEY
  {
    if keys == [] || |keys[0]| > LONGEST_KEY then 0 else
      var k := FirstLong(keys[1..]);
      k + 1
  }

  /** A get that is refused for a key that is too long, after a key that is stored. */
  ghost predicate RefusedAfterValue(store: Store, request: Request) {
    && request.Get? && FirstLong(request.keys) < |request.keys|
    && exists j :: 0 <= j < FirstLong(request.keys) && request.keys[j] in store.items
  }

  lemma {:induction false} TextOfStored(store: Store, keys: seq<string>, withCas: bool)
    requires WellStored(store)
    ensures GetText(store, keys, withCas) != "" <==> exists j :: 0 <= j < |keys| && keys[j] in store.items
  {
    if keys != [] {
      TextOfStored(store, keys[1..], withCas);
      if exists j :: 0 <= j < |keys[1..]| && keys[1..][j] in store.items {
        var j :| 0 <= j < |keys[1..]| && keys[1..][j] in store.items;
        assert keys[j + 1] in store.items;
      }
      if exists j :: 0 < j < |keys| && keys[j] in store.items {
        var j :| 0 < j < |keys| && keys[j] in store.items;
        assert keys[1..][j - 1] in store.items;
      }
    }
  }

  /** What every request leaves in the buffer. */
  lemma BufferAfter(s: State, line: string)
    requires Good(s) && s.mode == NewCommand
    ensures var r, request := ProcessRequest(s, line), Parse(line);
      r.outputBuf ==
        if !request.Get? then s.outputBuf
        else if FirstLong(request.keys) == |request.keys| then
          if Open(s) then "" else s.outputBuf + GetText(s.store, request.keys, request.withCas) + "END\r\n"
        else s.outputBuf + GetText(s.store, request.keys[..FirstLong(request.keys)], request.withCas)
  {
    hide Parse, HasNoreply, DoGet, GetText;
    var request := Parse(line);
    if request.Get? {
      GetAnswers(s.(requests := s.requests + 1), request.keys, FirstLong(request.keys), request.withCas,
        HasNoreply(line));
    }
  }

  /** A get that the connection does not take any more, or one that is refused after a value. */
  ghost predicate LeavingGet(s: State, request: Request) {
    RefusedAfterValue(s.store, request)
    || (request.Get? && FirstLong(request.keys) == |request.keys| && !Open(s))
  }

  /** From an empty buffer, exactly such a get leaves something behind. */
  lemma LeavesSomething(s: State, line: string)
    requires Good(s) && s.mode == NewCommand && s.outputBuf == ""
    ensures ProcessRequest(s, line).outputBuf != "" <==> LeavingGet(s, Parse(line))
  {
    hide Parse, ProcessRequest, GetText, WellStored;
    BufferAfter(s, line);
    var request := Parse(line);
    if request.Get? {
      TextBeforeLong(s.store, request.keys, request.withCas);
    }
  }

  lemma TextBeforeLong(store: Store, keys: seq<string>, withCas: bool)
    requires WellStored(store)
    ensures var k := FirstLong(keys);
      "" + GetText(store, keys[..k], withCas) != "" <==> exists j :: 0 <= j < k && keys[j] in store.items
  {
    hide GetText, WellStored, FirstLong;
    var k := FirstLong(keys);
    var first := keys[..k];
    TextOfStored(store, first, withCas);
    assert "" + GetText(store, first, withCas) == GetText(store, first, withCas);
    assert forall j :: 0 <= j < k ==> first[j] == keys[j];
  }

  /** Values do not touch the buffer. */
  lemma ValueKeepsBuffer(s: State, bytes: string)
    requires Good(s) && s.mode.ReceiveValue? && |s.mode.p.item.value| + |bytes| <= s.mode.p.valuelen
    ensures Receive(s, bytes).outputBuf == s.outputBuf
  {
  }

  /** No request in the stream is such a get. */
  ghost predicate Clean(s: State, buf: string)
    requires Good(s)
    decreases |buf|
  {
    buf == "" ||
    match s.mode
    case NewCommand =>
      var i := FindCRLF(buf);
      if i == |buf| then true
      else
        ProcessKeepsGood(s, buf[..i]);
        !LeavingGet(s, Parse(buf[..i])) && Clean(ProcessRequest(s, buf[..i]), buf[i + 2..])
    case ReceiveValue(p) =>
      var n := Min(|buf|, Needed(s));
      ReceiveKeepsGood(s, buf[..n]);
      Clean(Receive(s, buf[..n]), buf[n..])
    case DiscardValue(left) => |buf| < left || Clean(s.(mode := NewCommand), buf[left..])
    case Aborted => true
  }

  /** After a stream without such gets the buffer is empty, so the next get answers with its own keys alone. */
  lemma {:induction false} CleanStreams(s: State, buf: string)
    requires Good(s) && s.outputBuf == "" && Clean(s, buf)
    ensures Drain(s, buf).s.outputBuf == ""
    decreases |buf|
  {
    hide ProcessRequest, Receive, FindCRLF, Parse, LeavingGet;
    if buf != "" {
      match s.mode
      case NewCommand =>
        var i := FindCRLF(buf);
        if i < |buf| {
          ProcessKeepsGood(s, buf[..i]);
          LeavesSomething(s, buf[..i]);
          CleanStreams(ProcessRequest(s, buf[..i]), buf[i + 2..]);
        }
      case ReceiveValue(p) =>
        var n := Min(|buf|, Needed(s));
        ReceiveKeepsGood(s, buf[..n]);
        ValueKeepsBuffer(s, buf[..n]);
        CleanStreams(Receive(s, buf[..n]), buf[n..]);
      case DiscardValue(left) =>
        if |buf| >= left {
          CleanStreams(s.(mode := NewCommand), buf[left..]);
        }
      case Aborted =>
    }
  }

  // ----- an input that reaches it

  const NEW_STORE := Store(map[], 0)

  /** A session as it starts, with an empty store. */
  function NewSession(startTime: int): (s: State)
    ensures Good(s)
  {
    State(NewCommand, NEW_STORE, [], "", 0, startTime)
  }

  lemma LineThen(s: State, line: string, rest: string)
    requires Good(s) && s.mode == NewCommand && NoLineEnd(line)
    ensures Good(ProcessRequest(s, line)) && Drain(s, line + "\r\n" + rest) == Drain(ProcessRequest(s, line), rest)
  {
    hide ProcessRequest, FindCRLF, Good, Drain;
    LineEnds(line);
    ProcessKeepsGood(s, line);
    DrainLine(s, line);
    DrainInPortions(s, line + "\r\n", rest);
    assert "" + rest == rest;
  }

  /** A get of two keys, the second of them too long. */
  lemma ParseLongGet(key: string, long: string)
    requires IsKey(key) && IsKey(long) && |long| > LONGEST_KEY && NoLineEnd(key) && NoLineEnd(long)
    ensures var line := Joined(["get", key, long]);
      Parse(line) == Get([key, long], false) && !HasNoreply(line) && NoLineEnd(line)
  {
    var words := ["get", key, long];
    var line := Joined(words);
    assert IsKey("get") && NoLineEnd("get");
    hide Tokens, Joined, ParseUpdate, ParseDelete, IsKey, NoLineEnd;
    TokensOfJoined(words);
    JoinedNoLineEnd(words);
    LongTail(key, long);
    assert words[1..] == [key, long];
  }

  lemma LongTail(key: string, long: string)
    requires IsKey(long) && |long| > LONGEST_KEY
    ensures !HasNoreply(Joined(["get", key, long]))
  {
    var line := Joined(["get", key, long]);
    var words := ["get", key, long];
    assert words[1..] == [key, long] && [key, long][1..] == [long];
    JoinedMore(words);
    JoinedMore([key, long]);
    assert Joined([long]) == long;
    hide Joined;
    var tail := key + " " + long;
    assert line == "get" + " " + tail;
    assert line[|line| - 8..][0] == long[|long| - 8];
  }

  /** A set of a key, a get of it with an overlong key after it, and a get of another key. */
  function LeakingRequests(u: Request, value: string, long: string, other: string): (bytes: string)
    requires Fits(u)
  {
    UpdateLine(u, false) + "\r\n" + (value + "\r\n")
      + (Joined(["get", u.key, long]) + "\r\n" + ("get " + other + "\r\n"))
  }

  /** The last get, of a key that is not stored, is answered with the value of the set. */
  lemma LeftOverIsSent(startTime: int, u: Request, value: string, long: string, other: string)
    requires Fits(u) && u.policy == Set && NoLineEnd(u.key) && u.bytes == |value| <= MAX_VALUE
    requires IsKey(long) && NoLineEnd(long) && |long| > LONGEST_KEY
    requires IsKey(other) && NoLineEnd(other) && |other| <= LONGEST_KEY && other != u.key
    ensures Drain(NewSession(startTime), LeakingRequests(u, value, long, other)).s.out
      == [Send("STORED\r\n"), Send(BAD_FORMAT), Send(ValueText(u, value + "\r\n"))]
  {
    hide Drain, AfterUpdate, ProcessRequest, Parse, HasNoreply, FindCRLF, UpdateLine, Joined, IsKey, NoLineEnd,
      ValueText, Shown;
    var s := NewSession(startTime);
    var line, v := UpdateLine(u, false), value + "\r\n";
    var long' := Joined(["get", u.key, long]);
    var rest := long' + "\r\n" + ("get " + other + "\r\n");
    ParseUpdateLine(u, false);
    UpdateLineEnds(u, false);
    UpdateTakesItsValue(s, line, v, rest);
    SetStores(s, line, v);
    var s1 := AfterUpdate(s, line, v);
    ParseLongGet(u.key, long);
    LineThen(s1, long', "get " + other + "\r\n");
    LongGetLeaves(s1, u.key, long);
    var s2 := ProcessRequest(s1, long');
    OtherGet(s2, other);
    SentTogether(s1, u, v);
    assert s1.out == [Send("STORED\r\n")];
  }

  lemma LongGetLeaves(s: State, key: string, long: string)
    requires Good(s) && s.mode == NewCommand && s.outputBuf == "" && key in s.store.items
      && |key| <= LONGEST_KEY < |long|
    requires var line := Joined(["get", key, long]); Parse(line) == Get([key, long], false) && !HasNoreply(line)
    ensures var r := ProcessRequest(s, Joined(["get", key, long]));
      && r.out == s.out + [Send(BAD_FORMAT)] && r.outputBuf == Shown(s.store.items[key], false)
      && r.store == s.store && r.mode == NewCommand
  {
    hide Parse, HasNoreply, Joined, Shown, DoGet;
    var s1 := s.(requests := s.requests + 1);
    GetAnswers(s1, [key, long], 1, false, false);
    assert [key, long][..1] == [key] && [key][1..] == [];
    assert GetText(s.store, [key], false) == Shown(s.store.items[key], false) + "";
    assert "" + GetText(s.store, [key], false) == Shown(s.store.items[key], false);
  }

  /** A get of one key that is not stored sends what was left. */
  lemma OtherGet(s: State, other: string)
    requires Good(s) && s.mode == NewCommand && IsKey(other) && NoLineEnd(other) && |other| <= LONGEST_KEY
      && other !in s.store.items
    ensures Drain(s, "get " + other + "\r\n").s.out == s.out + [Send(s.outputBuf + "END\r\n")]
  {
    hide Drain, Parse, HasNoreply, FindCRLF, IsKey, NoLineEnd, DoGet, Shown;
    GetLine(other);
    DrainLine(s, "get " + other);
    ParseGet(other);
    var s1, noreply := s.(requests := s.requests + 1), HasNoreply("get " + other);
    GetAnswers(s1, [], 0, false, noreply);
    GetAnswers(s1, [other], 1, false, noreply);
    assert [other][1..] == [];
    assert GetText(s.store, [], false) == "";
    assert GetText(s.store, [other], false) == "" + "";
    assert s.outputBuf + "" == s.outputBuf;
    assert "" + "" == "";
  }

  lemma SentTogether(s: State, u: Request, v: string)
    requires u.Update? && u.bytes >= 0 && |v| == u.bytes + 2 && u.key in s.store.items
    requires var item := s.store.items[u.key]; item.key == u.key && item.flags == u.flags && item.value == v
    ensures Shown(s.store.items[u.key], false) + "END\r\n" == ValueText(u, v)
  {
    hide Show;
    var head := "VALUE " + u.key + " " + Show(u.flags) + " " + Show(u.bytes);
    assert head + "" == head;
  }

  /** For example: `set a 0 0 1`, a get of `a` and of 251 times `x`, and a get of `b`. */
  lemma LeftOverExample()
    ensures var u := Update(Set, "a", 0, 0, 1, 0);
      Fits(u) &&
      Drain(NewSession(0), LeakingRequests(u, "v", seq(251, _ => 'x'), "b")).s.out
        == [Send("STORED\r\n"), Send(BAD_FORMAT), Send(ValueText(u, "v\r\n"))]
  {
    hide Drain, ValueText;
    assert "v" + "\r\n" == "v\r\n";
    LeftOverIsSent(0, Update(Set, "a", 0, 0, 1, 0), "v", seq(251, _ => 'x'), "b");
  }

  /** For example: after `quit` the session still reads a get, and keeps its answer. */
  lemma QuitThenGet(s: State, key: string)
    requires Good(s) && s.mode == NewCommand && s.outputBuf == ""
    requires IsKey(key) && NoLineEnd(key) && |key| <= LONGEST_KEY
    ensures Drain(s, "quit" + "\r\n" + ("get " + key + "\r\n")).s.outputBuf == Answered(s, key) != ""
  {
    hide Drain, Parse, HasNoreply, IsKey, FindCRLF, DoGet, Shown;
    ParseQuit();
    assert NoLineEnd("quit");
    hide NoLineEnd;
    LineThen(s, "quit", "get " + key + "\r\n");
    var s1 := ProcessRequest(s, "quit");
    assert s1.out[|s.out|] == ShutdownConnection;
    GetLine(key);
    DrainLine(s1, "get " + key);
    ParseGet(key);
    BufferAfter(s1, "get " + key);
    OneText(s.store, key);
    assert |"END\r\n"| > 0;
  }

  lemma OneText(store: Store, key: string)
    requires WellStored(store)
    ensures var shown := if key in store.items then Shown(store.items[key], false) else "";
      && "" + GetText(store, [key], false) + "END\r\n" == shown + "END\r\n"
      && "" + GetText(store, [], false) + "END\r\n" == "" + "END\r\n"
  {
    hide Shown;
    assert [key][1..] == [] && GetText(store, [], false) == "";
    var shown := if key in store.items then Shown(store.items[key], false) else "";
    assert GetText(store, [key], false) == shown + "" == shown;
    assert "" + shown == shown;
  }

  lemma ParseQuit()
    ensures Parse("quit") == Quit
  {
    OneToken("quit");
    hide Tokens;
  }
}
