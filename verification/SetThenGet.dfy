/** What the memcached server is for: a value that was set is what a get of its key then shows. */
module SetThenGet {
  import opened Chunking
  import opened ItemStore
  import opened RequestLines
  import opened Requests
  import opened Texts
  import opened Session

  lemma GetTokens(key: string)
    requires IsKey(key)
    ensures Tokens("get " + key) == ["get", key] && Tokens("get") == ["get"]
  {
    OneToken("get");
    OneToken(key);
    hide WordLength;
    var s := "get " + key;
    WordBefore("get", key);
    assert s[..3] == "get" && s[3..] == " " + key && (" " + key)[1..] == key;
  }

  lemma NoreplyKey(key: string)
    requires IsKey(key)
    ensures HasNoreply("get " + key) <==> key == "noreply"
  {
    var line := "get " + key;
    if HasNoreply(line) {
      assert line[|line| - 8..][0] == ' ';
      assert |line| - 8 == 3;
      assert key == line[4..] == line[3..][1..];
    } else if |key| == 7 {
      assert line[3..] == " " + key;
      assert line[3..][1..] == key && " noreply"[1..] == "noreply";
    }
  }

  /** A get of the key `noreply` asks for nothing. */
  lemma ParseGet(key: string)
    requires IsKey(key)
    ensures Parse("get " + key) == Get(if key == "noreply" then [] else [key], false)
  {
    hide Tokens, ParseUpdate, ParseDelete, HasNoreply;
    NoreplyKey(key);
    GetTokens(key);
    var line := "get " + key;
    assert key == "noreply" ==> line[..|line| - 8] == "get";
  }

  lemma GetLine(key: string)
    requires NoLineEnd(key)
    ensures FindCRLF("get " + key + "\r\n") == 4 + |key|
  {
    assert NoLineEnd("get");
    hide FindCRLF, NoLineEnd;
    SpacedNoLineEnd("get", key);
    var head := "get" + " ";
    assert head == "get ";
    LineEnds(head + key);
  }

  /** One whole line. */
  lemma DrainLine(s: State, line: string)
    requires Good(s) && s.mode == NewCommand && FindCRLF(line + "\r\n") == |line|
    ensures Drain(s, line + "\r\n") == Drained(ProcessRequest(s, line), "")
  {
    hide ProcessRequest, FindCRLF, Good;
    ProcessKeepsGood(s, line);
    var buf := line + "\r\n";
    assert buf[..|line|] == line && buf[|line| + 2..] == "";
  }

  ghost function Answered(s: State, key: string): (text: string)
    requires WellStored(s.store)
  {
    (if key != "noreply" && key in s.store.items then Shown(s.store.items[key], false) else "") + "END\r\n"
  }

  /** The session processes the line of a get. */
  lemma GetDrained(s: State, key: string)
    requires Good(s) && s.mode == NewCommand && s.outputBuf == "" && IsKey(key) && NoLineEnd(key)
      && |key| <= LONGEST_KEY
    ensures Drain(s, "get " + key + "\r\n").s.out == s.out + [Send(Answered(s, key))]
  {
    hide FindCRLF, NoLineEnd, IsKey, Drain, Parse, HasNoreply, DoGet, Shown;
    GetLine(key);
    DrainLine(s, "get " + key);
    ParseGet(key);
    GetOne(s.(requests := s.requests + 1), key, HasNoreply("get " + key));
    assert "" + "END\r\n" == "END\r\n";
  }

  lemma GetOne(s: State, key: string, noreply: bool)
    requires WellStored(s.store) && s.outputBuf == "" && |key| <= LONGEST_KEY
    ensures DoGet(s, [], false, noreply).out == s.out + [Send("END\r\n")]
    ensures DoGet(s, [key], false, noreply).out ==
      s.out + [Send((if key in s.store.items then Shown(s.store.items[key], false) else "") + "END\r\n")]
  {
    hide DoGet, Shown;
    GetAnswers(s, [], 0, false, noreply);
    GetAnswers(s, [key], 1, false, noreply);
    var shown := if key in s.store.items then Shown(s.store.items[key], false) else "";
    assert [key][1..] == [];
    assert GetText(s.store, [key], false) == shown + "" == shown;
    assert "" + shown + "END\r\n" == shown + "END\r\n";
    assert "" + "" + "END\r\n" == "END\r\n";
  }

  /** What a set of a value that ends in CRLF leaves behind. */
  lemma SetStores(s: State, line: string, v: string)
    requires Good(s) && s.mode == NewCommand && Parse(line).Update? && Parse(line).policy == Set
    requires 0 <= Parse(line).bytes <= MAX_VALUE && |v| == Parse(line).bytes + 2 && EndsWithCRLF(v)
    ensures var u := Parse(line); var r := AfterUpdate(s, line, v);
      && r.out == s.out + (if HasNoreply(line) then [] else [Send("STORED\r\n")]) && r.outputBuf == s.outputBuf
      && u.key in r.store.items
      && r.store.items[u.key] == Item(u.key, u.flags, RelExptime(u.exptime, s.startTime), v, s.store.cas + 1)
      && forall k :: k != u.key ==>
        (k in r.store.items <==> k in s.store.items) && (k in s.store.items ==> r.store.items[k] == s.store.items[k])
  {
    hide Parse, HasNoreply, RelExptime, EndsWithCRLF;
    assert "" + v == v;
  }

  lemma NoEarlierLineEnd(line: string)
    requires FindCRLF(line + "\r\n") == |line|
    ensures NoLineEnd(line)
  {
    var s := line + "\r\n";
    assert forall i :: 0 <= i < |line| ==> s[i] == line[i];
  }

  ghost function ValueText(u: Request, v: string): (text: string)
    requires u.Update? && u.bytes >= 0
  {
    "VALUE " + u.key + " " + Show(u.flags) + " " + Show(u.bytes) + "\r\n" + v + "END\r\n"
  }

  lemma ShownValue(s: State, u: Request, v: string, item: Item)
    requires WellStored(s.store) && u.Update? && u.bytes >= 0 && |v| == u.bytes + 2 && u.key in s.store.items
      && s.store.items[u.key] == item
    requires item.key == u.key && item.flags == u.flags && item.value == v
    ensures Answered(s, u.key) == ValueText(u, v) <==> u.key != "noreply"
  {
    hide Show, WellStored;
    var head := "VALUE " + u.key + " " + Show(u.flags) + " " + Show(u.bytes);
    assert head + "" == head;
    assert Shown(item, false) == head + "\r\n" + v;
    assert |ValueText(u, v)| > |"" + "END\r\n"|;
  }

  /**
    After a set of a key to a value, a get of the key shows the flags and exactly the value of the set;
    this is so for every key that a set accepts except the key `noreply`, which a get takes for an option.
  */
  lemma SetThenGetShows(s: State, line: string, v: string)
    requires Good(s) && s.mode == NewCommand && s.outputBuf == "" && FindCRLF(line + "\r\n") == |line|
    requires Parse(line).Update? && Parse(line).policy == Set
    requires 0 <= Parse(line).bytes <= MAX_VALUE && |v| == Parse(line).bytes + 2 && EndsWithCRLF(v)
    ensures var u := Parse(line);
      Drain(s, line + "\r\n" + v + ("get " + u.key + "\r\n")).s.out
        == s.out + (if HasNoreply(line) then [] else [Send("STORED\r\n")]) + [Send(ValueText(u, v))]
      <==> u.key != "noreply"
  {
    hide Parse, HasNoreply, Drain, AfterUpdate, FindCRLF, EndsWithCRLF, RelExptime, NoLineEnd, IsKey, ValueText,
      Answered;
    var u := Parse(line);
    NoEarlierLineEnd(line);
    UpdateKey(line);
    UpdateTakesItsValue(s, line, v, "get " + u.key + "\r\n");
    SetStores(s, line, v);
    var r := AfterUpdate(s, line, v);
    GetDrained(r, u.key);
    ShownValue(r, u, v, r.store.items[u.key]);
    var a, b := r.out + [Send(Answered(r, u.key))], r.out + [Send(ValueText(u, v))];
    assert a[|r.out|] == Send(Answered(r, u.key)) && b[|r.out|] == Send(ValueText(u, v));
  }

  /** A get of the key `noreply` shows nothing, whatever was set. */
  lemma NoreplyIsNotShown(s: State, line: string, v: string)
    requires Good(s) && s.mode == NewCommand && s.outputBuf == "" && FindCRLF(line + "\r\n") == |line|
    requires Parse(line).Update? && Parse(line).policy == Set && Parse(line).key == "noreply"
    requires 0 <= Parse(line).bytes <= MAX_VALUE && |v| == Parse(line).bytes + 2 && EndsWithCRLF(v)
    ensures Drain(s, line + "\r\n" + v + ("get " + "noreply" + "\r\n")).s.out
      == s.out + (if HasNoreply(line) then [] else [Send("STORED\r\n")]) + [Send("END\r\n")]
  {
    hide Parse, HasNoreply, Drain, AfterUpdate, FindCRLF, EndsWithCRLF, RelExptime, NoLineEnd, IsKey;
    NoEarlierLineEnd(line);
    UpdateKey(line);
    UpdateTakesItsValue(s, line, v, "get " + "noreply" + "\r\n");
    SetStores(s, line, v);
    GetDrained(AfterUpdate(s, line, v), "noreply");
    assert "" + "END\r\n" == "END\r\n";
  }

  /**
    In the terms of a client: for every key, flags, expiration and value that fit, setting the value and
    getting the key shows exactly the flags and the value, if and only if the key is not `noreply`.
  */
  lemma StoredIsShown(s: State, u: Request, noreply: bool, value: string)
    requires Good(s) && s.mode == NewCommand && s.outputBuf == ""
    requires Fits(u) && u.policy == Set && NoLineEnd(u.key) && u.bytes == |value| <= MAX_VALUE
    ensures Drain(s, UpdateLine(u, noreply) + "\r\n" + (value + "\r\n") + ("get " + u.key + "\r\n")).s.out
        == s.out + (if noreply then [] else [Send("STORED\r\n")]) + [Send(ValueText(u, value + "\r\n"))]
      <==> u.key != "noreply"
  {
    hide Drain, UpdateLine, Parse, HasNoreply, FindCRLF, ValueText, IsKey, NoLineEnd;
    ParseUpdateLine(u, noreply);
    UpdateLineEnds(u, noreply);
    SetThenGetShows(s, UpdateLine(u, noreply), value + "\r\n");
  }

  lemma ShortLine(s: State, line: string, rest: string)
    requires Good(s) && s.mode == NewCommand && FindCRLF(line + "\r\n") == |line| < MAX_LINE
    requires Good(ProcessRequest(s, line)) && ShortLines(ProcessRequest(s, line), rest)
    ensures ShortLines(s, line + "\r\n" + rest)
  {
    hide ProcessRequest, FindCRLF, Good;
    var buf := line + "\r\n" + rest;
    FindInPrefix(line + "\r\n", rest);
    assert buf[..|line|] == line && buf[|line| + 2..] == rest;
  }

  lemma ShortValue(s: State, v: string, rest: string)
    requires Good(s) && s.mode.ReceiveValue? && |v| == Needed(s) && Good(Receive(s, v))
      && ShortLines(Receive(s, v), rest)
    ensures ShortLines(s, v + rest)
  {
    hide ProcessRequest, FindCRLF, Receive;
    assert (v + rest)[..|v|] == v && (v + rest)[|v|..] == rest;
  }

  lemma ShortRequests(s: State, u: Request, noreply: bool, value: string)
    requires Good(s) && s.mode == NewCommand
    requires Fits(u) && u.policy == Set && NoLineEnd(u.key) && u.bytes == |value| <= MAX_VALUE
    ensures ShortLines(s, UpdateLine(u, noreply) + "\r\n" + (value + "\r\n") + ("get " + u.key + "\r\n"))
  {
    hide ShortLines, UpdateLine, Parse, HasNoreply, FindCRLF, IsKey, NoLineEnd, Receive;
    var line, v, get := UpdateLine(u, noreply), value + "\r\n", "get " + u.key;
    ParseUpdateLine(u, noreply);
    UpdateLineEnds(u, noreply);
    UpdateLineShort(u, noreply);
    ProcessKeepsGood(s, line);
    var s1 := ProcessRequest(s, line);
    ReceiveKeepsGood(s1, v);
    var s2 := Receive(s1, v);
    ReceivedMode(s1, v);
    ProcessKeepsGood(s2, get);
    GetLine(u.key);
    NothingIsShort(ProcessRequest(s2, get));
    assert get + "\r\n" + "" == get + "\r\n";
    ShortLine(s2, get, "");
    ShortValue(s1, v, get + "\r\n");
    assert line + "\r\n" + v + (get + "\r\n") == line + "\r\n" + (v + (get + "\r\n"));
    ShortLine(s, line, v + (get + "\r\n"));
  }

  lemma ReceivedMode(s: State, v: string)
    requires Good(s) && s.mode.ReceiveValue? && |v| == Needed(s)
    ensures Receive(s, v).mode == NewCommand
  {
  }

  lemma NothingIsShort(s: State)
    requires Good(s)
    ensures ShortLines(s, "")
  {
  }

  /** And that is so however the network cuts the requests. */
  lemma StoredIsShownInChunks(s: State, u: Request, noreply: bool, value: string, chunks: seq<string>)
    requires Good(s) && s.mode == NewCommand && s.outputBuf == ""
    requires Fits(u) && u.policy == Set && NoLineEnd(u.key) && u.bytes == |value| <= MAX_VALUE
    requires Concat(chunks) == UpdateLine(u, noreply) + "\r\n" + (value + "\r\n") + ("get " + u.key + "\r\n")
    ensures Feed(Drained(s, ""), chunks).s.out
        == s.out + (if noreply then [] else [Send("STORED\r\n")]) + [Send(ValueText(u, value + "\r\n"))]
      <==> u.key != "noreply"
  {
    hide Drain, UpdateLine, Feed, LinesWithin, ValueText, IsKey, NoLineEnd, Good;
    StoredIsShown(s, u, noreply, value);
    ShortRequests(s, u, noreply, value);
    assert Concat(chunks) + "" == Concat(chunks);
    FeedIsDrain(s, chunks, "", MAX_LINE);
  }

  /** The largest size that a client can send is taken for a discard of nearly 2^64 bytes. */
  lemma LargestUpdate(s: State)
    requires Good(s) && s.mode == NewCommand
    ensures var u := Update(Set, "a", 0, 0, 2147483647, 0);
      Fits(u) && ProcessRequest(s, UpdateLine(u, false)).mode == DiscardValue(18446744071562067969)
  {
    hide UpdateLine, Parse, HasNoreply;
    ParseUpdateLine(Update(Set, "a", 0, 0, 2147483647, 0), false);
  }
}
