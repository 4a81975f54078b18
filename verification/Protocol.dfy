/**
  The memcached text protocol from the client's side: what any sequence of commands is answered, told on the
  data that clients send, and that `memcached/server/Session.cc` answers just so, however the bytes are cut.
*/
module Protocol {
  import opened Chunking
  import opened ItemStore
  import opened LeftOvers
  import opened RequestLines
  import opened Requests
  import opened Session
  import opened SetThenGet
  import opened Texts

  // ----- what a client knows of the server

  /** The data has no CRLF; the number is what `gets` shows. */
  datatype Entry = Entry(flags: nat, data: string, number: nat)

  datatype Cache = Cache(entries: map<string, Entry>, last: nat)

  datatype Verb =
    | Write(u: Request, data: string)
    | Read(keys: seq<string>, numbers: bool)
    | Remove(key: string, zero: bool)
    | AskVersion
    | Other(words: seq<string>)

  datatype Command = Command(verb: Verb, noreply: bool)

  datatype Outcome = Outcome(cache: Cache, replies: seq<string>)

  function Told(cache: Cache, noreply: bool, reply: string): (r: Outcome) {
    Outcome(cache, if noreply then [] else [reply])
  }

  predicate Allowed(c: Cache, u: Request)
    requires u.Update?
  {
    match u.policy
    case Set => true
    case Add => u.key !in c.entries
    case Cas => u.key in c.entries && c.entries[u.key].number == u.cas
    case _ => u.key in c.entries
  }

  /** What an update leaves under its key. */
  function Written(c: Cache, u: Request, data: string): (e: Entry)
    requires u.Update? && Allowed(c, u)
  {
    match u.policy
    case Append => Entry(c.entries[u.key].flags, c.entries[u.key].data + data, c.last + 1)
    case Prepend => Entry(c.entries[u.key].flags, data + c.entries[u.key].data, c.last + 1)
    case _ => Entry(u.flags, data, c.last + 1)
  }

  function WriteStep(c: Cache, u: Request, data: string, noreply: bool): (r: Outcome)
    requires u.Update?
  {
    if |data| > MAX_VALUE then
      Told(c.(entries := c.entries - {u.key}), noreply, "SERVER_ERROR object too large for cache\r\n")
    else if Allowed(c, u) then
      Told(Cache(c.entries[u.key := Written(c, u, data)], c.last + 1), noreply, "STORED\r\n")
    else
      Told(c, noreply, if u.policy != Cas then "NOT_STORED\r\n"
                       else if u.key in c.entries then "EXISTS\r\n" else "NOT_FOUND\r\n")
  }

  function EntryText(key: string, e: Entry, numbers: bool): (t: string) {
    "VALUE " + key + " " + Show(e.flags) + " " + Show(|e.data|) + (if numbers then " " + Show(e.number) else "")
    + "\r\n" + e.data + "\r\n"
  }

  function EntryTexts(c: Cache, keys: seq<string>, numbers: bool): (t: string) {
    if keys == [] then ""
    else
      var first := if keys[0] in c.entries then EntryText(keys[0], c.entries[keys[0]], numbers) else "";
      first + EntryTexts(c, keys[1..], numbers)
  }

  /** A read is answered even if its line asks for no reply. */
  function Step(c: Cache, command: Command): (r: Outcome)
    requires Legal(command)
  {
    match command.verb
    case Write(u, data) => WriteStep(c, u, data, command.noreply)
    case Read(keys, numbers) => Outcome(c, [EntryTexts(c, keys, numbers) + "END\r\n"])
    case Remove(key, _) =>
      Told(c.(entries := c.entries - {key}), command.noreply, if key in c.entries then "DELETED\r\n"
        else "NOT_FOUND\r\n")
    case AskVersion => Told(c, command.noreply, "VERSION 0.01 muduo\r\n")
    case Other(words) => Told(c, command.noreply, Refusal(words))
  }

  function Steps(c: Cache, commands: seq<Command>): (r: Outcome)
    requires forall i :: 0 <= i < |commands| ==> Legal(commands[i])
    decreases |commands|
  {
    if commands == [] then Outcome(c, [])
    else
      var first := Step(c, commands[0]);
      var rest := Steps(first.cache, commands[1..]);
      Outcome(rest.cache, first.replies + rest.replies)
  }

  // ----- the bytes of a command

  function Words(verb: Verb): (ts: seq<string>)
    requires verb.Write? ==> Fits(verb.u)
  {
    match verb
    case Write(u, _) => UpdateWords(u)
    case Read(keys, numbers) => [if numbers then "gets" else "get"] + keys
    case Remove(key, zero) => ["delete", key] + if zero then ["0"] else []    // zero: the old protocol
    case AskVersion => ["version"]
    case Other(words) => words
  }

  predicate LegalKey(key: string) {
    IsKey(key) && NoLineEnd(key) && |key| <= LONGEST_KEY
  }

  /** A word that no number ends with. */
  predicate NoNumber(w: string) {
    w == "" || !('0' <= w[|w| - 1] <= '9')
  }

  /**
    Words of no command; an update with an overlong key, too few words, or something that is not a number; a
    delete with an overlong key or another word than the zero of the old protocol.
  */
  predicate Refused(words: seq<string>) {
    && words != [] && (forall i :: 0 <= i < |words| ==> IsKey(words[i]) && NoLineEnd(words[i]))
    && if words[0] in Policies() then
        2 <= |words| && (|words[1]| > LONGEST_KEY || |words| < 5 || (words[0] == "cas" && |words| < 6)
          || NoNumber(words[2]) || NoNumber(words[3]) || NoNumber(words[4])
          || (words[0] == "cas" && NoNumber(words[5])))
      else if words[0] == "delete" then
        2 <= |words| && (|words[1]| > LONGEST_KEY || (|words| > 2 && words[2] != "0"))
      else words[0] !in {"get", "gets", "version", "quit", "shutdown"}
  }

  function Refusal(words: seq<string>): (reply: string)
    requires Refused(words)
  {
    if words[0] in Policies() then BAD_FORMAT
    else if words[0] != "delete" then "ERROR\r\n"
    else if |words[1]| > LONGEST_KEY then BAD_FORMAT
    else BAD_DELETE
  }

  predicate LegalVerb(verb: Verb) {
    match verb
    case Write(u, data) => Fits(u) && NoLineEnd(u.key) && u.bytes == |data| <= LARGEST_SIZE
    case Read(keys, _) => forall i :: 0 <= i < |keys| ==> LegalKey(keys[i])
    case Remove(key, _) => LegalKey(key)
    case AskVersion => true
    case Other(words) => Refused(words)
  }

  /** The last word of a line is not taken for the option. */
  predicate Unmistakable(words: seq<string>, noreply: bool) {
    noreply || |words| <= 1 || words[|words| - 1] != "noreply"
  }

  predicate Legal(command: Command) {
    LegalVerb(command.verb) && Unmistakable(Words(command.verb), command.noreply)
  }

  function Line(words: seq<string>, noreply: bool): (line: string) {
    Joined(words) + if noreply then " noreply" else ""
  }

  function Wire(command: Command): (bytes: string)
    requires Legal(command)
  {
    Line(Words(command.verb), command.noreply) + "\r\n"
    + if command.verb.Write? then command.verb.data + "\r\n" else ""
  }

  function Wires(commands: seq<Command>): (bytes: string)
    requires forall i :: 0 <= i < |commands| ==> Legal(commands[i])
  {
    if commands == [] then "" else Wire(commands[0]) + Wires(commands[1..])
  }

  // ----- the lines are read as they are meant

  lemma {:induction false} JoinedLast(ts: seq<string>)
    requires |ts| > 1
    ensures Joined(ts) == Joined(ts[..|ts| - 1]) + " " + ts[|ts| - 1]
  {
    var n := |ts| - 1;
    if |ts| == 2 {
      assert ts[..n] == [ts[0]] && ts[1..] == [ts[1]];
    } else {
      JoinedLast(ts[1..]);
      assert ts[1..][..n - 1] == ts[..n][1..];
      assert Joined(ts) == ts[0] + " " + (Joined(ts[..n][1..]) + " " + ts[n]);
      assert Joined(ts[..n]) == ts[0] + " " + Joined(ts[..n][1..]);
    }
  }

  lemma NoreplyWord(p: string, w: string)
    requires IsKey(w)
    ensures !HasNoreply(w) && (HasNoreply(p + " " + w) <==> w == "noreply")
  {
    var line, option := p + " " + w, " noreply";
    assert option[0] == ' ' && (forall i :: 1 <= i < 8 ==> option[i] != ' ') && option[1..] == "noreply";
    if |w| >= 8 {
      assert w[|w| - 8..][0] != ' ' && line[|line| - 8..] == w[|w| - 8..];
    } else if |line| >= 8 {
      var tail := line[|line| - 8..];
      assert tail[7 - |w|] == ' ' && tail[8 - |w|..] == w;
    }
  }

  /** A line of words has the option exactly if it was given or the last of several words is taken for it. */
  lemma LineOption(words: seq<string>, noreply: bool)
    requires words != [] && forall i :: 0 <= i < |words| ==> IsKey(words[i])
    ensures HasNoreply(Line(words, noreply)) == noreply <==> Unmistakable(words, noreply)
  {
    hide Joined, IsKey;
    var s, last := Joined(words), words[|words| - 1];
    if noreply {
      assert (s + " noreply")[|s|..] == " noreply";
    } else {
      assert s + "" == s;
      if |words| == 1 {
        OneWord(last);
        assert words == [last];
        NoreplyWord("", last);
      } else {
        JoinedLast(words);
        NoreplyWord(Joined(words[..|words| - 1]), last);
      }
    }
  }

  lemma OneWord(w: string)
    ensures Joined([w]) == w
  {
  }

  lemma LineRead(words: seq<string>, noreply: bool)
    requires words != [] && forall i :: 0 <= i < |words| ==> IsKey(words[i]) && NoLineEnd(words[i])
    requires Unmistakable(words, noreply)
    ensures var line := Line(words, noreply);
      && HasNoreply(line) == noreply && NoLineEnd(line)
      && Tokens(if noreply then line[..|line| - 8] else line) == words
  {
    hide Joined, Tokens, HasNoreply, IsKey, NoLineEnd;
    LineOption(words, noreply);
    TokensOfJoined(words);
    JoinedNoLineEnd(words);
    var s := Joined(words);
    assert s + "" == s && (s + " noreply")[..|s|] == s;
    NoLineEndNoreply();
    SpacedNoLineEnd(s, "noreply");
    assert s + " " + "noreply" == s + " noreply";
  }

  lemma NoLineEndNoreply()
    ensures NoLineEnd("noreply")
  {
  }

  lemma WordsAreLegal(verb: Verb)
    requires LegalVerb(verb)
    ensures forall i :: 0 <= i < |Words(verb)| ==> IsKey(Words(verb)[i]) && NoLineEnd(Words(verb)[i])
  {
    hide Show;
    if verb.Write? {
      var u := verb.u;
      WordsAreKeys(u);
      DigitsNoLineEnd(u.flags);
      DigitsNoLineEnd(u.exptime);
      DigitsNoLineEnd(u.bytes);
      DigitsNoLineEnd(u.cas);
    }
  }

  ghost function Meant(verb: Verb): (r: Request)
    requires LegalVerb(verb)
  {
    match verb
    case Write(u, _) => u
    case Read(keys, numbers) => Get(keys, numbers)
    case Remove(key, _) => Delete(key)
    case AskVersion => Version
    case Other(words) =>
      if words[0] in Policies() then BadUpdate
      else if words[0] == "delete" then BadDelete(Refusal(words))
      else Unknown
  }

  /** Every legal command reads back from its line. */
  lemma ParseLine(command: Command)
    requires Legal(command)
    ensures var line := Line(Words(command.verb), command.noreply);
      Parse(line) == Meant(command.verb) && HasNoreply(line) == command.noreply && NoLineEnd(line)
  {
    hide Tokens, HasNoreply, ParseUpdate, IsKey, NoLineEnd, Joined, Show;
    WordsAreLegal(command.verb);
    var words := Words(command.verb);
    LineRead(words, command.noreply);
    match command.verb
    case Write(u, _) => ParseUpdateWords(u);
    case Read(keys, numbers) => assert words[1..] == keys;
    case Remove(key, zero) => assert words[1..] == [key] + if zero then ["0"] else [];
    case AskVersion =>
    case Other(_) => BadWords(words);
  }

  lemma BadWords(words: seq<string>)
    requires Refused(words)
    ensures words[0] in Policies() ==> ParseUpdate(Policies()[words[0]], words[1..]) == BadUpdate
    ensures words[0] == "delete" ==> ParseDelete(words[1..]) == BadDelete(Refusal(words))
  {
    hide Strtoull, IsKey, NoLineEnd;
    forall i | 0 <= i < |words| && NoNumber(words[i])
      ensures Strtoull(words[i]) < 0
    {
      NotANumber(words[i]);
    }
  }

  lemma NotANumber(w: string)
    requires NoNumber(w)
    ensures Strtoull(w) < 0
  {
    hide Decimal;
    var s := SkipWhite(w);
    SameEnd(w);
    var digits := if s != "" && (s[0] == '+' || s[0] == '-') then s[1..] else s;
    assert digits != "" ==> digits[|digits| - 1] == w[|w| - 1];
  }

  lemma {:induction false} SameEnd(w: string)
    ensures var s := SkipWhite(w); |s| <= |w| && (s != "" ==> s[|s| - 1] == w[|w| - 1])
    decreases |w|
  {
    if w != "" {
      SameEnd(w[1..]);
    }
  }

  // ----- the session answers as told

  function EntryOf(item: Item): (e: Entry)
    requires |item.value| >= 2
  {
    Entry(item.flags, WithoutCRLF(item.value), item.cas)
  }

  function View(store: Store): (c: Cache)
    requires WellStored(store)
  {
    Cache(map k | k in store.items :: EntryOf(store.items[k]), store.cas)
  }

  /** Between two commands, with nothing left in the buffer. */
  ghost predicate Ready(s: State) {
    Good(s) && s.mode == NewCommand && s.outputBuf == "" && Open(s)
  }

  function Sends(replies: seq<string>): (out: seq<Output>) {
    seq(|replies|, i requires 0 <= i < |replies| => Send(replies[i]))
  }

  /** From `s` to `r`: the cache and the replies are as told, and `n` requests were counted. */
  ghost predicate Serves(s: State, r: State, a: Outcome, n: nat) {
    Ready(r) && View(r.store) == a.cache && r.out == s.out + Sends(a.replies) && r.requests == s.requests + n
  }

  lemma StayOpen(s: State, replies: seq<string>)
    requires Open(s)
    ensures ShutdownConnection !in s.out + Sends(replies)
  {
  }

  lemma ToldIsReply(s: State, cache: Cache, noreply: bool, text: string)
    requires Ready(s) && View(s.store) == cache
    ensures Serves(s, Reply(s, noreply, text), Told(cache, noreply, text), 0)
  {
    hide View, WellStored;
    StayOpen(s, Told(cache, noreply, text).replies);
    assert s.out + [] == s.out;
  }

  lemma OneCounted(s: State, r: State, a: Outcome)
    requires Serves(s.(requests := s.requests + 1), r, a, 0)
    ensures Serves(s, r, a, 1)
  {
  }

  lemma ReadyCounted(s: State, n: nat)
    requires Ready(s)
    ensures Ready(s.(requests := n))
  {
  }

  lemma {:induction false} TextsAgree(store: Store, keys: seq<string>, numbers: bool)
    requires WellStored(store)
    ensures GetText(store, keys, numbers) == EntryTexts(View(store), keys, numbers)
  {
    hide Show, WellStored;
    if keys != [] {
      TextsAgree(store, keys[1..], numbers);
      if keys[0] in store.items {
        EntryShown(store, keys[0], numbers);
      }
    }
  }

  lemma EntryShown(store: Store, key: string, numbers: bool)
    requires WellStored(store) && key in store.items
    ensures Shown(store.items[key], numbers) == EntryText(key, View(store).entries[key], numbers)
  {
    hide Show;
    var item, e := store.items[key], View(store).entries[key];
    assert item.value == e.data + "\r\n";
    var head := "VALUE " + key + " " + Show(e.flags) + " " + Show(|e.data|)
      + (if numbers then " " + Show(e.number) else "") + "\r\n";
    assert head + (e.data + "\r\n") == head + e.data + "\r\n";
  }

  lemma ServedRead(s: State, keys: seq<string>, numbers: bool, noreply: bool)
    requires Ready(s) && LegalVerb(Read(keys, numbers))
    ensures Serves(s, DoGet(s, keys, numbers, noreply),
      Outcome(View(s.store), [EntryTexts(View(s.store), keys, numbers) + "END\r\n"]), 0)
  {
    hide View, EntryTexts, DoGet, GetText, IsKey, NoLineEnd;
    var text := GetText(s.store, keys, numbers);
    GetKeepsGood(s, keys, numbers, noreply);
    GetAnswers(s, keys, |keys|, numbers, noreply);
    TextsAgree(s.store, keys, numbers);
    assert "" + text == text;
    StayOpen(s, [text + "END\r\n"]);
  }

  lemma ServedRemove(s: State, key: string, noreply: bool)
    requires Ready(s)
    ensures var c := View(s.store);
      Serves(s, DoDelete(s, key, noreply), Told(c.(entries := c.entries - {key}), noreply,
        if key in c.entries then "DELETED\r\n" else "NOT_FOUND\r\n"), 0)
  {
    hide Told;
    var c, t := View(s.store), s.(store := DeleteItem(s.store, key));
    Removed(s.store, key);
    ToldIsReply(t, c.(entries := c.entries - {key}), noreply,
      if key in c.entries then "DELETED\r\n" else "NOT_FOUND\r\n");
  }

  lemma Removed(store: Store, key: string)
    requires WellStored(store)
    ensures WellStored(DeleteItem(store, key))
    ensures View(DeleteItem(store, key)) == View(store).(entries := View(store).entries - {key})
  {
  }

  /** What storing a value does to the view, policy by policy. */
  lemma Stores(store: Store, u: Request, item: Item, data: string)
    requires WellStored(store) && u.Update? && |data| <= MAX_VALUE
    requires item.key == u.key && item.flags == u.flags && item.cas == u.cas && item.value == data + "\r\n"
    ensures var r, c := StoreItem(store, item, u.policy), View(store);
      && WellStored(r.store) && r.ok == Allowed(c, u) && r.existed == (u.key in c.entries)
      && View(r.store) == WriteStep(c, u, data, true).cache
  {
    hide WellStored, View, Merged, EntryOf;
    StoreKeepsWellStored(store, item, u.policy);
    var r, c := StoreItem(store, item, u.policy), View(store);
    ViewOf(store, u.key);
    if Allowed(c, u) {
      var merged := if u.key in store.items then Merged(store.items[u.key], item, u.policy) else item;
      var stored := merged.(cas := store.cas + 1);
      MergedIsWritten(store, u, item, data);
      ViewOfMore(store, u.key, stored, store.cas + 1);
    }
  }

  lemma ViewOf(store: Store, key: string)
    requires WellStored(store)
    ensures var c := View(store);
      && c.last == store.cas && (key in c.entries <==> key in store.items)
      && (key in store.items ==>
        |store.items[key].value| >= 2 && c.entries[key] == EntryOf(store.items[key])
        && c.entries[key].number == store.items[key].cas)
  {
  }

  lemma ViewOfMore(store: Store, key: string, item: Item, n: nat)
    requires WellStored(store) && WellStored(Store(store.items[key := item], n)) && |item.value| >= 2
    ensures View(Store(store.items[key := item], n)) == Cache(View(store).entries[key := EntryOf(item)], n)
  {
    hide EntryOf;
  }

  lemma MergedIsWritten(store: Store, u: Request, item: Item, data: string)
    requires WellStored(store) && u.Update? && item.key == u.key && item.flags == u.flags
    requires item.cas == u.cas && item.value == data + "\r\n" && Allowed(View(store), u)
    ensures var merged := if u.key in store.items then Merged(store.items[u.key], item, u.policy) else item;
      && |merged.value| >= 2
      && EntryOf(merged.(cas := store.cas + 1)) == Written(View(store), u, data)
  {
    hide View, WellStored;
    ViewOf(store, u.key);
    assert WithoutCRLF(item.value) == data;
    if u.key in store.items {
      var stored := store.items[u.key];
      EndsInCRLF(store, u.key);
      MergedData(stored, item, u.policy, WithoutCRLF(stored.value), data);
    }
  }

  lemma EndsInCRLF(store: Store, key: string)
    requires WellStored(store) && key in store.items
    ensures var v := store.items[key].value; |v| >= 2 && v == WithoutCRLF(v) + "\r\n"
  {
    assert EndsWithCRLF(store.items[key].value);
  }

  lemma MergedData(stored: Item, item: Item, policy: Policy, was: string, data: string)
    requires stored.value == was + "\r\n" && item.value == data + "\r\n"
    ensures WithoutCRLF(Merged(stored, item, policy).value) ==
      match policy case Append => was + data case Prepend => data + was case _ => data
  {
    assert WithoutCRLF(was + "\r\n") == was && WithoutCRLF(data + "\r\n") == data;
    assert was + (data + "\r\n") == (was + data) + "\r\n" && data + (was + "\r\n") == (data + was) + "\r\n";
    assert WithoutCRLF((was + data) + "\r\n") == was + data && WithoutCRLF((data + was) + "\r\n") == data + was;
  }

  /** An oversized value is not stored, and its key is deleted. */
  lemma ServedOversized(s: State, line: string, v: string)
    requires Ready(s) && Parse(line).Update? && MAX_VALUE < Parse(line).bytes <= LARGEST_SIZE
      && |v| == Parse(line).bytes + 2
    ensures Serves(s, AfterUpdate(s, line, v), WriteStep(View(s.store), Parse(line), v[..|v| - 2], HasNoreply(line)), 1)
  {
    hide Parse, HasNoreply, View, ToDiscard, Told;
    var u := Parse(line);
    DiscardSize(u.bytes);
    Removed(s.store, u.key);
    var t := s.(requests := s.requests + 1, store := DeleteItem(s.store, u.key));
    ToldIsReply(t, View(t.store), HasNoreply(line), "SERVER_ERROR object too large for cache\r\n");
  }

  lemma ServedStored(s: State, line: string, data: string)
    requires Ready(s) && Parse(line).Update? && 0 <= Parse(line).bytes == |data| <= MAX_VALUE
    ensures var r := AfterUpdate(s, line, data + "\r\n");
      Serves(s, r, WriteStep(View(s.store), Parse(line), data, HasNoreply(line)), 1)
  {
    hide Parse, HasNoreply, View, Told, WellStored, RelExptime;
    var u, noreply, v := Parse(line), HasNoreply(line), data + "\r\n";
    var item := Item(u.key, u.flags, RelExptime(u.exptime, s.startTime), v, u.cas);
    assert "" + v == v;
    Stores(s.store, u, item, data);
    var t := s.(requests := s.requests + 1, store := StoreItem(s.store, item, u.policy).store);
    StoredReply(t, View(s.store), u, data, noreply);
  }

  lemma StoredReply(t: State, c: Cache, u: Request, data: string, noreply: bool)
    requires Ready(t) && u.Update? && |data| <= MAX_VALUE && View(t.store) == WriteStep(c, u, data, true).cache
    ensures Serves(t, Reply(t, noreply,
        if Allowed(c, u) then "STORED\r\n"
        else if u.policy != Cas then "NOT_STORED\r\n"
        else if u.key in c.entries then "EXISTS\r\n" else "NOT_FOUND\r\n"),
      WriteStep(c, u, data, noreply), 0)
  {
    hide View, WellStored, Written;
    ToldIsReply(t, View(t.store), noreply,
      if Allowed(c, u) then "STORED\r\n"
      else if u.policy != Cas then "NOT_STORED\r\n"
      else if u.key in c.entries then "EXISTS\r\n" else "NOT_FOUND\r\n");
  }

  /** One command. */
  lemma Served(s: State, command: Command) returns (r: State)
    requires Ready(s) && Legal(command)
    ensures Drain(s, Wire(command)) == Drained(r, "") && Serves(s, r, Step(View(s.store), command), 1)
  {
    hide Parse, HasNoreply, View, Good, Drain, IsKey, NoLineEnd, Joined, Serves, WriteStep, Told, FindCRLF;
    ParseLine(command);
    var line := Line(Words(command.verb), command.noreply);
    if command.verb.Write? {
      r := ServedWrite(s, command);
    } else {
      r := ProcessRequest(s, line);
      LineThen(s, line, "");
      DrainNothing(r);
      assert line + "\r\n" + "" == line + "\r\n";
      ServedLine(s, command);
    }
  }

  lemma ServedWrite(s: State, command: Command) returns (r: State)
    requires Ready(s) && Legal(command) && command.verb.Write?
    ensures Drain(s, Wire(command)) == Drained(r, "") && Serves(s, r, Step(View(s.store), command), 1)
  {
    hide Parse, HasNoreply, View, Good, Drain, IsKey, NoLineEnd, Joined, Serves, WriteStep, FindCRLF, AfterUpdate;
    var u, data := command.verb.u, command.verb.data;
    var line, v := Line(UpdateWords(u), command.noreply), data + "\r\n";
    ParseLine(command);
    LineEnds(line);
    UpdateTakesItsValue(s, line, v, "");
    r := AfterUpdate(s, line, v);
    DrainNothing(r);
    assert line + "\r\n" + v + "" == line + "\r\n" + v;
    if |data| > MAX_VALUE {
      assert v[..|v| - 2] == data;
      ServedOversized(s, line, v);
    } else {
      ServedStored(s, line, data);
    }
  }

  lemma ServedLine(s: State, command: Command)
    requires Ready(s) && Legal(command) && !command.verb.Write?
    requires var line := Line(Words(command.verb), command.noreply);
      Parse(line) == Meant(command.verb) && HasNoreply(line) == command.noreply
    ensures Serves(s, ProcessRequest(s, Line(Words(command.verb), command.noreply)), Step(View(s.store), command), 1)
  {
    hide Parse, HasNoreply, View, WellStored, IsKey, NoLineEnd, Joined, Serves, DoGet, DoDelete, Told, LegalKey,
      EntryTexts, Refused;
    var t, noreply := s.(requests := s.requests + 1), command.noreply;
    ReadyCounted(s, s.requests + 1);
    match command.verb {
      case Read(keys, numbers) => ServedRead(t, keys, numbers, noreply);
      case Remove(key, _) => ServedRemove(t, key, noreply);
      case AskVersion => ToldIsReply(t, View(t.store), noreply, "VERSION 0.01 muduo\r\n");
      case Other(words) => ToldIsReply(t, View(t.store), noreply, Refusal(words));
    }
    OneCounted(s, ProcessRequest(s, Line(Words(command.verb), noreply)), Step(View(s.store), command));
  }

  /**
    The server answers every sequence of legal commands as told: what it sends is exactly the replies, and what
    it then holds is exactly the cache.
  */
  lemma {:induction false} ServesAll(s: State, commands: seq<Command>) returns (r: State)
    requires Ready(s) && forall i :: 0 <= i < |commands| ==> Legal(commands[i])
    ensures Drain(s, Wires(commands)) == Drained(r, "") && Serves(s, r, Steps(View(s.store), commands), |commands|)
    decreases |commands|
  {
    hide View, WellStored, Drain, Legal, Step, Wire, Open;
    if commands == [] {
      r := s;
      DrainNothing(s);
      assert s.out + Sends([]) == s.out;
    } else {
      var s1 := Served(s, commands[0]);
      r := ServesAll(s1, commands[1..]);
      AfterHead(s, s1, Wire(commands[0]), Wires(commands[1..]));
      var a := Step(View(s.store), commands[0]);
      var b := Steps(a.cache, commands[1..]);
      assert Sends(a.replies + b.replies) == Sends(a.replies) + Sends(b.replies);
      assert s.out + (Sends(a.replies) + Sends(b.replies)) == (s.out + Sends(a.replies)) + Sends(b.replies);
    }
  }

  /** A line that is not overlong; the line of an update never is. */
  predicate ShortCommand(command: Command)
    requires Legal(command)
  {
    command.verb.Write? || |Line(Words(command.verb), command.noreply)| < MAX_LINE
  }

  lemma ShortWrite(s: State, command: Command, rest: string)
    requires Ready(s) && Legal(command) && command.verb.Write?
    requires ShortLines(Drain(s, Wire(command)).s, rest)
    ensures ShortLines(s, Wire(command) + rest)
  {
    hide Parse, HasNoreply, View, WellStored, Drain, IsKey, NoLineEnd, Joined, FindCRLF, ShortLines, ProcessRequest;
    var u, v := command.verb.u, command.verb.data + "\r\n";
    var line := Line(UpdateWords(u), command.noreply);
    ParseLine(command);
    LineEnds(line);
    UpdateLineShort(u, command.noreply);
    assert UpdateLine(u, command.noreply) == line;
    ProcessKeepsGood(s, line);
    var s1 := ProcessRequest(s, line);
    assert line + "\r\n" + v + rest == line + "\r\n" + (v + rest) && line + "\r\n" + v == Wire(command);
    LineThen(s, line, v);
    UpdateModes(s, line);
    if s1.mode.ReceiveValue? {
      ReceiveKeepsGood(s1, v);
      assert v + "" == v;
      ValueDrained(s1, v, "");
      DrainNothing(Receive(s1, v));
      ShortValue(s1, v, rest);
    } else {
      assert v + "" == v;
      DrainDiscarded(s1, v, "");
      DrainNothing(s1.(mode := NewCommand));
      ShortDiscard(s1, v, rest);
    }
    ShortLine(s, line, v + rest);
  }

  lemma UpdateModes(s: State, line: string)
    requires Good(s) && s.mode == NewCommand && Parse(line).Update? && 0 <= Parse(line).bytes <= LARGEST_SIZE
    ensures var r := ProcessRequest(s, line);
      if Parse(line).bytes <= MAX_VALUE then
        r.mode.ReceiveValue? && r.mode.p.item.value == "" && r.mode.p.valuelen == Parse(line).bytes + 2
      else r.mode == DiscardValue(Parse(line).bytes + 2)
  {
    hide Parse, ToDiscard;
    DiscardSize(Parse(line).bytes);
  }

  lemma ShortDiscard(s: State, v: string, rest: string)
    requires Good(s) && s.mode.DiscardValue? && |v| == s.mode.left && ShortLines(s.(mode := NewCommand), rest)
    ensures ShortLines(s, v + rest)
  {
    assert (v + rest)[|v|..] == rest;
  }

  lemma ShortOne(s: State, command: Command, rest: string)
    requires Ready(s) && Legal(command) && ShortCommand(command)
    requires ShortLines(Drain(s, Wire(command)).s, rest)
    ensures ShortLines(s, Wire(command) + rest)
  {
    if command.verb.Write? {
      hide *;
      ShortWrite(s, command, rest);
    } else {
      hide Parse, HasNoreply, View, WellStored, Drain, IsKey, NoLineEnd, Joined, FindCRLF, ShortLines, ProcessRequest;
      var line := Line(Words(command.verb), command.noreply);
      ParseLine(command);
      LineEnds(line);
      assert line + "\r\n" + "" == line + "\r\n" == Wire(command);
      LineThen(s, line, "");
      DrainNothing(ProcessRequest(s, line));
      ShortLine(s, line, rest);
    }
  }

  lemma {:induction false} AllShort(s: State, commands: seq<Command>)
    requires Ready(s) && forall i :: 0 <= i < |commands| ==> Legal(commands[i]) && ShortCommand(commands[i])
    ensures ShortLines(s, Wires(commands))
    decreases |commands|
  {
    hide View, WellStored, Drain, Legal, Step, Wire, Open, ShortLines, ShortCommand;
    if commands == [] {
      NothingIsShort(s);
    } else {
      var s1 := Served(s, commands[0]);
      AllShort(s1, commands[1..]);
      ShortOne(s, commands[0], Wires(commands[1..]));
    }
  }

  /** And that is so however the network cuts the bytes, if no line is overlong. */
  lemma ServesInChunks(s: State, commands: seq<Command>, chunks: seq<string>) returns (r: State)
    requires Ready(s) && forall i :: 0 <= i < |commands| ==> Legal(commands[i]) && ShortCommand(commands[i])
    requires Concat(chunks) == Wires(commands)
    ensures Feed(Drained(s, ""), chunks) == Drained(r, "") && Serves(s, r, Steps(View(s.store), commands), |commands|)
  {
    hide View, WellStored, Drain, Feed, LinesWithin, Legal, ShortCommand, Wires, Serves, Steps, Concat;
    r := ServesAll(s, commands);
    AllShort(s, commands);
    assert Concat(chunks) + "" == Concat(chunks);
    FeedIsDrain(s, chunks, "", MAX_LINE);
  }
}
