/**
  What a client of the memcached server can observe: each law speaks of bytes that are sent and of the bytes that
  come back, and compares what a get shows before and after.
*/
module ClientLaws {
  import opened Chunking
  import opened ItemStore
  import opened LeftOvers
  import opened Protocol
  import opened RequestLines
  import opened Requests
  import opened Session
  import opened SetThenGet
  import opened Texts

  /** A key that a get can ask for: the last word of a line is not taken for its option. */
  predicate PlainKey(key: string) {
    LegalKey(key) && key != "noreply"
  }

  /** What the session sends in answer to one get, or one gets, of the key. */
  ghost function Sees(s: State, key: string, numbers: bool): (text: string)
    requires Ready(s)
  {
    var out := Drain(s, (if numbers then "gets " else "get ") + key + "\r\n").s.out;
    if |out| == |s.out| + 1 && out[|s.out|].Send? then out[|s.out|].s else ""
  }

  const NOTHING := "END\r\n"

  function Value(key: string, flags: nat, data: string): (text: string) {
    "VALUE " + key + " " + Show(flags) + " " + Show(|data|) + "\r\n" + data + "\r\n" + "END\r\n"
  }

  function Numbered(key: string, flags: nat, data: string, n: nat): (text: string) {
    "VALUE " + key + " " + Show(flags) + " " + Show(|data|) + " " + Show(n) + "\r\n" + data + "\r\n" + "END\r\n"
  }

  /** The line asks for the update, with a reply; every update that fits has such a line. */
  predicate Asks(line: string, u: Request, data: string) {
    Parse(line) == u && u.Update? && u.bytes == |data| && !HasNoreply(line) && NoLineEnd(line)
  }

  lemma LineAsks(u: Request, data: string)
    requires Fits(u) && NoLineEnd(u.key) && u.bytes == |data|
    ensures Asks(UpdateLine(u, false), u, data)
  {
    hide UpdateLine, Parse, HasNoreply, FindCRLF, IsKey, NoLineEnd;
    ParseUpdateLine(u, false);
    UpdateLineEnds(u, false);
    NoEarlierLineEnd(UpdateLine(u, false));
  }

  /** A line and the data it announces. */
  function Bytes(line: string, data: string): (bytes: string) {
    line + "\r\n" + data + "\r\n"
  }

  // ----- what a get shows

  lemma GetBytes(key: string, numbers: bool)
    requires PlainKey(key)
    ensures var get := Command(Read([key], numbers), false);
      Legal(get) && Wire(get) == (if numbers then "gets " else "get ") + key + "\r\n"
  {
    hide LegalKey;
    var head := if numbers then "gets" else "get";
    assert Words(Read([key], numbers)) == [head, key];
    TwoWords(head, key);
    assert head + " " == if numbers then "gets " else "get ";
    assert Joined([head, key]) + "" == Joined([head, key]);
    var line := Joined([head, key]) + "\r\n";
    assert line + "" == line;
  }

  lemma TwoWords(a: string, b: string)
    ensures Joined([a, b]) == a + " " + b
  {
    assert [a, b][1..] == [b];
  }

  lemma SeesEntry(s: State, key: string, numbers: bool)
    requires Ready(s) && PlainKey(key)
    ensures var c := View(s.store);
      Sees(s, key, numbers) == if key !in c.entries then NOTHING
        else EntryText(key, c.entries[key], numbers) + "END\r\n"
  {
    hide View, Drain, Wire, LegalKey, EntryText, WellStored, Open;
    GetBytes(key, numbers);
    var get := Command(Read([key], numbers), false);
    var r := Served(s, get);
    var c := View(s.store);
    OneEntry(c, key, numbers);
    assert r.out[|s.out|] == Send(EntryTexts(c, [key], numbers) + "END\r\n");
    assert "" + "END\r\n" == NOTHING;
  }

  lemma OneEntry(c: Cache, key: string, numbers: bool)
    ensures EntryTexts(c, [key], numbers) == if key in c.entries then EntryText(key, c.entries[key], numbers) else ""
  {
    hide EntryText;
    assert [key][1..] == [];
    assert EntryTexts(c, [], numbers) == "";
  }

  /** What a client sees is what the server holds, and nothing but an absent key shows nothing. */
  lemma SeesData(s: State, key: string)
    requires Ready(s) && PlainKey(key)
    ensures var c := View(s.store);
      && (Sees(s, key, false) == NOTHING <==> key !in c.entries)
      && (Sees(s, key, true) == NOTHING <==> key !in c.entries)
      && (key in c.entries ==> var e := c.entries[key];
        Sees(s, key, false) == Value(key, e.flags, e.data)
        && Sees(s, key, true) == Numbered(key, e.flags, e.data, e.number))
  {
    hide View, LegalKey, WellStored, Open, Show, Sees;
    SeesEntry(s, key, false);
    SeesEntry(s, key, true);
    var c := View(s.store);
    if key in c.entries {
      var e := c.entries[key];
      var head := "VALUE " + key + " " + Show(e.flags) + " " + Show(|e.data|);
      assert head + "" == head;
      assert |EntryText(key, e, false)| > 0 && |EntryText(key, e, true)| > 0;
      assert head + (" " + Show(e.number)) == head + " " + Show(e.number);
    }
  }

  // ----- the text of a value says its flags, its data and its number

  lemma SplitAt(a: string, x: string, b: string, y: string, c: char)
    requires (forall i :: 0 <= i < |a| ==> a[i] != c) && forall i :: 0 <= i < |b| ==> b[i] != c
    ensures a + [c] + x == b + [c] + y <==> a == b && x == y
  {
    var s, t := a + [c] + x, b + [c] + y;
    assert s[|a|] == c && t[|b|] == c && s[..|a|] == a && t[..|b|] == b && s[|a| + 1..] == x && t[|b| + 1..] == y;
    assert |a| < |b| ==> t[|a|] == b[|a|];
    assert |b| < |a| ==> s[|b|] == a[|b|];
  }

  lemma SameAfter(p: string, x: string, y: string)
    ensures p + x == p + y <==> x == y
  {
    assert (p + x)[|p|..] == x && (p + y)[|p|..] == y;
  }

  lemma SameBefore(x: string, y: string, p: string)
    ensures x + p == y + p <==> x == y
  {
    assert |x| == |y| ==> (x + p)[..|x|] == x && (y + p)[..|y|] == y;
  }

  lemma ShowPlain(n: nat)
    ensures forall i :: 0 <= i < |Show(n)| ==> Show(n)[i] != ' ' && Show(n)[i] != '\r'
  {
    hide Show;
    DecimalOfShow(n);
  }

  lemma ShowInjective(m: nat, n: nat)
    ensures Show(m) == Show(n) <==> m == n
  {
    hide Show;
    DecimalOfShow(m);
    DecimalOfShow(n);
  }

  lemma FlagsApart(key: string, f: nat, x: string, g: nat, y: string)
    ensures "VALUE " + key + " " + Show(f) + " " + x == "VALUE " + key + " " + Show(g) + " " + y <==> f == g && x == y
  {
    hide Show;
    var p := "VALUE " + key + " ";
    ShowPlain(f);
    ShowPlain(g);
    ShowInjective(f, g);
    assert p + Show(f) + " " + x == p + (Show(f) + " " + x) && p + Show(g) + " " + y == p + (Show(g) + " " + y);
    SameAfter(p, Show(f) + " " + x, Show(g) + " " + y);
    SplitAt(Show(f), x, Show(g), y, ' ');
  }

  lemma DataApart(d: string, e: string)
    ensures d + "\r\n" + "END\r\n" == e + "\r\n" + "END\r\n" <==> d == e
  {
    SameBefore(d + "\r\n", e + "\r\n", "END\r\n");
    SameBefore(d, e, "\r\n");
  }

  lemma ValueInjective(key: string, f: nat, d: string, g: nat, e: string)
    ensures Value(key, f, d) == Value(key, g, e) <==> f == g && d == e
  {
    hide Show;
    var x, y := Show(|d|) + "\r\n" + d + "\r\n" + "END\r\n", Show(|e|) + "\r\n" + e + "\r\n" + "END\r\n";
    var p := "VALUE " + key + " ";
    assert Value(key, f, d) == p + Show(f) + " " + x && Value(key, g, e) == p + Show(g) + " " + y;
    FlagsApart(key, f, x, g, y);
    ShowPlain(|d|);
    ShowPlain(|e|);
    DataApart(d, e);
    var m, n := "\n" + (d + "\r\n" + "END\r\n"), "\n" + (e + "\r\n" + "END\r\n");
    assert x == Show(|d|) + "\r" + m && y == Show(|e|) + "\r" + n;
    SplitAt(Show(|d|), m, Show(|e|), n, '\r');
    SameAfter("\n", d + "\r\n" + "END\r\n", e + "\r\n" + "END\r\n");
  }

  lemma NumberedInjective(key: string, f: nat, d: string, m: nat, g: nat, e: string, n: nat)
    ensures Numbered(key, f, d, m) == Numbered(key, g, e, n) <==> f == g && d == e && m == n
  {
    hide Show;
    var v, w := d + "\r\n" + "END\r\n", e + "\r\n" + "END\r\n";
    var x, y := Show(m) + "\r" + ("\n" + v), Show(n) + "\r" + ("\n" + w);
    var p := "VALUE " + key + " ";
    assert Numbered(key, f, d, m) == p + Show(f) + " " + (Show(|d|) + " " + x);
    assert Numbered(key, g, e, n) == p + Show(g) + " " + (Show(|e|) + " " + y);
    FlagsApart(key, f, Show(|d|) + " " + x, g, Show(|e|) + " " + y);
    ShowPlain(|d|);
    ShowPlain(|e|);
    ShowPlain(m);
    ShowPlain(n);
    SplitAt(Show(|d|), x, Show(|e|), y, ' ');
    SplitAt(Show(m), "\n" + v, Show(n), "\n" + w, '\r');
    SameAfter("\n", v, w);
    DataApart(d, e);
    ShowInjective(m, n);
  }

  // ----- the laws

  /** The bytes are answered with the reply alone, the key then shows the text, and every other key what it did. */
  ghost predicate Does(s: State, bytes: string, reply: string, key: string, text: string)
    requires Ready(s)
  {
    var d := Drain(s, bytes);
    && d.rest == "" && Ready(d.s) && d.s.out == s.out + [Send(reply)] && Sees(d.s, key, false) == text
    && forall k, n :: PlainKey(k) && k != key ==> Sees(d.s, k, n) == Sees(s, k, n)
  }

  /** The bytes are answered with the reply alone, and nothing that a client can see changes. */
  ghost predicate Refuses(s: State, bytes: string, reply: string)
    requires Ready(s)
  {
    var d := Drain(s, bytes);
    && d.rest == "" && Ready(d.s) && d.s.out == s.out + [Send(reply)]
    && forall k, n :: PlainKey(k) ==> Sees(d.s, k, n) == Sees(s, k, n)
  }

  lemma SameEntries(s: State, r: State, key: string)
    requires Ready(s) && Ready(r)
    requires forall k :: k != key ==>
      (k in View(s.store).entries <==> k in View(r.store).entries)
      && (k in View(s.store).entries ==> View(r.store).entries[k] == View(s.store).entries[k])
    ensures forall k, n :: PlainKey(k) && k != key ==> Sees(r, k, n) == Sees(s, k, n)
  {
    hide View, WellStored, PlainKey, Open, Sees, Value, Numbered;
    forall k, n | PlainKey(k) && k != key
      ensures Sees(r, k, n) == Sees(s, k, n)
    {
      SeesData(s, k);
      SeesData(r, k);
    }
  }

  lemma SameView(s: State, r: State)
    requires Ready(s) && Ready(r) && View(r.store) == View(s.store)
    ensures forall k, n :: PlainKey(k) ==> Sees(r, k, n) == Sees(s, k, n)
  {
    hide View, WellStored, PlainKey, Open, Sees, Value, Numbered;
    forall k, n | PlainKey(k)
      ensures Sees(r, k, n) == Sees(s, k, n)
    {
      SeesData(s, k);
      SeesData(r, k);
    }
  }

  lemma DeleteLine(key: string, noreply: bool)
    ensures Line(["delete", key], noreply) == "delete " + key + if noreply then " noreply" else ""
  {
    hide Joined;
    TwoWords("delete", key);
    var head := "delete" + " ";
    assert head == "delete ";
  }

  lemma DeleteBytes(key: string)
    requires PlainKey(key)
    ensures var delete := Command(Remove(key, false), false); Legal(delete) && Wire(delete) == "delete " + key + "\r\n"
  {
    hide LegalKey, Joined;
    DeleteLine(key, false);
    assert ["delete", key] + [] == ["delete", key];
    var line := "delete " + key;
    assert line + "" == line && line + "\r\n" + "" == line + "\r\n";
  }

  /**
    A delete is answered `DELETED` exactly if a get of the key showed something, and afterwards a get of the key
    shows nothing; no other key changes.
  */
  lemma DeleteLaw(s: State, key: string)
    requires Ready(s) && PlainKey(key)
    ensures Does(s, "delete " + key + "\r\n", if Sees(s, key, false) == NOTHING then "NOT_FOUND\r\n"
      else "DELETED\r\n", key, NOTHING)
  {
    hide View, WellStored, PlainKey, Open, Sees, Drain, Wire, Value, Numbered;
    DeleteBytes(key);
    var delete := Command(Remove(key, false), false);
    var r := Served(s, delete);
    SeesData(s, key);
    SeesData(r, key);
    SameEntries(s, r, key);
  }

  /** An update of a size that can be framed, from its bytes. */
  lemma UpdateDrained(s: State, line: string, u: Request, data: string) returns (r: State)
    requires Ready(s) && Asks(line, u, data) && |data| <= LARGEST_SIZE
    ensures Drain(s, Bytes(line, data)) == Drained(r, "") && Serves(s, r, WriteStep(View(s.store), u, data, false), 1)
  {
    hide Parse, HasNoreply, View, WellStored, Drain, NoLineEnd, Serves, WriteStep, FindCRLF, AfterUpdate, Open;
    var v := data + "\r\n";
    LineEnds(line);
    UpdateTakesItsValue(s, line, v, "");
    r := AfterUpdate(s, line, v);
    DrainNothing(r);
    assert line + "\r\n" + v + "" == line + "\r\n" + data + "\r\n";
    if |data| > MAX_VALUE {
      assert v[..|v| - 2] == data;
      ServedOversized(s, line, v);
    } else {
      ServedStored(s, line, data);
    }
  }

  /** The answer to an update and what it does, from the entries. */
  lemma UpdateServed(s: State, line: string, u: Request, data: string)
    requires Ready(s) && Asks(line, u, data) && PlainKey(u.key) && |data| <= MAX_VALUE
    ensures var c := View(s.store);
      && (Allowed(c, u) ==> var e := Written(c, u, data);
        Does(s, Bytes(line, data), "STORED\r\n", u.key, Value(u.key, e.flags, e.data)))
      && (!Allowed(c, u) ==>
        Refuses(s, Bytes(line, data), if u.policy != Cas then "NOT_STORED\r\n"
          else if u.key in c.entries then "EXISTS\r\n" else "NOT_FOUND\r\n"))
  {
    hide View, WellStored, PlainKey, Open, Sees, Drain, Value, Numbered, Bytes, Written, Allowed, Parse, HasNoreply,
      NoLineEnd;
    var r := UpdateDrained(s, line, u, data);
    SeesData(r, u.key);
    if Allowed(View(s.store), u) {
      SameEntries(s, r, u.key);
    } else {
      SameView(s, r);
    }
  }

  /** A set is always stored. */
  lemma SetLaw(s: State, line: string, u: Request, data: string)
    requires Ready(s) && Asks(line, u, data) && PlainKey(u.key) && |data| <= MAX_VALUE && u.policy == Set
    ensures Does(s, Bytes(line, data), "STORED\r\n", u.key, Value(u.key, u.flags, data))
  {
    hide View, WellStored, PlainKey, Open, Does, Refuses, Value, Parse, HasNoreply, NoLineEnd, Bytes;
    UpdateServed(s, line, u, data);
  }

  /** An add is stored exactly if a get shows nothing, and a replace exactly if it shows something. */
  lemma AddReplaceLaw(s: State, line: string, u: Request, data: string)
    requires Ready(s) && Asks(line, u, data) && PlainKey(u.key) && |data| <= MAX_VALUE
    requires u.policy == Add || u.policy == Replace
    ensures if (Sees(s, u.key, false) == NOTHING) == (u.policy == Add)
      then Does(s, Bytes(line, data), "STORED\r\n", u.key, Value(u.key, u.flags, data))
      else Refuses(s, Bytes(line, data), "NOT_STORED\r\n")
  {
    hide View, WellStored, PlainKey, Open, Does, Refuses, Value, Numbered, Parse, HasNoreply, NoLineEnd, Bytes,
      Sees;
    UpdateServed(s, line, u, data);
    SeesData(s, u.key);
  }

  /** An append puts its data behind what a get shows and a prepend before it; the flags stay. */
  lemma ExtendLaw(s: State, line: string, u: Request, data: string, flags: nat, shown: string)
    requires Ready(s) && Asks(line, u, data) && PlainKey(u.key) && |data| <= MAX_VALUE
    requires u.policy == Append || u.policy == Prepend
    ensures Sees(s, u.key, false) == NOTHING ==> Refuses(s, Bytes(line, data), "NOT_STORED\r\n")
    ensures Sees(s, u.key, false) == Value(u.key, flags, shown) ==>
      Does(s, Bytes(line, data), "STORED\r\n", u.key,
        Value(u.key, flags, if u.policy == Append then shown + data else data + shown))
  {
    hide View, WellStored, PlainKey, Open, Does, Refuses, Value, Numbered, Parse, HasNoreply, NoLineEnd, Bytes,
      Sees;
    UpdateServed(s, line, u, data);
    SeesData(s, u.key);
    var c := View(s.store);
    if u.key in c.entries {
      ValueInjective(u.key, c.entries[u.key].flags, c.entries[u.key].data, flags, shown);
    } else {
      ValueIsSomething(u.key, flags, shown);
    }
  }

  lemma ValueIsSomething(key: string, flags: nat, data: string)
    ensures Value(key, flags, data) != NOTHING
  {
    hide Show;
    assert Value(key, flags, data)[0] == 'V';
  }

  lemma NumberedIsSomething(key: string, flags: nat, data: string, n: nat)
    ensures Numbered(key, flags, data, n) != NOTHING
  {
    hide Show;
    assert Numbered(key, flags, data, n)[0] == 'V';
  }

  /** A compare-and-swap is stored exactly if its number is the one that a gets shows. */
  lemma CasLaw(s: State, line: string, u: Request, data: string, flags: nat, shown: string, n: nat)
    requires Ready(s) && Asks(line, u, data) && PlainKey(u.key) && |data| <= MAX_VALUE && u.policy == Cas
    ensures Sees(s, u.key, true) == NOTHING ==> Refuses(s, Bytes(line, data), "NOT_FOUND\r\n")
    ensures Sees(s, u.key, true) == Numbered(u.key, flags, shown, n) ==>
      if u.cas == n then Does(s, Bytes(line, data), "STORED\r\n", u.key, Value(u.key, u.flags, data))
      else Refuses(s, Bytes(line, data), "EXISTS\r\n")
  {
    hide View, WellStored, PlainKey, Open, Does, Refuses, Value, Numbered, Parse, HasNoreply, NoLineEnd, Bytes,
      Sees;
    UpdateServed(s, line, u, data);
    SeesData(s, u.key);
    var c := View(s.store);
    if u.key in c.entries {
      var e := c.entries[u.key];
      NumberedInjective(u.key, e.flags, e.data, e.number, flags, shown, n);
    } else {
      NumberedIsSomething(u.key, flags, shown, n);
    }
  }

  /** A value over the limit is thrown away together with what its key showed. */
  lemma OversizedLaw(s: State, line: string, u: Request, data: string)
    requires Ready(s) && Asks(line, u, data) && PlainKey(u.key) && MAX_VALUE < |data| <= LARGEST_SIZE
    ensures Does(s, Bytes(line, data), "SERVER_ERROR object too large for cache\r\n", u.key, NOTHING)
  {
    hide View, WellStored, PlainKey, Open, Sees, Drain, Value, Numbered, Bytes, Parse, HasNoreply, NoLineEnd;
    var r := UpdateDrained(s, line, u, data);
    SeesData(r, u.key);
    SameEntries(s, r, u.key);
  }

  /** A value that does not end in CRLF changes nothing. */
  lemma BadChunkLaw(s: State, line: string, u: Request, v: string)
    requires Ready(s) && |v| >= 2 && Asks(line, u, v[..|v| - 2]) && |v| <= MAX_VALUE + 2 && !EndsWithCRLF(v)
    ensures Refuses(s, line + "\r\n" + v, "CLIENT_ERROR bad data chunk\r\n")
  {
    hide View, WellStored, NoLineEnd, Sees, Drain, Parse, HasNoreply, FindCRLF, AfterUpdate, Open;
    LineEnds(line);
    UpdateTakesItsValue(s, line, v, "");
    var r := AfterUpdate(s, line, v);
    BadChunk(s, line, v);
    assert line + "\r\n" + v + "" == line + "\r\n" + v;
    DrainNothing(r);
    SameView(s, r);
  }

  lemma BadChunk(s: State, line: string, v: string)
    requires Ready(s) && Parse(line).Update? && !HasNoreply(line) && !EndsWithCRLF(v)
    requires 0 <= Parse(line).bytes <= MAX_VALUE && |v| == Parse(line).bytes + 2
    ensures var r := AfterUpdate(s, line, v);
      Ready(r) && r.store == s.store && r.out == s.out + [Send("CLIENT_ERROR bad data chunk\r\n")]
  {
    hide Parse, HasNoreply, EndsWithCRLF, WellStored, RelExptime;
    assert "" + v == v;
  }

  /** Setting a value, extending it and getting it shows both parts in order, with the flags of the set. */
  lemma ExtendedIsShown(s: State, setLine: string, u: Request, data: string, extend: string, a: Request, more: string)
    requires Ready(s) && Asks(setLine, u, data) && PlainKey(u.key) && |data| <= MAX_VALUE && u.policy == Set
    requires Asks(extend, a, more) && a.key == u.key && |more| <= MAX_VALUE
    requires a.policy == Append || a.policy == Prepend
    ensures Drain(s, Bytes(setLine, data) + (Bytes(extend, more) + ("get " + u.key + "\r\n"))).s.out ==
      s.out + [Send("STORED\r\n"), Send("STORED\r\n"),
        Send(Value(u.key, u.flags, if a.policy == Append then data + more else more + data))]
  {
    hide View, WellStored, PlainKey, Open, Value, Parse, HasNoreply, NoLineEnd, Bytes, Drain, Sees;
    SetLaw(s, setLine, u, data);
    var s1 := Drain(s, Bytes(setLine, data)).s;
    ExtendLaw(s1, extend, a, more, u.flags, data);
    var s2 := Drain(s1, Bytes(extend, more)).s;
    var get := "get " + u.key + "\r\n";
    AfterHead(s, s1, Bytes(setLine, data), Bytes(extend, more) + get);
    AfterHead(s1, s2, Bytes(extend, more), get);
    SeesSent(s2, u.key);
  }

  lemma SeesSent(s: State, key: string)
    requires Ready(s) && PlainKey(key)
    ensures Drain(s, "get " + key + "\r\n").s.out == s.out + [Send(Sees(s, key, false))]
  {
    hide View, WellStored, LegalKey, Open, Drain, Wire;
    GetBytes(key, false);
    var r := Served(s, Command(Read([key], false), false));
  }

  /**
    `delete k` reads as a delete of `k`, and does what the option says, if and only if the key is not taken for
    the option; otherwise the command has no key, which the source does not check.
  */
  lemma DeleteReads(key: string, noreply: bool)
    requires LegalKey(key)
    ensures var line := "delete " + key + if noreply then " noreply" else "";
      && (Parse(line) == Delete(key) && HasNoreply(line) == noreply <==> noreply || key != "noreply")
      && (!noreply && key == "noreply" ==> Parse(line) == NoKey)
  {
    hide LegalKey, Parse, HasNoreply, Joined;
    if noreply || key != "noreply" {
      DeleteLine(key, noreply);
      assert ["delete", key] + [] == ["delete", key];
      ParseLine(Command(Remove(key, false), noreply));
    } else {
      DeleteAlone();
    }
  }

  lemma DeleteAlone()
    ensures Parse("delete " + "noreply" + "") == NoKey
  {
    hide Tokens;
    var line, rest := "delete " + "noreply" + "", " noreply";
    assert line == "delete" + rest;
    assert line[6..] == rest && line[..6] == "delete";
    OneToken("delete");
  }

  lemma ShutdownLine()
    ensures Tokens("shutdown") == ["shutdown"] && !HasNoreply("shutdown") && NoLineEnd("shutdown")
  {
    hide Tokens, HasNoreply;
    OneToken("shutdown");
    NoreplyWord("", "shutdown");
  }

  lemma ParseShutdown()
    ensures Parse("shutdown") == Shutdown
  {
    hide Tokens, HasNoreply;
    ShutdownLine();
    assert "shutdown" !in Policies();
  }

  /** `quit` asks for the end of the connection, `shutdown` also for the end of the server; nothing is sent. */
  lemma QuitLaw(s: State)
    requires Ready(s)
    ensures Drain(s, "quit" + "\r\n") ==
      Drained(s.(out := s.out + [ShutdownConnection], requests := s.requests + 1), "")
    ensures Drain(s, "shutdown" + "\r\n") ==
      Drained(s.(out := s.out + [ShutdownConnection, StopServer], requests := s.requests + 1), "")
  {
    hide *;
    ParseQuit();
    ParseShutdown();
    QuitLine();
    ShutdownLine();
    Ending(s, "quit", [ShutdownConnection]);
    Ending(s, "shutdown", [ShutdownConnection, StopServer]);
  }

  lemma QuitLine()
    ensures NoLineEnd("quit")
  {
  }

  lemma Ending(s: State, line: string, out: seq<Output>)
    requires Ready(s) && NoLineEnd(line) && (Parse(line) == Quit || Parse(line) == Shutdown)
    requires out == if Parse(line) == Quit then [ShutdownConnection] else [ShutdownConnection, StopServer]
    ensures Drain(s, line + "\r\n") == Drained(s.(out := s.out + out, requests := s.requests + 1), "")
  {
    hide Parse, HasNoreply, Drain, NoLineEnd, WellStored;
    Alone(s, line);
  }

  lemma Alone(s: State, line: string)
    requires Ready(s) && NoLineEnd(line)
    ensures Good(ProcessRequest(s, line)) && Drain(s, line + "\r\n") == Drained(ProcessRequest(s, line), "")
  {
    hide Drain, ProcessRequest;
    LineThen(s, line, "");
    DrainNothing(ProcessRequest(s, line));
    assert line + "\r\n" + "" == line + "\r\n";
  }
}
