/**
  The distributed word count: `wordcount/hasher.cc` counts words and sends `word TAB count CRLF` records to
  the receiver that the hash of the word names; `wordcount/receiver.cc` adds them up.
*/
module WordCount {
  import opened Texts

  datatype Record = Record(word: string, count: int)

  /** What `operator>>` reads: no white space in it. */
  predicate IsWord(w: string) {
    w != "" && forall i :: 0 <= i < |w| ==> w[i] != '\t' && w[i] != '\r' && w[i] != '\n' && w[i] != ' '
  }

  ghost function Occurrences(ws: seq<string>, w: string): (n: nat) {
    if ws == [] then 0 else Occurrences(ws[..|ws| - 1], w) + if ws[|ws| - 1] == w then 1 else 0
  }

  ghost function Total(rs: seq<Record>, w: string): (n: int) {
    if rs == [] then 0 else Total(rs[..|rs| - 1], w) + if rs[|rs| - 1].word == w then rs[|rs| - 1].count else 0
  }

  lemma OccurrencesSnoc(ws: seq<string>, x: string, w: string)
    ensures Occurrences(ws + [x], w) == Occurrences(ws, w) + if x == w then 1 else 0
  {
    assert (ws + [x])[..|ws|] == ws;
  }

  lemma TotalSnoc(rs: seq<Record>, r: Record, w: string)
    ensures Total(rs + [r], w) == Total(rs, w) + if r.word == w then r.count else 0
  {
    assert (rs + [r])[..|rs|] == rs;
  }

  lemma {:induction false} TotalConcat(a: seq<Record>, b: seq<Record>, w: string)
    ensures Total(a + b, w) == Total(a, w) + Total(b, w)
  {
    if b == [] {
      assert a + b == a;
    } else {
      TotalConcat(a, b[..|b| - 1], w);
      assert (a + b)[..|a + b| - 1] == a + b[..|b| - 1];
    }
  }

  lemma {:induction false} TotalOfAbsent(rs: seq<Record>, w: string)
    requires forall i :: 0 <= i < |rs| ==> rs[i].word != w
    ensures Total(rs, w) == 0
  {
    if rs != [] {
      TotalOfAbsent(rs[..|rs| - 1], w);
    }
  }

  /** The words that the records name. */
  ghost function WordsIn(rs: seq<Record>): (ws: set<string>) {
    if rs == [] then {} else WordsIn(rs[..|rs| - 1]) + {rs[|rs| - 1].word}
  }

  lemma WordsSnoc(rs: seq<Record>, r: Record)
    ensures WordsIn(rs + [r]) == WordsIn(rs) + {r.word}
  {
    assert (rs + [r])[..|rs|] == rs;
  }

  lemma {:induction false} WordsConcat(a: seq<Record>, b: seq<Record>)
    ensures WordsIn(a + b) == WordsIn(a) + WordsIn(b)
  {
    if b == [] {
      assert a + b == a;
    } else {
      WordsConcat(a, b[..|b| - 1]);
      assert (a + b)[..|a + b| - 1] == a + b[..|b| - 1];
    }
  }

  /** No record counts less than one. */
  ghost predicate Positive(rs: seq<Record>) {
    forall i :: 0 <= i < |rs| ==> rs[i].count > 0
  }

  lemma {:induction false} CountedIfNamed(rs: seq<Record>, w: string)
    requires Positive(rs)
    ensures Total(rs, w) >= 0 && (Total(rs, w) > 0 <==> w in WordsIn(rs))
  {
    if rs != [] {
      CountedIfNamed(rs[..|rs| - 1], w);
    }
  }

  // ----- records as text

  function Line(r: Record): (s: string) {
    r.word + "\t" + ShowInt(r.count) + "\r\n"
  }

  ghost function Text(rs: seq<Record>): (s: string) {
    if rs == [] then "" else Text(rs[..|rs| - 1]) + Line(rs[|rs| - 1])
  }

  lemma TextSnoc(rs: seq<Record>, r: Record)
    ensures Text(rs + [r]) == Text(rs) + Line(r)
  {
    assert (rs + [r])[..|rs|] == rs;
  }

  function FindTab(s: string): (i: nat)
    ensures i <= |s| && (i < |s| ==> s[i] == '\t') && forall j :: 0 <= j < i ==> s[j] != '\t'
  {
    if s == "" || s[0] == '\t' then 0 else
      var i := FindTab(s[1..]);
      i + 1
  }

  /** A line with a tab and a number after it; a line without a tab is an error and gives no record. */
  function ParseLine(line: string): (rs: seq<Record>)
    ensures |rs| <= 1
  {
    var tab := FindTab(line);
    if tab == |line| then [] else [Record(line[..tab], Atoll(line[tab..]))]
  }

  datatype Parsed = Parsed(records: seq<Record>, wrong: bool, rest: string)

  /** The loop of the receiver on the bytes of one connection. */
  function Split(buf: string): (p: Parsed)
    decreases |buf|
  {
    var i := FindCRLF(buf);
    if i == |buf| then Parsed([], false, buf)
    else
      var p := Split(buf[i + 2..]);
      Parsed(ParseLine(buf[..i]) + p.records, ParseLine(buf[..i]) == [] || p.wrong, p.rest)
  }

  /** The stream may be cut anywhere. */
  lemma {:induction false} SplitInPortions(a: string, b: string)
    ensures var p := Split(a); var q := Split(p.rest + b);
      Split(a + b) == Parsed(p.records + q.records, p.wrong || q.wrong, q.rest)
    decreases |a|
  {
    hide ParseLine, FindCRLF;
    var i := FindCRLF(a);
    if i == |a| {
      var q := Split(a + b);
      assert [] + q.records == q.records;
    } else {
      FindInPrefix(a, b);
      assert (a + b)[..i] == a[..i] && (a + b)[i + 2..] == a[i + 2..] + b;
      SplitInPortions(a[i + 2..], b);
      var p := Split(a[i + 2..]);
      var q := Split(p.rest + b);
      var r := ParseLine(a[..i]);
      assert r + (p.records + q.records) == (r + p.records) + q.records;
    }
  }

  lemma ParseOwnLine(r: Record)
    requires IsWord(r.word)
    ensures FindCRLF(Line(r)) == |Line(r)| - 2 && ParseLine(Line(r)[..|Line(r)| - 2]) == [r]
  {
    hide Show, Atoll;
    var n := ShowInt(r.count);
    AtollOfShowInt(r.count);
    DecimalOfShow(if r.count < 0 then -r.count else r.count);
    var s := Line(r);
    var line := r.word + "\t" + n;
    assert s[..|s| - 2] == line;
    assert forall j :: 0 <= j < |r.word| ==> line[j] == r.word[j];
    assert line[|r.word|] == '\t';
    FirstTab(line, |r.word|);
    assert line[..|r.word|] == r.word && line[|r.word|..] == "\t" + n;
    forall j | 0 <= j < |s| - 2
      ensures s[j] != '\r'
    {
      if j > |r.word| {
        assert s[j] == n[j - |r.word| - 1];
      }
    }
    FirstCRLF(s, |s| - 2);
  }

  lemma FirstTab(s: string, i: nat)
    requires i < |s| && s[i] == '\t' && forall j :: 0 <= j < i ==> s[j] != '\t'
    ensures FindTab(s) == i
  {
  }

  lemma SplitOne(r: Record)
    requires IsWord(r.word)
    ensures Split(Line(r)) == Parsed([r], false, "")
  {
    hide ParseLine;
    ParseOwnLine(r);
    assert Line(r)[|Line(r)|..] == "";
    assert Split("") == Parsed([], false, "");
  }

  /** Whatever records a hasher wrote, the receiver reads the same records. */
  lemma {:induction false} SplitText(rs: seq<Record>)
    requires forall i :: 0 <= i < |rs| ==> IsWord(rs[i].word)
    ensures Split(Text(rs)) == Parsed(rs, false, "")
  {
    hide Split, Line, IsWord;
    if rs == [] {
      SplitNothing();
    } else {
      var init, r := rs[..|rs| - 1], rs[|rs| - 1];
      SplitText(init);
      SplitInPortions(Text(init), Line(r));
      SplitOne(r);
      assert "" + Line(r) == Line(r);
      assert init + [r] == rs;
    }
  }

  lemma SplitNothing()
    ensures Split("") == Parsed([], false, "")
  {
  }

  // ----- the hasher

  function Owner(hash: string -> nat, n: nat, w: string): (b: nat)
    requires n > 0
    ensures b < n
  {
    hash(w) % n
  }

  /** Every record is in the list of the receiver of its word. */
  ghost predicate Sharded(hash: string -> nat, records: seq<seq<Record>>) {
    |records| > 0 && forall b, i :: 0 <= b < |records| && 0 <= i < |records[b]| ==>
      IsWord(records[b][i].word) && Owner(hash, |records|, records[b][i].word) == b
  }

  ghost predicate AllPositive(records: seq<seq<Record>>) {
    forall b :: 0 <= b < |records| ==> Positive(records[b])
  }

  function Lookup(m: map<string, nat>, w: string): (n: nat) {
    if w in m then m[w] else 0
  }

  /** The records and the counts not sent yet add up to the words read. */
  ghost predicate Balanced(hash: string -> nat, records: seq<seq<Record>>, open: map<string, nat>, words: seq<string>) {
    |records| > 0 && forall w :: Total(records[Owner(hash, |records|, w)], w) + Lookup(open, w) == Occurrences(words, w)
  }

  lemma WordRead(hash: string -> nat, records: seq<seq<Record>>, open: map<string, nat>, words: seq<string>, x: string)
    requires Balanced(hash, records, open, words)
    ensures Balanced(hash, records, open[x := Lookup(open, x) + 1], words + [x])
  {
    forall w
      ensures Occurrences(words + [x], w) == Occurrences(words, w) + if x == w then 1 else 0
    {
      OccurrencesSnoc(words, x, w);
    }
  }

  lemma OneMoreKey(counts: map<string, nat>, word: string)
    ensures |counts[word := Lookup(counts, word) + 1]| == |counts| + if word in counts then 0 else 1
  {
    var more := counts[word := Lookup(counts, word) + 1];
    assert more.Keys == counts.Keys + {word};
    assert |more.Keys| == |more| && |counts.Keys| == |counts|;
  }

  lemma RecordSent(hash: string -> nat, records: seq<seq<Record>>, open: map<string, nat>, words: seq<string>,
                   x: string)
    requires Balanced(hash, records, open, words) && Sharded(hash, records) && x in open && IsWord(x)
    ensures var b := Owner(hash, |records|, x); var records' := records[b := records[b] + [Record(x, open[x])]];
      Balanced(hash, records', open - {x}, words) && Sharded(hash, records')
  {
    var b := Owner(hash, |records|, x);
    var records' := records[b := records[b] + [Record(x, open[x])]];
    forall w
      ensures Total(records'[Owner(hash, |records'|, w)], w) + Lookup(open - {x}, w) == Occurrences(words, w)
    {
      TotalSnoc(records[b], Record(x, open[x]), w);
    }
  }

  class WordCountSender {
    const hash: string -> nat
    const batchSize: nat
    const maxHashSize: nat
    const buffers: array<string>       // one per receiver, not handed to the connection yet
    const streams: array<string>       // what each connection was given
    ghost var records: seq<seq<Record>>
    ghost var words: seq<string>       // all words read

    constructor (h: string -> nat, receivers: nat, batch: nat, maxSize: nat)
      requires receivers > 0
      ensures Valid() && fresh(buffers) && fresh(streams) && buffers.Length == receivers && hash == h && words == []
      ensures Balanced(hash, records, map[], words) && AllPositive(records)
    {
      hash, batchSize, maxHashSize := h, batch, maxSize;
      buffers := new string[receivers](_ => "");
      streams := new string[receivers](_ => "");
      records := seq(receivers, _ => []);
      words := [];
    }

    /** Each connection was given, or will be, exactly the text of its records. */
    ghost predicate Valid()
      reads this, buffers, streams
    {
      && buffers != streams && buffers.Length == streams.Length == |records| && Sharded(hash, records)
      && forall b :: 0 <= b < buffers.Length ==> streams[b] + buffers[b] == Text(records[b])
    }

    /** `SendThrottler::send` on the bucket of the word. */
    method Send(word: string, count: int)
      requires Valid() && IsWord(word)
      modifies this`records, buffers, streams
      ensures Valid() && |records| == |old(records)|
      ensures var b := Owner(hash, |records|, word);
        records == old(records)[b := old(records)[b] + [Record(word, count)]]
      ensures var b, line := Owner(hash, |records|, word), Line(Record(word, count));
        && buffers[b] == (if |old(buffers[b])| + |line| < batchSize then old(buffers[b]) + line else "")
        && forall k :: 0 <= k < buffers.Length && k != b ==>
          buffers[k] == old(buffers[k]) && streams[k] == old(streams[k])
    {
      hide Line, Text;
      var idx := hash(word) % buffers.Length;
      ghost var r := Record(word, count);
      TextSnoc(records[idx], r);
      records := records[idx := records[idx] + [r]];
      buffers[idx] := buffers[idx] + Line(Record(word, count));
      assert streams[idx] + buffers[idx] == Text(records[idx]);
      if |buffers[idx]| >= batchSize {
        streams[idx] := streams[idx] + buffers[idx];
        buffers[idx] := "";
      }
    }

    /** The records of a full table of counts, in whatever order the table gives them. */
    method SendAll(counts: map<string, nat>)
      requires Valid() && Balanced(hash, records, counts, words) && AllPositive(records)
      requires forall w :: w in counts ==> IsWord(w) && counts[w] > 0
      modifies this`records, buffers, streams
      ensures Valid() && Balanced(hash, records, map[], words) && AllPositive(records)
    {
      hide Sharded, Balanced, IsWord;
      var rest := counts;
      while rest != map[]
        invariant Valid() && Balanced(hash, records, rest, words) && AllPositive(records)
        invariant forall w :: w in rest ==> IsWord(w) && rest[w] > 0
        decreases |rest|
      {
        assert rest.Keys != {};
        var w :| w in rest;
        RecordSent(hash, records, rest, words, w);
        Send(w, rest[w]);
        assert rest.Keys == (rest - {w}).Keys + {w};
        rest := rest - {w};
      }
    }

    /** `processFile`: tables of at most `maxHashSize` words and one more, one after the other. */
    method ProcessFile(input: seq<string>) returns (ghost sizes: seq<nat>)
      requires Valid() && Balanced(hash, records, map[], words) && AllPositive(records)
      requires forall i :: 0 <= i < |input| ==> IsWord(input[i])
      modifies this`records, this`words, buffers, streams
      ensures Valid() && Balanced(hash, records, map[], words) && AllPositive(records) && words == old(words) + input
      ensures forall k :: 0 <= k < |sizes| ==> sizes[k] <= maxHashSize + 1
      ensures forall k :: 0 <= k < |sizes| - 1 ==> sizes[k] == maxHashSize + 1
    {
      hide Sharded, Balanced, IsWord, AllPositive;
      var i := 0;
      var good := true;
      sizes := [];
      while good
        invariant forall k :: 0 <= k < |sizes| ==> sizes[k] <= maxHashSize + 1
        invariant forall k :: 0 <= k < |sizes| && (good || k < |sizes| - 1) ==> sizes[k] == maxHashSize + 1
        invariant 0 <= i <= |input| && words == old(words) + input[..i] && (!good ==> i == |input|)
        invariant Valid() && Balanced(hash, records, map[], words) && AllPositive(records)
        decreases |input| - i, good
      {
        var counts: map<string, nat> := map[];
        ghost var before := i;
        while true
          invariant |counts| <= maxHashSize
          invariant before <= i <= |input| && good && words == old(words) + input[..i]
          invariant Valid() && Balanced(hash, records, counts, words) && AllPositive(records)
          invariant forall w :: w in counts ==> IsWord(w) && counts[w] > 0
          decreases |input| - i
        {
          if i == |input| {
            good := false;
            break;
          }
          var word := input[i];
          WordRead(hash, records, counts, words, word);
          OneMoreKey(counts, word);
          counts := counts[word := Lookup(counts, word) + 1];
          words := words + [word];
          i := i + 1;
          if |counts| > maxHashSize {
            break;
          }
        }
        sizes := sizes + [|counts|];
        SendAll(counts);
      }
    }

    /** `disconnect` of every bucket hands over what is left. */
    method DisconnectAll()
      requires Valid()
      modifies buffers, streams
      ensures Valid() && forall b :: 0 <= b < streams.Length ==> streams[b] == Text(records[b])
    {
      hide Text, Sharded;
      for b := 0 to buffers.Length
        invariant Valid() && forall k :: 0 <= k < b ==> buffers[k] == ""
      {
        ghost var all := streams[b] + buffers[b];
        streams[b] := streams[b] + buffers[b];
        buffers[b] := "";
        assert all + "" == all;
      }
      forall b | 0 <= b < streams.Length
        ensures streams[b] == Text(records[b])
      {
        assert streams[b] + "" == streams[b];
      }
    }
  }

  // ----- the receiver

  function LookupInt(m: map<string, int>, w: string): (n: int) {
    if w in m then m[w] else 0
  }

  /** What the connections together brought for a word. */
  ghost function TotalOver(parsed: seq<seq<Record>>, w: string): (n: int) {
    if parsed == [] then 0 else TotalOver(parsed[..|parsed| - 1], w) + Total(parsed[|parsed| - 1], w)
  }

  lemma {:induction false} TotalOverUpdate(parsed: seq<seq<Record>>, c: nat, rs: seq<Record>, w: string)
    requires c < |parsed|
    ensures TotalOver(parsed[c := parsed[c] + rs], w) == TotalOver(parsed, w) + Total(rs, w)
  {
    var k := |parsed| - 1;
    var parsed' := parsed[c := parsed[c] + rs];
    if c == k {
      assert parsed'[..k] == parsed[..k];
      TotalConcat(parsed[c], rs, w);
    } else {
      assert parsed'[..k] == parsed[..k][c := parsed[c] + rs];
      TotalOverUpdate(parsed[..k], c, rs, w);
    }
  }

  lemma TotalOverOneMore(parsed: seq<seq<Record>>, w: string)
    ensures TotalOver(parsed + [[]], w) == TotalOver(parsed, w)
  {
    assert (parsed + [[]])[..|parsed|] == parsed;
  }

  ghost function WordsOver(parsed: seq<seq<Record>>): (ws: set<string>) {
    if parsed == [] then {} else WordsOver(parsed[..|parsed| - 1]) + WordsIn(parsed[|parsed| - 1])
  }

  lemma {:induction false} WordsOverUpdate(parsed: seq<seq<Record>>, c: nat, rs: seq<Record>)
    requires c < |parsed|
    ensures WordsOver(parsed[c := parsed[c] + rs]) == WordsOver(parsed) + WordsIn(rs)
  {
    var k := |parsed| - 1;
    var parsed' := parsed[c := parsed[c] + rs];
    if c == k {
      assert parsed'[..k] == parsed[..k];
      WordsConcat(parsed[c], rs);
    } else {
      assert parsed'[..k] == parsed[..k][c := parsed[c] + rs];
      WordsOverUpdate(parsed[..k], c, rs);
    }
  }

  lemma WordsOverOneMore(parsed: seq<seq<Record>>)
    ensures WordsOver(parsed + [[]]) == WordsOver(parsed)
  {
    assert (parsed + [[]])[..|parsed|] == parsed;
  }

  /** The counts are those of all complete lines of all the streams; the rest of each stream is unread. */
  ghost predicate Counted(received: seq<string>, parsed: seq<seq<Record>>, wrong: seq<bool>, inputs: seq<string>,
                          counts: map<string, int>) {
    && |received| == |parsed| == |wrong| == |inputs|
    && (forall c :: 0 <= c < |received| ==> Split(received[c]) == Parsed(parsed[c], wrong[c], inputs[c]))
    && (forall w :: LookupInt(counts, w) == TotalOver(parsed, w))
    && counts.Keys == WordsOver(parsed)
  }

  lemma CountedNew(received: seq<string>, parsed: seq<seq<Record>>, wrong: seq<bool>, inputs: seq<string>,
                   counts: map<string, int>)
    requires Counted(received, parsed, wrong, inputs, counts)
    ensures Counted(received + [""], parsed + [[]], wrong + [false], inputs + [""], counts)
    ensures |received| == |inputs|
  {
    hide Split, TotalOver, LookupInt, WordsOver;
    SplitNothing();
    WordsOverOneMore(parsed);
    forall w
      ensures TotalOver(parsed + [[]], w) == TotalOver(parsed, w)
    {
      TotalOverOneMore(parsed, w);
    }
  }

  /** How many of the connections are closed. */
  ghost function Closed(open: seq<bool>): (n: nat) {
    if open == [] then 0 else Closed(open[..|open| - 1]) + if open[|open| - 1] then 0 else 1
  }

  lemma {:induction false} ClosedUpdate(open: seq<bool>, c: nat)
    requires c < |open| && open[c]
    ensures Closed(open[c := false]) == Closed(open) + 1
  {
    var k := |open| - 1;
    if c == k {
      assert open[c := false][..k] == open[..k];
    } else {
      assert open[c := false][..k] == open[..k][c := false];
      ClosedUpdate(open[..k], c);
    }
  }

  lemma {:induction false} AllClosed(open: seq<bool>)
    ensures Closed(open) <= |open| && (Closed(open) == |open| <==> forall c :: 0 <= c < |open| ==> !open[c])
  {
    if open != [] {
      AllClosed(open[..|open| - 1]);
    }
  }

  lemma OneMoreOpen(open: seq<bool>)
    ensures Closed(open + [true]) == Closed(open)
  {
    assert (open + [true])[..|open|] == open;
  }

  class WordCountReceiver {
    ghost const expected: int              // the number given to `start`
    var senders: int
    var wordcounts: map<string, int>
    var inputs: seq<string>                // unread bytes of each connection
    var open: seq<bool>
    var shutdown: seq<bool>                // asked to close for a line without a tab
    var shards: seq<map<string, int>>      // what `output` wrote
    ghost var streams: seq<string>         // what the peer of each connection sends before it closes
    ghost var received: seq<string>        // what of it has arrived
    ghost var parsed: seq<seq<Record>>

    /** The constructor and `start`. */
    constructor (n: int)
      ensures Valid() && expected == senders == n && streams == [] && shards == []
    {
      expected, senders, wordcounts, inputs, open, shutdown, shards := n, n, map[], [], [], [], [];
      streams, received, parsed := [], [], [];
    }

    /**
      The counts are those of what has arrived; a closed connection has brought everything; and if there
      are as many connections as senders were expected, the shard is written when all have closed, once,
      with all that they sent.
    */
    ghost predicate Valid()
      reads this
    {
      && Counted(received, parsed, shutdown, inputs, wordcounts)
      && |open| == |streams| == |received|
      && (forall c :: 0 <= c < |streams| ==> received[c] <= streams[c] && (!open[c] ==> received[c] == streams[c]))
      && senders + Closed(open) == expected
      && (senders > 0 ==> shards == [])
      && (|streams| == expected && expected > 0 && senders <= 0 ==> shards == [wordcounts])
    }

    /** A sender connects; `stream` is what it is going to send. */
    method Connect(ghost stream: string)
      requires Valid()
      modifies this`inputs, this`open, this`shutdown, this`streams, this`received, this`parsed
      ensures Valid() && streams == old(streams) + [stream] && received == old(received) + [""]
    {
      hide Counted, Closed;
      CountedNew(received, parsed, shutdown, inputs, wordcounts);
      AllClosed(open);
      OneMoreOpen(open);
      inputs, open, shutdown := inputs + [""], open + [true], shutdown + [false];
      streams, received, parsed := streams + [stream], received + [""], parsed + [[]];
    }

    /**
      A connection goes down after its last byte; the last of the expected senders makes the receiver write its
      shard.
    */
    method Disconnect(c: nat)
      requires Valid() && c < |open| && open[c] && received[c] == streams[c]
      modifies this`open, this`senders, this`shards
      ensures Valid() && senders == old(senders) - 1 && open == old(open)[c := false]
      ensures shards == if old(senders) == 1 then old(shards) + [wordcounts] else old(shards)
    {
      hide Counted, Closed;
      ClosedUpdate(open, c);
      open := open[c := false];
      senders := senders - 1;
      if senders == 0 {
        shards := shards + [wordcounts];
      }
    }

    /** Some bytes arrive on one connection, cut anywhere and interleaved with the others in any way. */
    method OnMessage(c: nat, chunk: string)
      requires Valid() && c < |open| && open[c] && received[c] + chunk <= streams[c]
      modifies this`wordcounts, this`inputs, this`shutdown, this`received, this`parsed
      ensures Valid() && received == old(received)[c := old(received)[c] + chunk]
    {
      hide Split, LookupInt, TotalOver, WordsOver, Closed;
      AllClosed(open);
      SplitInPortions(received[c], chunk);
      var buf := inputs[c] + chunk;
      ghost var records := Split(buf).records;
      var rest, wrong := AddLines(buf);
      forall w
        ensures TotalOver(parsed[c := parsed[c] + records], w) == TotalOver(parsed, w) + Total(records, w)
      {
        TotalOverUpdate(parsed, c, records, w);
      }
      WordsOverUpdate(parsed, c, records);
      received := received[c := received[c] + chunk];
      parsed := parsed[c := parsed[c] + records];
      inputs := inputs[c := rest];
      shutdown := shutdown[c := shutdown[c] || wrong];
    }

    /** The loop of `onMessage`. */
    method AddLines(start: string) returns (buf: string, wrong: bool)
      modifies this`wordcounts
      ensures buf == Split(start).rest && wrong == Split(start).wrong
      ensures forall w :: LookupInt(wordcounts, w) == LookupInt(old(wordcounts), w) + Total(Split(start).records, w)
      ensures wordcounts.Keys == old(wordcounts).Keys + WordsIn(Split(start).records)
    {
      hide FindCRLF, ParseLine, Total, WordsIn;
      buf, wrong := start, false;
      ghost var done: seq<Record> := [];
      NoRecords();
      assert forall rs: seq<Record> :: [] + rs == rs;
      while FindCRLF(buf) < |buf|
        invariant Split(start) == Parsed(done + Split(buf).records, wrong || Split(buf).wrong, Split(buf).rest)
        invariant forall w :: LookupInt(wordcounts, w) == LookupInt(old(wordcounts), w) + Total(done, w)
        invariant wordcounts.Keys == old(wordcounts).Keys + WordsIn(done)
        decreases |buf|
      {
        var i := FindCRLF(buf);
        var rs := ParseLine(buf[..i]);
        ghost var more := Split(buf[i + 2..]).records;
        assert done + (rs + more) == (done + rs) + more;
        if rs != [] {
          assert rs == [rs[0]];
          forall w
            ensures Total(done + rs, w) == Total(done, w) + if rs[0].word == w then rs[0].count else 0
          {
            TotalSnoc(done, rs[0], w);
          }
          WordsSnoc(done, rs[0]);
          wordcounts := wordcounts[rs[0].word := LookupInt(wordcounts, rs[0].word) + rs[0].count];
        } else {
          assert done + rs == done;
          wrong := true;
        }
        done := done + rs;
        buf := buf[i + 2..];
      }
      assert done + [] == done;
    }
  }

  lemma NoRecords()
    ensures (forall w :: Total([], w) == 0) && WordsIn([]) == {}
  {
  }

  // ----- end to end

  /** What a hasher wrote for each receiver, and the words it read. */
  datatype Hasher = Hasher(records: seq<seq<Record>>, words: seq<string>)

  /** What every hasher guarantees once it has disconnected, with `n` receivers. */
  ghost predicate Hashed(hash: string -> nat, n: nat, h: Hasher) {
    |h.records| == n && Sharded(hash, h.records) && Balanced(hash, h.records, map[], h.words) && AllPositive(h.records)
  }

  ghost function OccurrencesOver(hashers: seq<Hasher>, w: string): (n: nat) {
    if hashers == [] then 0
    else OccurrencesOver(hashers[..|hashers| - 1], w) + Occurrences(hashers[|hashers| - 1].words, w)
  }

  lemma {:induction false} OccurrencesWithout(hs: seq<Hasher>, i: nat, w: string)
    requires i < |hs|
    ensures OccurrencesOver(hs, w) == OccurrencesOver(hs[..i] + hs[i + 1..], w) + Occurrences(hs[i].words, w)
  {
    var k := |hs| - 1;
    var rest := hs[..i] + hs[i + 1..];
    if i == k {
      assert rest == hs[..k];
    } else {
      OccurrencesWithout(hs[..k], i, w);
      assert rest[..|rest| - 1] == hs[..k][..i] + hs[..k][i + 1..] && rest[|rest| - 1] == hs[k];
    }
  }

  lemma Counterpart(hs: seq<Hasher>, hs': seq<Hasher>) returns (i: nat)
    requires multiset(hs) == multiset(hs') && hs != []
    ensures i < |hs'| && hs'[i] == hs[|hs| - 1] && multiset(hs[..|hs| - 1]) == multiset(hs'[..i] + hs'[i + 1..])
  {
    var k := |hs| - 1;
    assert hs[k] in multiset(hs');
    i :| 0 <= i < |hs'| && hs'[i] == hs[k];
    Removed(hs, k);
    Removed(hs', i);
    assert hs[..k] + hs[k + 1..] == hs[..k];
    var a, b := multiset(hs[..k]), multiset(hs'[..i] + hs'[i + 1..]);
    assert (a + multiset{hs[k]}) - multiset{hs[k]} == a && (b + multiset{hs[k]}) - multiset{hs[k]} == b;
  }

  lemma Removed(s: seq<Hasher>, i: nat)
    requires i < |s|
    ensures multiset(s) == multiset(s[..i] + s[i + 1..]) + multiset{s[i]}
  {
    assert s == s[..i] + ([s[i]] + s[i + 1..]);
  }

  /** The order of the hashers does not matter. */
  lemma {:induction false} OccurrencesInAnyOrder(hs: seq<Hasher>, hs': seq<Hasher>, w: string)
    requires multiset(hs) == multiset(hs')
    ensures OccurrencesOver(hs, w) == OccurrencesOver(hs', w)
    decreases |hs|
  {
    assert |multiset(hs)| == |multiset(hs')|;
    if hs != [] {
      var k := |hs| - 1;
      var i := Counterpart(hs, hs');
      OccurrencesInAnyOrder(hs[..k], hs'[..i] + hs'[i + 1..], w);
      OccurrencesWithout(hs', i, w);
    }
  }

  lemma {:induction false} SumOverHashers(hash: string -> nat, n: nat, hs: seq<Hasher>, parsed: seq<seq<Record>>,
                                          b: nat, w: string)
    requires b < n && |parsed| == |hs|
    requires forall c :: 0 <= c < |hs| ==> Hashed(hash, n, hs[c]) && parsed[c] == hs[c].records[b]
    ensures TotalOver(parsed, w) == if b == Owner(hash, n, w) then OccurrencesOver(hs, w) else 0
    ensures w in WordsOver(parsed) <==> TotalOver(parsed, w) > 0
  {
    if parsed != [] {
      var k := |parsed| - 1;
      SumOverHashers(hash, n, hs[..k], parsed[..k], b, w);
      OneHasher(hash, hs[k].records, hs[k].words, b, w);
      CountedIfNamed(parsed[k], w);
    }
  }

  lemma OneHasher(hash: string -> nat, records: seq<seq<Record>>, words: seq<string>, b: nat, w: string)
    requires b < |records| && Sharded(hash, records) && Balanced(hash, records, map[], words)
    ensures Total(records[b], w) == if b == Owner(hash, |records|, w) then Occurrences(words, w) else 0
  {
    if b != Owner(hash, |records|, w) {
      TotalOfAbsent(records[b], w);
    }
  }

  /** The streams of the hashers, read by one receiver: its counts are the words it owns, and no line was wrong. */
  lemma StreamsCounted(hash: string -> nat, n: nat, connected: seq<Hasher>, b: nat, received: seq<string>,
                       parsed: seq<seq<Record>>, wrong: seq<bool>, inputs: seq<string>, counts: map<string, int>,
                       w: string)
    requires b < n && |received| == |connected|
    requires forall c :: 0 <= c < |connected| ==>
      Hashed(hash, n, connected[c]) && received[c] == Text(connected[c].records[b])
    requires Counted(received, parsed, wrong, inputs, counts)
    ensures LookupInt(counts, w) == if b == Owner(hash, n, w) then OccurrencesOver(connected, w) else 0
    ensures w in counts <==> b == Owner(hash, n, w) && OccurrencesOver(connected, w) > 0
    ensures forall c :: 0 <= c < |inputs| ==> inputs[c] == "" && !wrong[c]
  {
    hide Split, Text, Balanced, Owner, TotalOver, WordsOver, LookupInt, OccurrencesOver;
    forall c | 0 <= c < |connected|
      ensures parsed[c] == connected[c].records[b] && inputs[c] == "" && !wrong[c]
    {
      assert Hashed(hash, n, connected[c]) && Sharded(hash, connected[c].records);
      SplitText(connected[c].records[b]);
    }
    SumOverHashers(hash, n, connected, parsed, b, w);
  }

  /**
    Any number of hashers, whatever their batches and tables, connecting to receiver `b` in any order and
    however the network cuts and interleaves their streams: when the last of them has gone, the one shard
    that the receiver has written holds each word that its hash assigns to it, with all its occurrences
    in all input, and no other word; no line was wrong.
  */
  lemma WordsAreConserved(hash: string -> nat, n: nat, hashers: seq<Hasher>, connected: seq<Hasher>, b: nat,
                          receiver: WordCountReceiver, w: string)
    requires b < n && hashers != [] && multiset(connected) == multiset(hashers)
    requires forall h :: h in hashers ==> Hashed(hash, n, h)
    requires receiver.Valid() && receiver.expected == |hashers| && receiver.senders == 0
    requires |receiver.streams| == |connected|
    requires forall c :: 0 <= c < |connected| && b < |connected[c].records| ==>
      receiver.streams[c] == Text(connected[c].records[b])
    ensures receiver.shards == [receiver.wordcounts]
    ensures LookupInt(receiver.shards[0], w) == if b == Owner(hash, n, w) then OccurrencesOver(hashers, w) else 0
    ensures w in receiver.shards[0] <==> b == Owner(hash, n, w) && OccurrencesOver(hashers, w) > 0
    ensures forall c :: 0 <= c < |receiver.shutdown| ==> !receiver.shutdown[c]
  {
    hide Counted, Hashed, Text, Owner;
    assert |connected| == |multiset(connected)| == |multiset(hashers)| == |hashers|;
    AllClosed(receiver.open);
    forall c | 0 <= c < |connected|
      ensures Hashed(hash, n, connected[c]) && b < |connected[c].records|
      ensures receiver.received[c] == Text(connected[c].records[b])
    {
      assert connected[c] in multiset(connected);
      assert connected[c] in hashers;
      HashedWidth(hash, n, connected[c]);
    }
    CountedSizes(receiver);
    StreamsCounted(hash, n, connected, b, receiver.received, receiver.parsed, receiver.shutdown, receiver.inputs,
                   receiver.wordcounts, w);
    OccurrencesInAnyOrder(connected, hashers, w);
  }

  lemma HashedWidth(hash: string -> nat, n: nat, h: Hasher)
    requires Hashed(hash, n, h)
    ensures |h.records| == n
  {
  }

  lemma CountedSizes(r: WordCountReceiver)
    requires r.Valid()
    ensures |r.received| == |r.shutdown| == |r.inputs| == |r.streams|
  {
  }
}
