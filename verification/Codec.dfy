/**
  The frames of `protobuf/codec/codec.cc`: writing a message, taking messages out of a byte stream, and
  the Adler-32 checksum (section 2.2 of RFC 1950) over a frame.
*/
module Codec {
  import opened Bytes
  import opened Buffer
  import opened Division
  import opened Texts

  const HEADER := 4
  const MIN_LEN := 2 * HEADER + 2
  const MAX_LEN := 64 * 1024 * 1024
  const INT_LIMIT := 0x8000_0000

  // ----- Adler-32

  const MOD := 65521

  function AdlerA(bs: seq<byte>): (a: nat)
    ensures a < MOD
  {
    if bs == [] then 1 else (AdlerA(bs[..|bs| - 1]) + bs[|bs| - 1]) % MOD
  }

  function AdlerB(bs: seq<byte>): (b: nat)
    ensures b < MOD
  {
    if bs == [] then 0 else (AdlerB(bs[..|bs| - 1]) + AdlerA(bs)) % MOD
  }

  ghost function Sum(bs: seq<byte>): (n: nat) {
    if bs == [] then 0 else bs[0] + Sum(bs[1..])
  }

  /** The sum of the sums of the non-empty prefixes: the first byte is in all of them. */
  ghost function SumOfSums(bs: seq<byte>): (n: nat) {
    if bs == [] then 0 else |bs| * bs[0] + SumOfSums(bs[1..])
  }

  lemma {:induction false} SumsSnoc(bs: seq<byte>, b: byte)
    ensures Sum(bs + [b]) == Sum(bs) + b && SumOfSums(bs + [b]) == SumOfSums(bs) + Sum(bs) + b
  {
    if bs == [] {
      assert [b][1..] == [];
    } else {
      SumsSnoc(bs[1..], b);
      assert (bs + [b])[1..] == bs[1..] + [b];
      assert (|bs| + 1) * bs[0] == |bs| * bs[0] + bs[0];
    }
  }

  /** Both halves of the checksum as section 2.2 of RFC 1950 defines them: sums from 1 and from 0, modulo 65521. */
  lemma {:induction false} AdlerSums(bs: seq<byte>)
    ensures AdlerA(bs) == (1 + Sum(bs)) % MOD && AdlerB(bs) == (|bs| + SumOfSums(bs)) % MOD
  {
    if bs != [] {
      var init, last := bs[..|bs| - 1], bs[|bs| - 1];
      AdlerSums(init);
      SumsSnoc(init, last);
      assert bs == init + [last];
      AdlerStep(1 + Sum(init), last, |init| + SumOfSums(init));
    }
  }

  lemma AdlerStep(a: nat, last: byte, b: nat)
    ensures (a % MOD + last) % MOD == (a + last) % MOD
    ensures (b % MOD + (a + last) % MOD) % MOD == (b + a + last) % MOD
  {
    AddRemainders(a, last, MOD);
    AddRemainders(b, a + last, MOD);
  }

  /** The checksum as a signed 32-bit integer. */
  function Checksum(bs: seq<byte>): (c: int)
    ensures FitsIn(4, c)
  {
    PowerFour();
    var n := AdlerB(bs) * 65536 + AdlerA(bs);
    if n < 0x8000_0000 then n else n - 0x1_0000_0000
  }

  lemma PowerFour()
    ensures Power(4) == 0x1_0000_0000
  {
    assert Power(1) == 256 && Power(2) == 256 * Power(1) && Power(3) == 256 * Power(2) && Power(4) == 256 * Power(3);
  }

  // ----- messages and frames

  /** A message: its type name and its serialized fields. */
  datatype Message = Message(typeName: seq<byte>, data: seq<byte>)

  /** The generated message types, and which bytes parse as a message of a type. */
  datatype Registry = Registry(types: set<seq<byte>>, parses: (seq<byte>, seq<byte>) -> bool)

  datatype ErrorCode = NoError | InvalidLength | CheckSumError | InvalidNameLen | UnknownMessageType | ParseError

  datatype Parsed = Ok(m: Message) | Failed(code: ErrorCode)

  function FrameLen(m: Message): (n: nat) {
    HEADER + (|m.typeName| + 1) + |m.data| + HEADER
  }

  /** A message that the receiver can take: non-empty known type, and not too long. */
  predicate Sendable(reg: Registry, m: Message) {
    m.typeName != [] && m.typeName in reg.types && reg.parses(m.typeName, m.data) && FrameLen(m) <= MAX_LEN
  }

  lemma LenFits(n: int)
    requires 0 <= n < INT_LIMIT
    ensures FitsIn(4, n)
  {
    PowerFour();
  }

  /** The checksummed part of a frame. */
  function Body(m: Message): (bs: seq<byte>)
    requires FrameLen(m) < INT_LIMIT
    ensures |bs| == FrameLen(m) - HEADER
  {
    LenFits(|m.typeName| + 1);
    EncodeInt(4, |m.typeName| + 1) + m.typeName + [0] + m.data
  }

  function Frame(m: Message): (bs: seq<byte>)
    requires FrameLen(m) < INT_LIMIT
    ensures |bs| == HEADER + FrameLen(m)
  {
    LenFits(FrameLen(m));
    EncodeInt(4, FrameLen(m)) + (Body(m) + EncodeInt(4, Checksum(Body(m))))
  }

  function FourBytes(n: nat): (bs: seq<byte>) {
    [n / 16777216 % 256, n / 65536 % 256, n / 256 % 256, n % 256]
  }

  lemma FourWritten(n: nat)
    requires n < INT_LIMIT
    ensures FitsIn(4, n) && EncodeInt(4, n) == FourBytes(n)
  {
    LenFits(n);
    assert Power(0) == 1 && Power(1) == 256 && Power(2) == 65536 && Power(3) == 16777216 by {
      assert Power(2) == 256 * Power(1) && Power(3) == 256 * Power(2);
    }
    hide Power, EncodeInt;
    EncodeIntAt(4, n, 0);
    EncodeIntAt(4, n, 1);
    EncodeIntAt(4, n, 2);
    EncodeIntAt(4, n, 3);
  }

  /** A frame byte by byte: the two lengths, the name and its zero, the data, and the halves of the checksum. */
  lemma FrameLayout(m: Message)
    requires FrameLen(m) < INT_LIMIT
    ensures Body(m) == FourBytes(|m.typeName| + 1) + m.typeName + [0] + m.data
    ensures Frame(m) == FourBytes(FrameLen(m)) + Body(m) + ChecksumBytes(Body(m))
  {
    hide EncodeInt, FourBytes, ChecksumBytes, Checksum;
    FourWritten(FrameLen(m));
    FourWritten(|m.typeName| + 1);
    ChecksumWritten(Body(m));
  }

  /** The sum of sums, then the sum, each in two bytes. */
  ghost function ChecksumBytes(bs: seq<byte>): (r: seq<byte>) {
    [AdlerB(bs) / 256, AdlerB(bs) % 256, AdlerA(bs) / 256, AdlerA(bs) % 256]
  }

  lemma ChecksumWritten(bs: seq<byte>)
    ensures EncodeInt(4, Checksum(bs)) == ChecksumBytes(bs)
  {
    hide AdlerA, AdlerB;
    var a, b := AdlerA(bs), AdlerB(bs);
    var n := b * 65536 + a;
    PowerFour();
    assert EncodeInt(4, Checksum(bs)) == ToBytes(4, n);
    assert ToBytes(4, n) == ToBytes(3, n / 256) + [n % 256] && ToBytes(0, 0) == [];
    var n1 := n / 256;
    var n2 := n1 / 256;
    assert n1 == b * 256 + a / 256 && n % 256 == a % 256;
    assert n2 == b && n1 % 256 == a / 256;
    assert ToBytes(3, n1) == ToBytes(2, n2) + [n1 % 256];
    assert ToBytes(2, n2) == ToBytes(1, n2 / 256) + [n2 % 256];
    assert ToBytes(1, n2 / 256) == ToBytes(0, n2 / 256 / 256) + [n2 / 256 % 256];
  }

  /** `parse`. */
  function Parse(reg: Registry, bs: seq<byte>): (r: Parsed)
    requires |bs| >= MIN_LEN
    ensures r.Failed? ==> r.code != NoError
  {
    var body := bs[..|bs| - HEADER];
    if Checksum(body) != DecodeInt(bs[|bs| - HEADER..]) then Failed(CheckSumError)
    else
      var nameLen := DecodeInt(bs[..HEADER]);
      if !(2 <= nameLen <= |bs| - 2 * HEADER) then Failed(InvalidNameLen)
      else
        var typeName := bs[HEADER..HEADER + nameLen - 1];
        var data := bs[HEADER + nameLen..|bs| - HEADER];
        if typeName !in reg.types then Failed(UnknownMessageType)
        else if !reg.parses(typeName, data) then Failed(ParseError)
        else Ok(Message(typeName, data))
  }

  /** What `parse` makes of a frame: the message, or the first thing that is wrong with it. */
  lemma ParseFrame(reg: Registry, m: Message)
    requires MIN_LEN <= FrameLen(m) < INT_LIMIT
    ensures Parse(reg, Frame(m)[HEADER..]) ==
      if m.typeName == [] then Failed(InvalidNameLen)
      else if m.typeName !in reg.types then Failed(UnknownMessageType)
      else if !reg.parses(m.typeName, m.data) then Failed(ParseError)
      else Ok(m)
  {
    hide Checksum, EncodeInt, DecodeInt, FitsIn;
    var body := Body(m);
    var bs := body + EncodeInt(4, Checksum(body));
    assert Frame(m)[HEADER..] == bs;
    assert bs[..|bs| - HEADER] == body && bs[|bs| - HEADER..] == EncodeInt(4, Checksum(body));
    DecodeEncodeInt(4, Checksum(body));
    var n := |m.typeName| + 1;
    LenFits(n);
    assert bs[..HEADER] == EncodeInt(4, n);
    DecodeEncodeInt(4, n);
    assert bs[HEADER..HEADER + n - 1] == m.typeName;
    assert bs[HEADER + n..|bs| - HEADER] == m.data;
  }

  lemma FrameHeader(m: Message)
    requires FrameLen(m) < INT_LIMIT
    ensures DecodeInt(Frame(m)[..HEADER]) == FrameLen(m)
  {
    LenFits(FrameLen(m));
    assert Frame(m)[..HEADER] == EncodeInt(4, FrameLen(m));
    DecodeEncodeInt(4, FrameLen(m));
  }

  // ----- the stream

  /** What `onMessage` does with the bytes in the buffer: messages delivered, the error if any, the unread rest. */
  datatype Drained = Drained(delivered: seq<Message>, error: ErrorCode, rest: seq<byte>)

  /** There is a whole frame with a legal length at the front. */
  predicate HasFrame(buf: seq<byte>) {
    |buf| >= MIN_LEN + HEADER && MIN_LEN <= DecodeInt(buf[..HEADER]) <= MAX_LEN
      && |buf| >= DecodeInt(buf[..HEADER]) + HEADER
  }

  function Drain(reg: Registry, buf: seq<byte>): (d: Drained)
    decreases |buf|
  {
    if |buf| < MIN_LEN + HEADER then Drained([], NoError, buf)
    else
      var len := DecodeInt(buf[..HEADER]);
      if len > MAX_LEN || len < MIN_LEN then Drained([], InvalidLength, buf)
      else if |buf| < len + HEADER then Drained([], NoError, buf)
      else match Parse(reg, buf[HEADER..HEADER + len])
        case Failed(code) => Drained([], code, buf)
        case Ok(m) =>
          var d := Drain(reg, buf[HEADER + len..]);
          Drained([m] + d.delivered, d.error, d.rest)
  }

  lemma DrainShort(reg: Registry, buf: seq<byte>)
    requires |buf| < MIN_LEN + HEADER
    ensures Drain(reg, buf) == Drained([], NoError, buf)
  {
  }

  /** One round of the loop. */
  lemma DrainStep(reg: Registry, buf: seq<byte>)
    requires |buf| >= MIN_LEN + HEADER
    ensures var len := DecodeInt(buf[..HEADER]);
      && (len > MAX_LEN || len < MIN_LEN ==> Drain(reg, buf) == Drained([], InvalidLength, buf))
      && (MIN_LEN <= len <= MAX_LEN && |buf| < len + HEADER ==> Drain(reg, buf) == Drained([], NoError, buf))
      && (MIN_LEN <= len <= MAX_LEN && |buf| >= len + HEADER ==>
            match Parse(reg, buf[HEADER..HEADER + len])
            case Failed(code) => Drain(reg, buf) == Drained([], code, buf)
            case Ok(m) => var d := Drain(reg, buf[HEADER + len..]);
              Drain(reg, buf) == Drained([m] + d.delivered, d.error, d.rest))
  {
    hide Parse, DecodeInt;
  }

  /** The stream may be cut anywhere; an error stays, with all bytes from the bad frame on left in the buffer. */
  lemma {:induction false} DrainInPortions(reg: Registry, a: seq<byte>, b: seq<byte>)
    ensures var d := Drain(reg, a); var e := Drain(reg, d.rest + b);
      && Drain(reg, a + b) == Drained(d.delivered + e.delivered, e.error, e.rest)
      && (d.error != NoError ==> e == Drained([], d.error, d.rest + b))
    decreases |a|
  {
    hide Drain, Parse, DecodeInt;
    if |a| < MIN_LEN + HEADER {
      DrainShort(reg, a);
      JoinNothing(Drain(reg, a + b).delivered);
    } else {
      DrainStep(reg, a);
      DrainStep(reg, a + b);
      assert (a + b)[..HEADER] == a[..HEADER];
      if HasFrame(a) {
        var n := DecodeInt(a[..HEADER]) + HEADER;
        assert (a + b)[HEADER..n] == a[HEADER..n] && (a + b)[n..] == a[n..] + b;
        if Parse(reg, a[HEADER..n]).Ok? {
          DrainInPortions(reg, a[n..], b);
          var d := Drain(reg, a[n..]);
          var e := Drain(reg, d.rest + b);
          var m := Parse(reg, a[HEADER..n]).m;
          assert [m] + (d.delivered + e.delivered) == ([m] + d.delivered) + e.delivered;
        }
      } else {
        JoinNothing(Drain(reg, a + b).delivered);
      }
    }
  }

  lemma JoinNothing(ms: seq<Message>)
    ensures [] + ms == ms
  {
  }

  ghost predicate AllShort(ms: seq<Message>) {
    forall i :: 0 <= i < |ms| ==> FrameLen(ms[i]) < INT_LIMIT
  }

  ghost function Frames(ms: seq<Message>): (bs: seq<byte>)
    requires AllShort(ms)
  {
    if ms == [] then [] else Frame(ms[0]) + Frames(ms[1..])
  }

  ghost predicate AllSendable(reg: Registry, ms: seq<Message>) {
    AllShort(ms) && forall i :: 0 <= i < |ms| ==> Sendable(reg, ms[i])
  }

  lemma SendableParts(reg: Registry, ms: seq<Message>)
    requires AllSendable(reg, ms) && ms != []
    ensures AllShort(ms) && Sendable(reg, ms[0]) && FrameLen(ms[0]) < INT_LIMIT && AllSendable(reg, ms[1..])
      && AllShort(ms[1..])
  {
  }

  lemma SendableLen(reg: Registry, m: Message)
    requires Sendable(reg, m)
    ensures MIN_LEN <= FrameLen(m) <= MAX_LEN
  {
  }

  /** One frame at the front is delivered. */
  lemma DrainFrame(reg: Registry, m: Message, more: seq<byte>)
    requires Sendable(reg, m)
    ensures var d := Drain(reg, more);
      Drain(reg, Frame(m) + more) == Drained([m] + d.delivered, d.error, d.rest)
  {
    hide Parse, DecodeInt, Frame;
    SendableLen(reg, m);
    FrameHeader(m);
    ParseFrame(reg, m);
    var buf, n := Frame(m) + more, FrameLen(m) + HEADER;
    assert buf[..HEADER] == Frame(m)[..HEADER] && buf[HEADER..n] == Frame(m)[HEADER..] && buf[n..] == more;
  }

  /** A frame at the front is delivered if and only if its message is sendable; if not, nothing is. */
  lemma DeliveredIffSendable(reg: Registry, m: Message, more: seq<byte>)
    requires FrameLen(m) < INT_LIMIT
    ensures var d := Drain(reg, Frame(m) + more);
      if Sendable(reg, m) then d.delivered == [m] + Drain(reg, more).delivered
      else
        && d.delivered == [] && d.rest == Frame(m) + more
        && (d.error == NoError ==> |Frame(m) + more| < MIN_LEN + HEADER)
  {
    if Sendable(reg, m) {
      DrainFrame(reg, m, more);
    } else {
      hide Parse, DecodeInt, Frame, Drain;
      var buf, n := Frame(m) + more, FrameLen(m) + HEADER;
      FrameHeader(m);
      assert buf[..HEADER] == Frame(m)[..HEADER] && buf[HEADER..n] == Frame(m)[HEADER..];
      if |buf| < MIN_LEN + HEADER {
        DrainShort(reg, buf);
      } else {
        DrainStep(reg, buf);
        if MIN_LEN <= FrameLen(m) {
          ParseFrame(reg, m);
        }
      }
    }
  }

  /** The beginning of a frame is left unread, and it is no error. */
  lemma DrainIncomplete(reg: Registry, m: Message, n: nat)
    requires Sendable(reg, m) && n < |Frame(m)|
    ensures Drain(reg, Frame(m)[..n]) == Drained([], NoError, Frame(m)[..n])
  {
    hide Parse, DecodeInt, Frame, Sendable;
    SendableLen(reg, m);
    FrameHeader(m);
    if n >= HEADER {
      assert Frame(m)[..n][..HEADER] == Frame(m)[..HEADER];
    }
  }

  /** `onMessage` inverts `fillEmptyBuffer`: exactly the messages, in order, and an incomplete tail unread. */
  lemma {:induction false} DrainFrames(reg: Registry, ms: seq<Message>, tail: seq<byte>)
    requires AllSendable(reg, ms) && Drain(reg, tail) == Drained([], NoError, tail)
    ensures Drain(reg, Frames(ms) + tail) == Drained(ms, NoError, tail)
  {
    hide Drain, Frame, Sendable, FrameLen;
    if ms == [] {
      assert Frames(ms) + tail == tail;
    } else {
      SendableParts(reg, ms);
      hide Frames, AllSendable, AllShort;
      FramesCons(ms, tail);
      DrainFrames(reg, ms[1..], tail);
      DrainFrame(reg, ms[0], Frames(ms[1..]) + tail);
      assert ms == [ms[0]] + ms[1..];
    }
  }

  lemma FramesCons(ms: seq<Message>, tail: seq<byte>)
    requires ms != [] && AllShort(ms)
    ensures Frames(ms) + tail == Frame(ms[0]) + (Frames(ms[1..]) + tail)
  {
    hide Frame, Frames;
    FramesHead(ms);
    Joined(Frame(ms[0]), Frames(ms[1..]), tail);
  }

  lemma FramesHead(ms: seq<Message>)
    requires ms != [] && AllShort(ms)
    ensures Frames(ms) == Frame(ms[0]) + Frames(ms[1..])
  {
    hide Frame;
  }

  lemma Joined(a: seq<byte>, b: seq<byte>, c: seq<byte>)
    ensures a + b + c == a + (b + c)
  {
  }

  lemma JoinedPrefix(a: seq<byte>, b: seq<byte>, n: nat)
    requires n <= |a + b|
    ensures (a + b)[..n] == if n < |a| then a[..n] else a + b[..n - |a|]
  {
  }

  /** A prefix of a stream of frames is whole frames and the beginning of the next. */
  lemma {:induction false} PrefixOfFrames(reg: Registry, ms: seq<Message>, n: nat)
    requires AllSendable(reg, ms) && n <= |Frames(ms)|
    ensures Drain(reg, Frames(ms)[..n]).error == NoError
  {
    hide Drain, Frame, Sendable, FrameLen;
    if ms == [] {
      DrainShort(reg, []);
    } else {
      SendableParts(reg, ms);
      hide Frames, AllSendable, AllShort;
      FramesPrefix(ms, n);
      var size := |Frame(ms[0])|;
      if n < size {
        DrainIncomplete(reg, ms[0], n);
      } else {
        PrefixOfFrames(reg, ms[1..], n - size);
        DrainFrame(reg, ms[0], Frames(ms[1..])[..n - size]);
      }
    }
  }

  lemma FramesPrefix(ms: seq<Message>, n: nat)
    requires ms != [] && AllShort(ms) && n <= |Frames(ms)|
    ensures var f := Frame(ms[0]);
      && |Frames(ms)| == |f| + |Frames(ms[1..])|
      && (n < |f| ==> Frames(ms)[..n] == f[..n])
      && (n >= |f| ==> Frames(ms)[..n] == f + Frames(ms[1..])[..n - |f|])
  {
    hide Frame, Frames;
    FramesHead(ms);
    JoinedPrefix(Frame(ms[0]), Frames(ms[1..]), n);
  }

  /** The chunks arrive one by one, each followed by a run of `onMessage`. */
  ghost function Feed(reg: Registry, chunks: seq<seq<byte>>): (d: Drained) {
    if chunks == [] then Drained([], NoError, []) else
      var e := Feed(reg, chunks[..|chunks| - 1]);
      var d := Drain(reg, e.rest + chunks[|chunks| - 1]);
      Drained(e.delivered + d.delivered, d.error, d.rest)
  }

  /** For all bytes and every cut: the messages delivered, the error and the rest are those of the bytes alone. */
  lemma {:induction false} FeedIsDrain(reg: Registry, chunks: seq<seq<byte>>)
    ensures Feed(reg, chunks) == Drain(reg, Concat(chunks))
  {
    if chunks == [] {
      DrainShort(reg, []);
    } else {
      hide Drain;
      var init, last := chunks[..|chunks| - 1], chunks[|chunks| - 1];
      FeedIsDrain(reg, init);
      DrainInPortions(reg, Concat(init), last);
    }
  }

  /** Messages sent as frames arrive exactly and in order, however the network cuts the stream. */
  lemma FramesArrive(reg: Registry, ms: seq<Message>, chunks: seq<seq<byte>>)
    requires AllSendable(reg, ms) && Concat(chunks) == Frames(ms)
    ensures Feed(reg, chunks) == Drained(ms, NoError, [])
  {
    hide Frames, Drain;
    FeedIsDrain(reg, chunks);
    DrainShort(reg, []);
    DrainFrames(reg, ms, []);
    assert Frames(ms) + [] == Frames(ms);
  }

  // ----- a damaged frame

  /** Changing one byte changes the low half of the checksum. */
  lemma {:induction false} AdlerSeesByte(bs: seq<byte>, i: nat, x: byte)
    requires i < |bs| && x != bs[i]
    ensures AdlerA(bs[i := x]) != AdlerA(bs)
    ensures (AdlerA(bs[i := x]) + bs[i]) % MOD == (AdlerA(bs) + x) % MOD
  {
    hide AdlerA;
    var cs, n := bs[i := x], |bs| - 1;
    AdlerLast(bs);
    AdlerLast(cs);
    var a, c := AdlerA(bs[..n]), AdlerA(cs[..n]);
    if i < n {
      assert cs[..n] == bs[..n][i := x];
      AdlerSeesByte(bs[..n], i, x);
      StillDiffer(a, c, bs[n]);
      SameShift(a, c, bs[i], x, bs[n]);
    } else {
      assert cs[..n] == bs[..n];
      ModShift(a, bs[i], x);
    }
  }

  lemma AdlerLast(bs: seq<byte>)
    requires bs != []
    ensures AdlerA(bs) == (AdlerA(bs[..|bs| - 1]) + bs[|bs| - 1]) % MOD
  {
  }

  lemma StillDiffer(a: nat, c: nat, z: byte)
    requires a < MOD && c < MOD && a != c
    ensures (c + z) % MOD != (a + z) % MOD
  {
    Wrap(c + z);
    Wrap(a + z);
  }

  lemma ModShift(a: nat, y: byte, x: byte)
    requires a < MOD && x != y
    ensures (a + x) % MOD != (a + y) % MOD
    ensures ((a + x) % MOD + y) % MOD == ((a + y) % MOD + x) % MOD
  {
  }

  lemma SameShift(a: nat, c: nat, y: byte, x: byte, z: byte)
    requires a < MOD && c < MOD && (c + y) % MOD == (a + x) % MOD
    ensures ((c + z) % MOD + y) % MOD == ((a + z) % MOD + x) % MOD
  {
    Wrap(c + y);
    Wrap(a + x);
    Wrap(c + z);
    Wrap(a + z);
    Wrap((c + z) % MOD + y);
    Wrap((a + z) % MOD + x);
  }

  lemma Wrap(n: nat)
    requires n < 2 * MOD
    ensures n % MOD == if n < MOD then n else n - MOD
  {
  }

  lemma DamagedParse(reg: Registry, m: Message, k: nat, x: byte)
    requires MIN_LEN <= FrameLen(m) <= MAX_LEN && k < |Body(m)| && x != Body(m)[k]
    ensures Parse(reg, Body(m)[k := x] + EncodeInt(4, Checksum(Body(m)))) == Failed(CheckSumError)
  {
    hide EncodeInt, DecodeInt, AdlerA, AdlerB, Checksum, Body;
    var body := Body(m);
    var bs := body[k := x] + EncodeInt(4, Checksum(body));
    assert bs[..|bs| - HEADER] == body[k := x] && bs[|bs| - HEADER..] == EncodeInt(4, Checksum(body));
    DecodeEncodeInt(4, Checksum(body));
    AdlerSeesByte(body, k, x);
    ChecksumsDiffer(body, body[k := x]);
  }

  /** One changed byte in the checksummed part of a frame is always found. */
  lemma DamageIsFound(reg: Registry, m: Message, i: nat, x: byte)
    requires Sendable(reg, m) && HEADER <= i < |Frame(m)| - HEADER && x != Frame(m)[i]
    ensures var damaged := Frame(m)[i := x];
      Drain(reg, damaged) == Drained([], CheckSumError, damaged)
  {
    SendableLen(reg, m);
    hide EncodeInt, DecodeInt, Sendable, Checksum, Body, Parse, Drain;
    var f, k := Frame(m), i - HEADER;
    var damaged := f[i := x];
    FrameHeader(m);
    assert damaged[..HEADER] == f[..HEADER];
    var body := Body(m);
    assert damaged[HEADER..HEADER + FrameLen(m)] == body[k := x] + EncodeInt(4, Checksum(body));
    DamagedParse(reg, m, k, x);
    DrainStep(reg, damaged);
  }

  lemma ChecksumsDiffer(a: seq<byte>, b: seq<byte>)
    requires AdlerA(a) != AdlerA(b)
    ensures Checksum(a) != Checksum(b)
  {
    hide AdlerA, AdlerB;
    LowHalf(AdlerB(a), AdlerA(a), AdlerB(b), AdlerA(b));
  }

  lemma LowHalf(b: nat, a: nat, b': nat, a': nat)
    requires a < 65536 && a' < 65536 && a != a' && b < 65536 && b' < 65536
    ensures b * 65536 + a != b' * 65536 + a'
    ensures b * 65536 + a - 0x1_0000_0000 != b' * 65536 + a'
  {
  }

  // ----- the codec on buffers

  /** `fillEmptyBuffer`. */
  method FillEmptyBuffer(buf: Buffer, m: Message)
    requires buf.Valid() && buf.Contents() == [] && buf.PrependableBytes() >= HEADER && FrameLen(m) < INT_LIMIT
    modifies buf, buf.buffer
    ensures buf.Valid() && buf.Contents() == Frame(m)
  {
    hide EncodeInt, FitsIn, Checksum, Body, Buffer.Spaced;
    LenFits(FrameLen(m));
    FillBody(buf, m);
    var body := buf.buffer[buf.readerIndex..buf.writerIndex];
    buf.AppendInt(4, Checksum(body));
    buf.PrependInt(4, buf.ReadableBytes());
  }

  method FillBody(buf: Buffer, m: Message)
    requires buf.Valid() && buf.Contents() == [] && FrameLen(m) < INT_LIMIT
    modifies buf, buf.buffer
    ensures buf.Valid() && (buf.buffer == old(buf.buffer) || fresh(buf.buffer)) && buf.Contents() == Body(m)
      && buf.KeepsRoom(old(buf.readerIndex))
  {
    hide EncodeInt, FitsIn, Body, Buffer.Spaced;
    LenFits(|m.typeName| + 1);
    buf.AppendInt(4, |m.typeName| + 1);
    buf.Append(m.typeName + [0]);
    buf.Append(m.data);
    BodyParts(m);
  }

  lemma BodyParts(m: Message)
    requires FrameLen(m) < INT_LIMIT && FitsIn(4, |m.typeName| + 1)
    ensures [] + EncodeInt(4, |m.typeName| + 1) + (m.typeName + [0]) + m.data == Body(m)
  {
    hide EncodeInt;
    var head := EncodeInt(4, |m.typeName| + 1);
    assert [] + head == head && head + (m.typeName + [0]) == head + m.typeName + [0];
  }

  lemma Slice(s: seq<byte>, from: nat, to: nat, i: nat, j: nat)
    requires i <= j && from + j <= to <= |s|
    ensures s[from..to][i..j] == s[from + i..from + j]
  {
    var a, b := s[from..to][i..j], s[from + i..from + j];
    forall k | 0 <= k < j - i
      ensures a[k] == b[k]
    {
      assert s[from..to][i + k] == s[from + (i + k)];
    }
  }

  /** `parse` on the bytes in place. */
  method ParseAt(reg: Registry, buf: Buffer, len: int) returns (parsed: Parsed)
    requires buf.Valid() && MIN_LEN <= len && len + HEADER <= |buf.Contents()|
    ensures parsed == Parse(reg, buf.Contents()[HEADER..HEADER + len])
  {
    hide Parse;
    var start := buf.readerIndex + HEADER;
    Slice(buf.buffer[..], buf.readerIndex, buf.writerIndex, HEADER, HEADER + len);
    parsed := Parse(reg, buf.buffer[start..start + len]);
  }

  /** One round of `onMessage`: a message taken out of the buffer, or the reason to stop. */
  method NextMessage(reg: Registry, buf: Buffer) returns (stop: bool, got: seq<Message>, error: ErrorCode)
    requires buf.Valid() && |buf.Contents()| >= MIN_LEN + HEADER
    modifies buf`readerIndex, buf`writerIndex
    ensures buf.Valid()
    ensures stop ==> got == [] && buf.Contents() == old(buf.Contents())
    ensures stop ==> Drain(reg, buf.Contents()) == Drained([], error, buf.Contents())
    ensures !stop ==> error == NoError && |buf.Contents()| < |old(buf.Contents())|
    ensures !stop ==>
      var d := Drain(reg, buf.Contents());
      Drain(reg, old(buf.Contents())) == Drained(got + d.delivered, d.error, d.rest)
  {
    hide Drain, Parse, DecodeInt;
    ghost var now := buf.Contents();
    DrainStep(reg, now);
    stop, got, error := true, [], NoError;
    var len := buf.PeekInt(4);
    if len > MAX_LEN || len < MIN_LEN {
      error := InvalidLength;
    } else if buf.ReadableBytes() >= len + HEADER {
      var parsed := ParseAt(reg, buf, len);
      match parsed {
        case Ok(m) =>
          stop, got := false, [m];
          buf.Retrieve(HEADER + len);
        case Failed(code) => error := code;
      }
    }
  }

  /** `onMessage`: deliver what is complete and leave the rest in the buffer. */
  method OnMessage(reg: Registry, buf: Buffer) returns (delivered: seq<Message>, error: ErrorCode)
    requires buf.Valid()
    modifies buf`readerIndex, buf`writerIndex
    ensures buf.Valid() && Drained(delivered, error, buf.Contents()) == Drain(reg, old(buf.Contents()))
  {
    hide Drain;
    delivered, error := [], NoError;
    ghost var all := buf.Contents();
    while buf.ReadableBytes() >= MIN_LEN + HEADER
      invariant buf.Valid() && error == NoError
      invariant var d := Drain(reg, buf.Contents());
        Drain(reg, all) == Drained(delivered + d.delivered, d.error, d.rest)
      decreases |buf.Contents()|
    {
      var stop, got;
      ghost var before := delivered;
      stop, got, error := NextMessage(reg, buf);
      if stop {
        return;
      }
      delivered := delivered + got;
      ghost var d := Drain(reg, buf.Contents());
      assert before + (got + d.delivered) == delivered + d.delivered;
    }
    DrainShort(reg, buf.Contents());
  }
}
