/**
  Request lines of the memcached text protocol as a client writes them, and that
  `memcached/server/Session.cc` reads them as they are meant.
*/
module RequestLines {
  import opened ItemStore
  import opened Requests
  import opened Texts

  /** What a key of a request line is. */
  predicate IsKey(key: string) {
    key != "" && (forall i :: 0 <= i < |key| ==> key[i] != ' ')
  }

  predicate NoLineEnd(s: string) {
    forall i :: 0 <= i < |s| - 1 ==> !(s[i] == '\r' && s[i + 1] == '\n')
  }

  lemma {:induction false} TokensAreKeys(s: string, k: nat)
    requires NoLineEnd(s) && k < |Tokens(s)|
    ensures IsKey(Tokens(s)[k]) && NoLineEnd(Tokens(s)[k])
    decreases |s|
  {
    if s[0] == ' ' {
      TokensAreKeys(s[1..], k);
    } else {
      var n := WordLength(s);
      if k > 0 {
        TokensAreKeys(s[n..], k - 1);
      }
    }
  }

  lemma UpdateKey(line: string)
    requires NoLineEnd(line) && Parse(line).Update?
    ensures IsKey(Parse(line).key) && NoLineEnd(Parse(line).key) && |Parse(line).key| <= LONGEST_KEY
  {
    hide Strtoull, Tokens;
    var text := if HasNoreply(line) then line[..|line| - 8] else line;
    TokensAreKeys(text, 1);
  }

  lemma OneToken(key: string)
    requires IsKey(key)
    ensures WordLength(key) == |key| && Tokens(key) == [key]
  {
    assert key[..|key|] == key && key[|key|..] == "";
    assert Tokens("") == [];
  }

  lemma WordBefore(w: string, more: string)
    requires IsKey(w)
    ensures WordLength(w + " " + more) == |w|
  {
    var s := w + " " + more;
    assert s[|w|] == ' ' && forall i :: 0 <= i < |w| ==> s[i] == w[i];
  }

  lemma TokensCons(w: string, more: string)
    requires IsKey(w)
    ensures Tokens(w + " " + more) == [w] + Tokens(more)
  {
    WordBefore(w, more);
    hide WordLength;
    var s := w + " " + more;
    assert s[..|w|] == w && s[|w|..] == " " + more && (" " + more)[1..] == more;
  }

  /** Words with a space between them. */
  function Joined(ts: seq<string>): (s: string) {
    if ts == [] then "" else if |ts| == 1 then ts[0] else ts[0] + " " + Joined(ts[1..])
  }

  /** The tokenizer inverts the joining of any words. */
  lemma {:induction false} TokensOfJoined(ts: seq<string>)
    requires forall i :: 0 <= i < |ts| ==> IsKey(ts[i])
    ensures Tokens(Joined(ts)) == ts
  {
    hide IsKey;
    if |ts| == 1 {
      OneToken(ts[0]);
    } else if |ts| > 1 {
      hide Tokens;
      TokensOfJoined(ts[1..]);
      TokensCons(ts[0], Joined(ts[1..]));
      assert ts == [ts[0]] + ts[1..];
    }
  }

  lemma StrtoullOfShow(n: nat)
    requires n < TWO64
    ensures Strtoull(Show(n)) == n && IsKey(Show(n))
  {
    hide Show, Decimal;
    DecimalOfShow(n);
  }

  /** With a sign, and beyond 64 bits. */
  lemma StrtoullSigned(n: nat)
    ensures Strtoull("+" + Show(n)) == if n < TWO64 then n else TWO64 - 1
    ensures Strtoull("-" + Show(n)) == if n < TWO64 then (TWO64 - n) % TWO64 else TWO64 - 1
  {
    hide Show, Decimal;
    DecimalOfShow(n);
    assert ("+" + Show(n))[1..] == Show(n) && ("-" + Show(n))[1..] == Show(n);
  }

  function CommandOf(policy: Policy): (c: string) {
    match policy
    case Set => "set"
    case Add => "add"
    case Replace => "replace"
    case Append => "append"
    case Prepend => "prepend"
    case Cas => "cas"
  }

  function UpdateWords(u: Request): (ts: seq<string>)
    requires u.Update? && u.exptime >= 0 && u.bytes >= 0
  {
    [CommandOf(u.policy), u.key, Show(u.flags), Show(u.exptime), Show(u.bytes)] + if u.policy == Cas
      then [Show(u.cas)] else []
  }

  /** The line of an update, with the option that turns the reply off. */
  function UpdateLine(u: Request, noreply: bool): (line: string)
    requires u.Update? && u.exptime >= 0 && u.bytes >= 0
  {
    Joined(UpdateWords(u)) + if noreply then " noreply" else ""
  }

  /** An update whose fields fit their types. */
  predicate Fits(u: Request) {
    && u.Update? && IsKey(u.key) && |u.key| <= LONGEST_KEY
    && u.flags < TWO32 && 0 <= u.exptime < TWO64 / 2 && 0 <= u.bytes < TWO32 / 2 && u.cas < TWO64
      && (u.policy != Cas ==> u.cas == 0)
  }

  lemma WordsAreKeys(u: Request)
    requires Fits(u)
    ensures forall i :: 0 <= i < |UpdateWords(u)| ==> IsKey(UpdateWords(u)[i])
  {
    hide Show, Strtoull;
    StrtoullOfShow(u.flags);
    StrtoullOfShow(u.exptime);
    StrtoullOfShow(u.bytes);
    StrtoullOfShow(u.cas);
  }

  lemma ParseUpdateWords(u: Request)
    requires Fits(u)
    ensures ParseUpdate(u.policy, UpdateWords(u)[1..]) == u
  {
    hide Show, Strtoull, IsKey;
    StrtoullOfShow(u.flags);
    StrtoullOfShow(u.exptime);
    StrtoullOfShow(u.bytes);
    StrtoullOfShow(u.cas);
  }

  lemma {:induction false} LastOfJoined(ts: seq<string>)
    requires ts != [] && ts[|ts| - 1] != ""
    ensures var s := Joined(ts); var w := ts[|ts| - 1]; s != "" && s[|s| - 1] == w[|w| - 1]
  {
    if |ts| > 1 {
      LastOfJoined(ts[1..]);
    }
  }

  /** An update line ends in a digit, so it has the option only if it was given. */
  lemma NoreplyIsGiven(u: Request, noreply: bool)
    requires Fits(u)
    ensures HasNoreply(UpdateLine(u, noreply)) == noreply
  {
    hide Show, Joined;
    var words := UpdateWords(u);
    var last := if u.policy == Cas then u.cas else u.bytes;
    DecimalOfShow(last);
    assert words[|words| - 1] == Show(last);
    LastOfJoined(words);
    var s := Joined(words);
    if noreply {
      assert (s + " noreply")[|s|..] == " noreply";
    } else if |s| >= 8 {
      assert s + "" == s;
      assert s[|s| - 8..][7] == s[|s| - 1];
    }
  }

  /** Every update reads back from its line, with and without the option. */
  lemma ParseUpdateLine(u: Request, noreply: bool)
    requires Fits(u)
    ensures Parse(UpdateLine(u, noreply)) == u && HasNoreply(UpdateLine(u, noreply)) == noreply
  {
    hide Show, Joined, Tokens, HasNoreply, ParseUpdate, IsKey;
    var words := UpdateWords(u);
    var s, line := Joined(words), UpdateLine(u, noreply);
    NoreplyIsGiven(u, noreply);
    WordsAreKeys(u);
    TokensOfJoined(words);
    ParseUpdateWords(u);
    assert (s + " noreply")[..|s + " noreply"| - 8] == s && s + "" == s;
  }

  lemma {:induction false} JoinedNoLineEnd(ts: seq<string>)
    requires forall i :: 0 <= i < |ts| ==> NoLineEnd(ts[i])
    ensures NoLineEnd(Joined(ts))
  {
    if |ts| > 1 {
      hide Joined;
      JoinedNoLineEnd(ts[1..]);
      SpacedNoLineEnd(ts[0], Joined(ts[1..]));
      JoinedMore(ts);
    }
  }

  lemma JoinedMore(ts: seq<string>)
    requires |ts| > 1
    ensures Joined(ts) == ts[0] + " " + Joined(ts[1..])
  {
  }

  lemma SpacedNoLineEnd(a: string, b: string)
    requires NoLineEnd(a) && NoLineEnd(b)
    ensures NoLineEnd(a + " " + b)
  {
    var s := a + " " + b;
    forall i | 0 <= i < |s| - 1
      ensures !(s[i] == '\r' && s[i + 1] == '\n')
    {
      if i > |a| {
        assert s[i] == b[i - |a| - 1] && s[i + 1] == b[i - |a|];
      }
    }
  }

  lemma DigitsNoLineEnd(n: nat)
    ensures NoLineEnd(Show(n))
  {
    hide Show;
    DecimalOfShow(n);
  }

  /** The line of an update ends where it should. */
  lemma UpdateLineEnds(u: Request, noreply: bool)
    requires Fits(u) && NoLineEnd(u.key)
    ensures var line := UpdateLine(u, noreply); FindCRLF(line + "\r\n") == |line|
  {
    hide Show, Joined, FindCRLF, IsKey;
    DigitsNoLineEnd(u.flags);
    DigitsNoLineEnd(u.exptime);
    DigitsNoLineEnd(u.bytes);
    DigitsNoLineEnd(u.cas);
    var words := UpdateWords(u);
    assert NoLineEnd(CommandOf(u.policy));
    JoinedNoLineEnd(words);
    SpacedNoLineEnd(Joined(words), "noreply");
    assert Joined(words) + " " + "noreply" == Joined(words) + " noreply" && Joined(words) + "" == Joined(words);
    LineEnds(UpdateLine(u, noreply));
  }

  lemma LineEnds(line: string)
    requires NoLineEnd(line)
    ensures FindCRLF(line + "\r\n") == |line|
  {
    var s := line + "\r\n";
    assert forall i :: 0 <= i < |line| ==> s[i] == line[i];
    FirstCRLF(s, |line|);
  }

  lemma TwentyDigits(n: nat)
    requires n < TWO64
    ensures |Show(n)| <= 20
  {
    assert Ten(5) == 100000 by {
      assert Ten(2) == 10 * Ten(1) && Ten(3) == 10 * Ten(2) && Ten(4) == 10 * Ten(3) && Ten(5) == 10 * Ten(4);
    }
    TenMore(5);
    TenMore(10);
    TenMore(15);
    ShowLength(n, 20);
  }

  lemma TenMore(k: nat)
    ensures Ten(k + 5) == 100000 * Ten(k)
  {
    assert Ten(k + 2) == 10 * Ten(k + 1) && Ten(k + 3) == 10 * Ten(k + 2);
    assert Ten(k + 4) == 10 * Ten(k + 3) && Ten(k + 5) == 10 * Ten(k + 4);
  }

  lemma {:induction false} JoinedLength(ts: seq<string>, n: nat)
    requires forall i :: 0 <= i < |ts| ==> |ts[i]| <= n
    ensures |Joined(ts)| <= |ts| * (n + 1)
  {
    if |ts| > 1 {
      JoinedLength(ts[1..], n);
    }
  }

  /** The line of an update is not too long. */
  lemma UpdateLineShort(u: Request, noreply: bool)
    requires Fits(u)
    ensures |UpdateLine(u, noreply)| < 1024
  {
    hide Show, Joined, IsKey;
    var numbers := [Show(u.flags), Show(u.exptime), Show(u.bytes)] + if u.policy == Cas then [Show(u.cas)] else [];
    TwentyDigits(u.flags);
    TwentyDigits(u.exptime);
    TwentyDigits(u.bytes);
    TwentyDigits(u.cas);
    var words := UpdateWords(u);
    assert words == [CommandOf(u.policy), u.key] + numbers;
    assert words[1..] == [u.key] + numbers && ([u.key] + numbers)[1..] == numbers;
    JoinedMore(words);
    JoinedMore([u.key] + numbers);
    JoinedLength(numbers, 20);
  }
}
