/** The request lines of the memcached text protocol, as `memcached/server/Session.cc` reads them. */
module Requests {
  import opened ItemStore
  import opened Texts

  const TWO64 := 0x1_0000_0000_0000_0000
  const TWO32 := 0x1_0000_0000

  // ----- tokens and numbers

  /** The words between spaces. */
  function Tokens(s: string): (ts: seq<string>) {
    if s == "" then []
    else if s[0] == ' ' then Tokens(s[1..])
    else
      var n := WordLength(s);
      [s[..n]] + Tokens(s[n..])
  }

  function WordLength(s: string): (n: nat)
    ensures n <= |s| && (forall i :: 0 <= i < n ==> s[i] != ' ') && (n < |s| ==> s[n] == ' ')
    ensures s != "" && s[0] != ' ' ==> n > 0
  {
    if s == "" || s[0] == ' ' then 0 else 1 + WordLength(s[1..])
  }

  /** What `strtoull` makes of a token that it reads to its end; -1 if it does not. */
  function Strtoull(token: string): (n: int)
    ensures -1 <= n < TWO64
  {
    var s := SkipWhite(token);
    var signed := s != "" && (s[0] == '+' || s[0] == '-');
    var digits := if signed then s[1..] else s;
    if !IsDigits(digits) then -1
    else
      var n := Decimal(digits);
      if n >= TWO64 then TWO64 - 1
      else if signed && s[0] == '-' then (TWO64 - n) % TWO64
      else n
  }

  /** `static_cast<int>` and `static_cast<time_t>` of a 64-bit number. */
  function ToInt(n: int): (i: int)
    ensures -(TWO32 / 2) <= i < TWO32 / 2
  {
    var low := n % TWO32;
    if low < TWO32 / 2 then low else low - TWO32
  }

  function ToTime(n: nat): (t: int) {
    if n < TWO64 / 2 then n else n - TWO64
  }

  /** The casts keep the number modulo 2^32, and a 64-bit number modulo 2^64. */
  lemma CastsWrap(n: int, m: nat)
    requires m < TWO64
    ensures (n - ToInt(n)) % TWO32 == 0
    ensures -(TWO64 / 2) <= ToTime(m) < TWO64 / 2 && (m - ToTime(m)) % TWO64 == 0
  {
    assert n - n % TWO32 == TWO32 * (n / TWO32);
  }

  // ----- requests

  datatype Request =
    | Update(policy: Policy, key: string, flags: nat, exptime: int, bytes: int, cas: nat)
    | BadUpdate
    | Get(keys: seq<string>, withCas: bool)
    | Delete(key: string)
    | BadDelete(reply: string)
    | Version
    | Quit
    | Shutdown
    | Unknown
    | NoKey               // an update or a delete without a key: the source dereferences an end iterator

  const BAD_FORMAT := "CLIENT_ERROR bad command line format\r\n"
  const BAD_DELETE := "CLIENT_ERROR bad command line format.  Usage: delete <key> [noreply]\r\n"

  predicate HasNoreply(line: string) {
    |line| >= 8 && line[|line| - 8..] == " noreply"
  }

  function Policies(): (m: map<string, Policy>) {
    map["set" := Set, "add" := Add, "replace" := Replace, "append" := Append, "prepend" := Prepend, "cas" := Cas]
  }

  /** `doUpdate` up to the decision what to do: flags, expiration, size and, for cas, the number. */
  function ParseUpdate(policy: Policy, args: seq<string>): (r: Request)
    ensures r.Update? ==> -(TWO32 / 2) <= r.bytes < TWO32 / 2
  {
    if args == [] then NoKey
    else if |args[0]| > LONGEST_KEY || |args| < 4 then BadUpdate
    else
      var flags, exptime, bytes := Strtoull(args[1]), Strtoull(args[2]), Strtoull(args[3]);
      if flags < 0 || exptime < 0 || bytes < 0 then BadUpdate
      else if policy == Cas then
        if |args| < 5 || Strtoull(args[4]) < 0 then BadUpdate
        else Update(policy, args[0], flags % TWO32, ToTime(exptime), ToInt(bytes), Strtoull(args[4]))
      else Update(policy, args[0], flags % TWO32, ToTime(exptime), ToInt(bytes), 0)
  }

  function ParseDelete(args: seq<string>): (r: Request) {
    if args == [] then NoKey
    else if |args[0]| > LONGEST_KEY then BadDelete(BAD_FORMAT)
    else if |args| > 1 && args[1] != "0" then BadDelete(BAD_DELETE)
    else Delete(args[0])
  }

  function Parse(line: string): (r: Request)
    ensures r.Update? ==> -(TWO32 / 2) <= r.bytes < TWO32 / 2
  {
    var tokens := Tokens(if HasNoreply(line) then line[..|line| - 8] else line);
    if tokens == [] then Unknown
    else
      var command, args := tokens[0], tokens[1..];
      if command in Policies() then ParseUpdate(Policies()[command], args)
      else if command == "get" || command == "gets" then Get(args, command == "gets")
      else if command == "delete" then ParseDelete(args)
      else if command == "version" then Version
      else if command == "quit" then Quit
      else if command == "shutdown" then Shutdown
      else Unknown
  }
}
