/** Decimal numbers and lines of text, as the text protocols of the repository use them. */
module Texts {
  import opened Division

  predicate IsDigits(s: string) {
    s != "" && forall i :: 0 <= i < |s| ==> '0' <= s[i] <= '9'
  }

  function Decimal(s: string): (n: nat)
    requires forall i :: 0 <= i < |s| ==> '0' <= s[i] <= '9'
  {
    if s == "" then 0 else 10 * Decimal(s[..|s| - 1]) + (s[|s| - 1] as int - '0' as int)
  }

  function Show(n: nat): (s: string) {
    if n < 10 then [(n + '0' as int) as char] else Show(n / 10) + [(n % 10 + '0' as int) as char]
  }

  lemma {:induction false} DecimalOfShow(n: nat)
    ensures IsDigits(Show(n)) && Decimal(Show(n)) == n
  {
    if n < 10 {
      assert Show(n)[..0] == "";
    } else {
      DecimalOfShow(n / 10);
      var s := Show(n);
      assert s[..|s| - 1] == Show(n / 10);
    }
  }

  function Ten(k: nat): (n: nat)
    ensures n > 0
  {
    if k == 0 then 1 else 10 * Ten(k - 1)
  }

  lemma {:induction false} ShowLength(n: nat, k: nat)
    requires n < Ten(k) && k > 0
    ensures |Show(n)| <= k
    decreases k
  {
    if n >= 10 {
      assert k > 1 by {
        assert Ten(1) == 10 * Ten(0);
      }
      ShowLength(n / 10, k - 1);
    }
  }

  /** The digits are the decimal ones, the last one for the units, without a zero in front. */
  lemma {:induction false} ShowAt(n: nat, i: nat)
    requires i < |Show(n)|
    ensures var s := Show(n); '0' <= s[|s| - 1 - i] <= '9' && s[|s| - 1 - i] as int - '0' as int == n / Ten(i) % 10
    ensures n > 0 ==> Show(n)[0] != '0'
    decreases n
  {
    if n >= 10 {
      ShowAt(n / 10, if i > 0 then i - 1 else 0);
    }
    if i > 0 {
      DivideTwice(n, 10, Ten(i - 1));
    } else {
      assert Ten(0) == 1;
    }
  }

  function SkipWhite(s: string): (r: string) {
    if s != "" && (s[0] == ' ' || 9 as char <= s[0] <= 13 as char) then SkipWhite(s[1..]) else s
  }

  function DigitsLength(s: string): (n: nat)
    ensures n <= |s| && (forall i :: 0 <= i < n ==> '0' <= s[i] <= '9') && (n < |s| ==> !('0' <= s[n] <= '9'))
  {
    if s == "" || !('0' <= s[0] <= '9') then 0 else
      var n := DigitsLength(s[1..]);
      n + 1
  }

  /** `atoll` of a text: blanks, a sign, digits, and whatever follows. */
  function Atoll(text: string): (n: int) {
    var s := SkipWhite(text);
    var signed := s != "" && (s[0] == '+' || s[0] == '-');
    var digits := if signed then s[1..] else s;
    var n: int := Decimal(digits[..DigitsLength(digits)]);
    if signed && s[0] == '-' then -n else n
  }

  /** What `%d` prints. */
  function ShowInt(n: int): (s: string) {
    if n < 0 then "-" + Show(-n) else Show(n)
  }

  lemma AtollOfShowInt(n: int)
    ensures Atoll("\t" + ShowInt(n)) == n
  {
    hide Show, Decimal;
    var digits := Show(if n < 0 then -n else n);
    DecimalOfShow(if n < 0 then -n else n);
    var s := ShowInt(n);
    assert ("\t" + s)[1..] == s;
    assert SkipWhite("\t" + s) == s by {
      NoBlank(s);
    }
    assert n < 0 ==> s[1..] == digits;
    AllDigits(digits);
    assert digits[..|digits|] == digits;
  }

  lemma NoBlank(s: string)
    requires s != "" && !(s[0] == ' ' || 9 as char <= s[0] <= 13 as char)
    ensures SkipWhite("\t" + s) == s
  {
    assert ("\t" + s)[1..] == s;
  }

  lemma AllDigits(s: string)
    requires IsDigits(s)
    ensures DigitsLength(s) == |s|
  {
  }

  /** Where the first CRLF starts, or the length. */
  function FindCRLF(s: string): (i: nat)
    ensures i <= |s| && (i < |s| ==> i + 2 <= |s| && s[i] == '\r' && s[i + 1] == '\n')
    ensures forall j :: 0 <= j < i && j + 1 < |s| ==> !(s[j] == '\r' && s[j + 1] == '\n')
  {
    if |s| < 2 then |s|
    else if s[0] == '\r' && s[1] == '\n' then 0
    else
      var i := FindCRLF(s[1..]);
      i + 1
  }

  /** The first CRLF is where it is found. */
  lemma FirstCRLF(s: string, i: nat)
    requires i + 2 <= |s| && s[i] == '\r' && s[i + 1] == '\n'
    requires forall j :: 0 <= j < i ==> !(s[j] == '\r' && s[j + 1] == '\n')
    ensures FindCRLF(s) == i
  {
  }

  lemma FindInPrefix(a: string, b: string)
    requires FindCRLF(a) < |a|
    ensures FindCRLF(a + b) == FindCRLF(a)
  {
    assert forall k :: 0 <= k < |a| ==> (a + b)[k] == a[k];
    FirstCRLF(a + b, FindCRLF(a));
  }

  lemma NoCRLFInPrefix(a: string, b: string)
    requires FindCRLF(a) == |a|
    ensures FindCRLF(a + b) >= |a| - 1
  {
    var j := FindCRLF(a + b);
    assert forall k :: 0 <= k < |a| ==> (a + b)[k] == a[k];
  }

  /** The bytes of a stream that arrives in chunks. */
  ghost function Concat<T>(chunks: seq<seq<T>>): (s: seq<T>) {
    if chunks == [] then [] else Concat(chunks[..|chunks| - 1]) + chunks[|chunks| - 1]
  }
}
