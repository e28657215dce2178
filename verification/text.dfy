// The string operations of the Go standard library that the modelled code
// relies on: decimal rendering, strings.Cut, and the host:port pair of
// net.JoinHostPort and net.SplitHostPort.
module Text {
  ghost predicate NoDuplicates(s: seq<string>) {
    forall i, j | 0 <= i < j < |s| :: s[i] != s[j]
  }

  // ---------------------------------------------------------------------
  // Searching
  // ---------------------------------------------------------------------

  /** The first index of c in s, or -1. */
  function IndexOf(s: string, c: char): (i: int)
    ensures -1 <= i < |s|
    ensures i >= 0 ==> s[i] == c && c !in s[..i]
    ensures i < 0 <==> c !in s
  {
    if s == "" then -1
    else if s[0] == c then 0
    else
      var i := IndexOf(s[1..], c);
      if i < 0 then -1 else
        assert s[..i + 1] == [s[0]] + s[1..][..i];
        i + 1
  }

  /** The last index of c in s, or -1. */
  function LastIndexOf(s: string, c: char): (i: int)
    ensures -1 <= i < |s|
    ensures i >= 0 ==> s[i] == c && c !in s[i + 1..]
    ensures i < 0 <==> c !in s
  {
    if s == "" then -1
    else if s[|s| - 1] == c then |s| - 1
    else
      var i := LastIndexOf(s[..|s| - 1], c);
      if i < 0 then
        assert s == s[..|s| - 1] + [s[|s| - 1]];
        -1
      else
        assert s[i + 1..] == s[..|s| - 1][i + 1..] + [s[|s| - 1]];
        i
  }

  datatype Cutting = Cutting(before: string, after: string, found: bool)

  /** Split at the first separator. */
  function Cut(s: string, sep: char): Cutting {
    var i := IndexOf(s, sep);
    if i < 0 then Cutting(s, "", false) else Cutting(s[..i], s[i + 1..], true)
  }

  /** A string is cut at its first separator in only one way. */
  lemma FirstSeparator(a: string, x: string, b: string, y: string, sep: char)
    requires sep !in a && sep !in b
    requires a + [sep] + x == b + [sep] + y
    ensures a == b && x == y
  {
    var s := a + [sep] + x;
    assert s[|a|] == sep && s[|b|] == sep;
    assert forall i | 0 <= i < |a| :: s[i] == a[i];
    assert forall i | 0 <= i < |b| :: s[i] == b[i];
    assert a == s[..|a|] && b == s[..|b|];
    assert x == s[|a| + 1..] && y == s[|b| + 1..];
  }

  lemma CutAt(a: string, x: string, sep: char)
    requires sep !in a
    ensures Cut(a + [sep] + x, sep) == Cutting(a, x, true)
  {
    var s := a + [sep] + x;
    assert s[|a|] == sep;
    var i := IndexOf(s, sep);
    assert s == s[..i] + [sep] + s[i + 1..];
    FirstSeparator(a, x, s[..i], s[i + 1..], sep);
  }

  // ---------------------------------------------------------------------
  // Decimal rendering
  // ---------------------------------------------------------------------

  const DIGITS: string := "0123456789"

  /** strconv.Itoa for a non-negative number. */
  function Decimal(n: nat): (s: string)
    ensures s != ""
    ensures forall c | c in s :: c in DIGITS
  {
    if n < 10 then [DIGITS[n]] else Decimal(n / 10) + [DIGITS[n % 10]]
  }

  /** strconv.Itoa. */
  function Itoa(n: int): (s: string)
    ensures forall c | c in s :: c in DIGITS || c == '-'
  {
    if n < 0 then "-" + Decimal(-n) else Decimal(n)
  }

  /** What a numeral says, read from left to right. */
  function ValueOf(s: string): int {
    if s == "" then 0 else 10 * ValueOf(s[..|s| - 1]) + (s[|s| - 1] as int - '0' as int)
  }

  /** Reading a number back gives the number; there is no leading zero. */
  lemma {:induction false} DecimalReadsBack(n: nat)
    ensures ValueOf(Decimal(n)) == n
    ensures n > 0 ==> Decimal(n)[0] != '0'
    ensures forall c | c in Decimal(n) :: '0' <= c <= '9'
  {
    var s := Decimal(n);
    if n < 10 {
      assert s[..0] == "";
    } else {
      DecimalReadsBack(n / 10);
      assert s[..|s| - 1] == Decimal(n / 10);
    }
  }

  lemma {:induction false} DecimalInjective(m: nat, n: nat)
    requires Decimal(m) == Decimal(n)
    ensures m == n
  {
    var s := Decimal(m);
    assert s[|s| - 1] == DIGITS[m % 10] == DIGITS[n % 10];
    assert m % 10 == n % 10;
    if m < 10 || n < 10 {
      assert |s| == 1 ==> m < 10 && n < 10;
    } else {
      assert Decimal(m / 10) == s[..|s| - 1] == Decimal(n / 10);
      DecimalInjective(m / 10, n / 10);
    }
  }

  // ---------------------------------------------------------------------
  // host:port
  // ---------------------------------------------------------------------

  function JoinHostPort(host: string, port: string): string {
    if ':' in host then "[" + host + "]:" + port else host + ":" + port
  }

  datatype HostPort = HostPort(host: string, port: string) | BadAddress

  /** net.SplitHostPort; every error becomes BadAddress. */
  function SplitHostPort(hostport: string): HostPort {
    var i := LastIndexOf(hostport, ':');
    if i < 0 then BadAddress
    else if hostport[0] == '[' then
      var end := IndexOf(hostport, ']');
      if end < 0 || end + 1 != i then BadAddress
      else if '[' in hostport[1..] || ']' in hostport[end + 1..] then BadAddress
      else HostPort(hostport[1..end], hostport[i + 1..])
    else
      var host := hostport[..i];
      if ':' in host || '[' in hostport || ']' in hostport then BadAddress
      else HostPort(host, hostport[i + 1..])
  }

  ghost predicate Plain(s: string) {
    ':' !in s && '[' !in s && ']' !in s
  }

  lemma {:induction false} FirstAt(a: string, x: string, sep: char)
    requires sep !in a
    ensures IndexOf(a + [sep] + x, sep) == |a|
  {
    var s := a + [sep] + x;
    if a == "" {
      assert s[0] == sep;
    } else {
      FirstAt(a[1..], x, sep);
      assert s[0] == a[0] && s[1..] == a[1..] + [sep] + x;
    }
  }

  lemma {:induction false} LastAt(a: string, x: string, sep: char)
    requires sep !in x
    ensures LastIndexOf(a + [sep] + x, sep) == |a|
  {
    var s := a + [sep] + x;
    if x == "" {
      assert s[|s| - 1] == sep;
    } else {
      LastAt(a, x[..|x| - 1], sep);
      assert s[|s| - 1] == x[|x| - 1] && s[..|s| - 1] == a + [sep] + x[..|x| - 1];
    }
  }

  lemma NotInSum(a: string, b: string, c: char)
    requires c !in a && c !in b
    ensures c !in a + b
  {}

  lemma SplitPlain(host: string, port: string)
    requires Plain(host) && Plain(port)
    ensures SplitHostPort(host + ":" + port) == HostPort(host, port)
  {
    var s := host + ":" + port;
    LastAt(host, port, ':');
    assert s[..|host|] == host && s[|host| + 1..] == port;
    assert s[0] == (if host == "" then ':' else host[0]);
  }

  lemma SplitAtBracket(s: string, end: nat)
    requires 0 < end < |s| - 1 && s[0] == '['
    requires IndexOf(s, ']') == end && LastIndexOf(s, ':') == end + 1
    requires '[' !in s[1..] && ']' !in s[end + 1..]
    ensures SplitHostPort(s) == HostPort(s[1..end], s[end + 2..])
  {}

  lemma BracketedParts(host: string, port: string)
    requires '[' !in host && ']' !in host && Plain(port)
    ensures var s := "[" + host + "]:" + port;
            && '[' !in s[1..] && ']' !in s[|host| + 2..]
            && s[1..|host| + 1] == host && s[|host| + 3..] == port
  {
    var s := "[" + host + "]:" + port;
    NotInSum("]:", port, '[');
    NotInSum(host, "]:" + port, '[');
    NotInSum(":", port, ']');
    assert s[1..] == host + ("]:" + port);
    assert s[|host| + 2..] == ":" + port;
  }

  lemma SplitBracketed(host: string, port: string)
    requires '[' !in host && ']' !in host && Plain(port)
    ensures SplitHostPort("[" + host + "]:" + port) == HostPort(host, port)
  {
    var s := "[" + host + "]:" + port;
    assert LastIndexOf(s, ':') == |host| + 2 by {
      assert s == ("[" + host + "]") + ":" + port;
      LastAt("[" + host + "]", port, ':');
    }
    assert IndexOf(s, ']') == |host| + 1 by {
      assert s == ("[" + host) + "]" + (":" + port);
      FirstAt("[" + host, ":" + port, ']');
    }
    BracketedParts(host, port);
    SplitAtBracket(s, |host| + 1);
  }

  /** Splitting undoes joining, for names and for bracketed IPv6 literals. */
  lemma SplitJoin(host: string, port: string)
    requires '[' !in host && ']' !in host && Plain(port)
    ensures SplitHostPort(JoinHostPort(host, port)) == HostPort(host, port)
  {
    if ':' in host { SplitBracketed(host, port); } else { SplitPlain(host, port); }
  }

  // ---------------------------------------------------------------------
  // Decimal text has none of the separators
  // ---------------------------------------------------------------------

  lemma DecimalIsPlain(n: nat)
    ensures Plain(Decimal(n)) && '.' !in Decimal(n)
  {}
}
