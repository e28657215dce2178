// A SOCKS client that asks for a pod by its full name gets that pod.
module EndToEnd {
  import opened Wrappers
  import opened Text
  import opened ConfigTypes
  import opened Address
  import Socks

  ghost predicate Spells(name: seq<Socks.byte>, text: string) {
    |name| == |text| && forall k | 0 <= k < |name| :: name[k] as int == text[k] as int
  }

  lemma SpelledText(name: seq<Socks.byte>, text: string)
    requires Spells(name, text)
    ensures Socks.AsText(name) == text
  {}

  /** What a client sends after its greeting and credentials: CONNECT to this name
      and port (RFC 1928 section 4), and its payload. */
  ghost function Asking(name: seq<Socks.byte>, hi: Socks.byte, lo: Socks.byte, payload: seq<Socks.byte>)
    : seq<Socks.byte>
    requires |name| < 256
  {
    [5, 1, 0] + ([3, |name| as Socks.byte] + name) + [hi, lo] + payload
  }

  ghost predicate ReachesWith(read: Socks.Step<Socks.Request>, entries: seq<Entry>, n: Naming, local: int,
                              payload: seq<Socks.byte>, renderIPv6: seq<Socks.byte> -> string) {
    && read.Got? && read.stream.input == payload && read.value.host.Domain?
    && Resolve(Table(entries, n), Socks.DialAddress(read.value, renderIPv6), true) == "localhost:" + Itoa(local)
  }

  lemma ReadReaches(read: Socks.Step<Socks.Request>, r: Socks.Request, entries: seq<Entry>, n: Naming, local: int,
                    payload: seq<Socks.byte>, renderIPv6: seq<Socks.byte> -> string)
    requires read.Got? && read.stream.input == payload && read.value == r && r.host.Domain?
    requires Resolve(Table(entries, n), Socks.DialAddress(r, renderIPv6), true) == "localhost:" + Itoa(local)
    ensures ReachesWith(read, entries, n, local, payload, renderIPv6)
  {}

  lemma DialledIsThePods(entries: seq<Entry>, n: Naming, i: nat, target: string, ns: string, remote: nat, local: int,
                         headless: string, domain: string, name: seq<Socks.byte>,
                         renderIPv6: seq<Socks.byte> -> string)
    requires UpAreDistinct(entries, n) && i < |entries| && IsUp(entries[i].forward)
    requires IsForward(entries[i].forward, n, target, ns, remote, local)
    requires Label(headless) && Plain(domain) && n.domain != "svc." + domain
    requires Spells(name, target + "." + headless + "." + ns + ".svc." + domain)
    ensures Resolve(Table(entries, n), Socks.DialAddress(Socks.Request(Socks.Domain(name), remote), renderIPv6), true)
         == "localhost:" + Itoa(local)
  {
    var text := target + "." + headless + "." + ns + ".svc." + domain;
    SpelledText(name, text);
    UpIsReached(entries, n, i, target, ns, remote, local);
    DistinctUpIsWellNamed(entries, n);
    UpServes(entries[i], n, target, ns, remote, local);
    PlainFqdn(target, headless, ns, domain);
    assert Socks.DialAddress(Socks.Request(Socks.Domain(name), remote), renderIPv6) == text + ":" + Decimal(remote);
  }

  /** What a client sends between its greeting and its request: nothing to a
      server without credentials, else those credentials (RFC 1929 section 2). */
  ghost predicate LogsIn(auth: Option<Socks.Credentials>, methods: seq<Socks.byte>, login: seq<Socks.byte>) {
    if auth.None? then 0 in methods && login == []
    else
      var user, pass := auth.value.username, auth.value.password;
      && 2 in methods && |user| < 256 && |pass| < 256
      && login == [1, |user| as Socks.byte] + user + [|pass| as Socks.byte] + pass
  }

  lemma AskingIsRead(auth: Option<Socks.Credentials>, methods: seq<Socks.byte>, login: seq<Socks.byte>,
                     name: seq<Socks.byte>, hi: Socks.byte, lo: Socks.byte, payload: seq<Socks.byte>, writes: nat)
    requires |methods| < 256 && |name| < 256 && writes >= 2 && LogsIn(auth, methods, login)
    ensures var sent := [5, |methods| as Socks.byte] + methods + (login + Asking(name, hi, lo, payload));
            var read := Socks.Handshake(Socks.Stream(sent, [], writes), auth);
            && read.Got? && read.stream.input == payload
            && read.value == Socks.Request(Socks.Domain(name), 256 * hi as nat + lo as nat)
  {
    assert auth.None? ==> login + Asking(name, hi, lo, payload) == Asking(name, hi, lo, payload);
    Socks.OnTheWire(methods, Socks.Domain(name), [3, |name| as Socks.byte] + name, 0, hi, lo, payload, writes);
  }

  /** Greeting, credentials if any, and CONNECT for the name of a pod behind a
      headless service: the server reads the request, leaves the payload, and the
      address it dials is that pod's own local port, whatever else is forwarded. */
  lemma ProxiedPodIsReached(entries: seq<Entry>, n: Naming, i: nat, target: string, ns: string, remote: int, local: int,
                            headless: string, domain: string, name: seq<Socks.byte>, hi: Socks.byte, lo: Socks.byte,
                            auth: Option<Socks.Credentials>, methods: seq<Socks.byte>, login: seq<Socks.byte>,
                            payload: seq<Socks.byte>, writes: nat, renderIPv6: seq<Socks.byte> -> string)
    requires UpAreDistinct(entries, n) && i < |entries| && IsUp(entries[i].forward)
    requires IsForward(entries[i].forward, n, target, ns, remote, local)
    requires Label(headless) && Plain(domain) && n.domain != "svc." + domain
    requires |name| < 256 && Spells(name, target + "." + headless + "." + ns + ".svc." + domain)
    requires remote == 256 * hi as int + lo as int && |methods| < 256 && writes >= 2 && LogsIn(auth, methods, login)
    ensures var sent := [5, |methods| as Socks.byte] + methods + (login + Asking(name, hi, lo, payload));
            ReachesWith(Socks.Handshake(Socks.Stream(sent, [], writes), auth), entries, n, local, payload, renderIPv6)
  {
    var sent := [5, |methods| as Socks.byte] + methods + (login + Asking(name, hi, lo, payload));
    AskingIsRead(auth, methods, login, name, hi, lo, payload, writes);
    DialledIsThePods(entries, n, i, target, ns, remote, local, headless, domain, name, renderIPv6);
    ReadReaches(Socks.Handshake(Socks.Stream(sent, [], writes), auth), Socks.Request(Socks.Domain(name), remote),
                entries, n, local, payload, renderIPv6);
  }
}
