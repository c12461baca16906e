/** The comma-separated target list: written by the DockerService reconciler into a ConfigMap and
    into push requests, read back by the tunnel server from the mounted file and from the request. */
module TargetList {
  import opened GoStrings
  import opened Wrappers
  import Decimal

  predicate WellFormed(t: string) {
    t != "" && Trimmed(t) && ',' !in t
  }

  predicate AllWellFormed(ts: seq<string>) {
    forall t :: t in ts ==> WellFormed(t)
  }

  /** The trimmed, non-empty parts, in order. */
  function Compact(parts: seq<string>): seq<string> {
    if parts == [] then []
    else
      var t := TrimSpace(parts[0]);
      (if t != "" then [t] else []) + Compact(parts[1..])
  }

  /** The targets a list denotes. */
  function Parse(csv: string): seq<string> {
    Compact(Split(csv, ','))
  }

  /** The list as the reconciler writes it. */
  function Csv(targets: seq<string>): string {
    Join(Sort(targets), ',')
  }

  lemma {:induction false} CompactConcat(a: seq<string>, b: seq<string>)
    ensures Compact(a + b) == Compact(a) + Compact(b)
  {
    if a == [] {
      assert a + b == b;
    } else {
      assert (a + b)[1..] == a[1..] + b;
      CompactConcat(a[1..], b);
    }
  }

  lemma CompactSnoc(parts: seq<string>, t: string)
    ensures Compact(parts + [t]) == Compact(parts) + (if TrimSpace(t) != "" then [TrimSpace(t)] else [])
  {
    CompactConcat(parts, [t]);
    assert Compact([t][1..]) == [];
  }

  /** The loop shared by the push handler and the file loader. */
  method KeepTargets(rawList: seq<string>) returns (newTargets: seq<string>)
    ensures newTargets == Compact(rawList)
  {
    newTargets := [];
    for i := 0 to |rawList|
      invariant newTargets == Compact(rawList[..i])
    {
      var t := TrimSpace(rawList[i]);
      assert rawList[..i + 1] == rawList[..i] + [rawList[i]];
      CompactSnoc(rawList[..i], rawList[i]);
      if t != "" {
        newTargets := newTargets + [t];
      }
    }
    assert rawList[..|rawList|] == rawList;
  }

  method ParsePush(targets: string) returns (newTargets: seq<string>)
    ensures newTargets == Parse(targets)
  {
    newTargets := KeepTargets(Split(targets, ','));
  }

  /** The file loader trims the whole content first; that changes nothing. */
  method ParseFile(data: string) returns (newTargets: seq<string>)
    ensures newTargets == Parse(data)
  {
    var content := TrimSpace(data);
    newTargets := [];
    if content != "" {
      newTargets := KeepTargets(Split(content, ','));
    }
    ParseIgnoresOuterSpace(data);
  }

  // Parsing ignores surrounding white space

  lemma {:induction false} ParseTrimLeft(s: string)
    ensures Parse(TrimLeft(s)) == Parse(s)
  {
    if s != "" && IsSpace(s[0]) {
      ParseTrimLeft(s[1..]);
      var rest := Split(s[1..], ',');
      assert ([s[0]] + rest[0])[1..] == rest[0];
      assert Split(s, ',')[1..] == rest[1..];
    }
  }

  lemma {:induction false} SplitSnoc(s: string, c: char)
    requires c != ','
    ensures var r := Split(s, ','); Split(s + [c], ',') == r[..|r| - 1] + [r[|r| - 1] + [c]]
  {
    var r := Split(s, ',');
    if s == "" {
      assert s + [c] == [c] && [c][1..] == "";
      assert [c] + "" == "" + [c];
      assert r[..0] + [r[0] + [c]] == [[c]];
    } else {
      assert (s + [c])[1..] == s[1..] + [c];
      SplitSnoc(s[1..], c);
      var rest := Split(s[1..], ',');
      if s[0] == ',' {
        assert r == [""] + rest;
      } else if |rest| == 1 {
        assert [s[0]] + (rest[0] + [c]) == [s[0]] + rest[0] + [c];
      }
    }
  }

  lemma ParseDropsLastSpace(p: string, c: char)
    requires IsSpace(c)
    ensures Parse(p + [c]) == Parse(p)
  {
    SplitSnoc(p, c);
    var r := Split(p, ',');
    var last := r[|r| - 1];
    TrimLeftSnoc(last, c);
    CompactConcat(r[..|r| - 1], [last + [c]]);
    CompactConcat(r[..|r| - 1], [last]);
    assert r == r[..|r| - 1] + [last];
  }

  lemma {:induction false} ParseTrimRight(s: string)
    ensures Parse(TrimRight(s)) == Parse(s)
  {
    if s != "" && IsSpace(s[|s| - 1]) {
      var p, c := s[..|s| - 1], s[|s| - 1];
      ParseTrimRight(p);
      assert s == p + [c];
      ParseDropsLastSpace(p, c);
    }
  }

  /** The push parser and the file parser agree on every string. */
  lemma ParseIgnoresOuterSpace(s: string)
    ensures Parse(TrimSpace(s)) == Parse(s)
    ensures TrimSpace(s) == "" ==> Parse(s) == []
  {
    ParseTrimLeft(s);
    ParseTrimRight(TrimLeft(s));
  }

  /** A file that ends in a newline denotes the same targets. */
  lemma NewlineIsIgnored(s: string)
    ensures Parse(s + "\n") == Parse(s) && Parse(s + "\r\n") == Parse(s)
  {
    ParseDropsLastSpace(s, '\n');
    assert s + "\n" == s + ['\n'];
    ParseDropsLastSpace(s, '\r');
    ParseDropsLastSpace(s + ['\r'], '\n');
    assert s + "\r\n" == s + ['\r'] + ['\n'];
  }

  // Round trip

  lemma {:induction false} ParseJoin(ts: seq<string>)
    requires AllWellFormed(ts)
    ensures Parse(Join(ts, ',')) == ts
  {
    if ts != [] {
      var t, rest := ts[0], ts[1..];
      assert t in ts;
      SplitPart(t, Join(rest, ','), ',');
      TrimmedIsFixed(t);
      assert ts == [t] + rest;
      if rest != [] {
        ParseJoin(rest);
        assert ([t] + Split(Join(rest, ','), ','))[1..] == Split(Join(rest, ','), ',');
      } else {
        assert Compact([t]) == [t] + Compact([t][1..]);
      }
    }
  }

  lemma SortKeepsWellFormed(ts: seq<string>)
    requires AllWellFormed(ts)
    ensures AllWellFormed(Sort(ts))
  {
    SortSorts(ts);
    forall t | t in Sort(ts) ensures WellFormed(t) {
      assert t in multiset(Sort(ts));
    }
  }

  /** What the server reads from the reconciler's list is the sorted list itself. */
  lemma RoundTrip(ts: seq<string>)
    requires AllWellFormed(ts)
    ensures Parse(Csv(ts)) == Sort(ts)
  {
    SortKeepsWellFormed(ts);
    ParseJoin(Sort(ts));
  }

  lemma {:induction false} CompactIsWellFormed(parts: seq<string>)
    requires forall p :: p in parts ==> ',' !in p
    ensures AllWellFormed(Compact(parts))
  {
    if parts != [] {
      CompactIsWellFormed(parts[1..]);
      TrimSpaceTrims(parts[0]);
    }
  }

  /** Whatever string arrives, writing out what was parsed and parsing again changes nothing. */
  lemma ParseIsIdempotent(s: string)
    ensures AllWellFormed(Parse(s))
    ensures Parse(Join(Parse(s), ',')) == Parse(s)
  {
    SplitHasNoSeparator(s, ',');
    CompactIsWellFormed(Split(s, ','));
    ParseJoin(Parse(s));
  }

  /** The published text is a canonical form: two lists share it exactly when they name the same
      targets equally often. The reconciler compares texts to decide whether to push. */
  lemma CsvIsCanonical(a: seq<string>, b: seq<string>)
    requires AllWellFormed(a) && AllWellFormed(b)
    ensures Csv(a) == Csv(b) <==> multiset(a) == multiset(b)
  {
    if multiset(a) == multiset(b) {
      SortIgnoresOrder(a, b);
    }
    if Csv(a) == Csv(b) {
      RoundTrip(a);
      RoundTrip(b);
      SortSorts(a);
      SortSorts(b);
    }
  }

  // Gathering the targets of a service

  /** `"%s:%d"` of an address and the service's first target port. */
  function Endpoint(ipv4: string, port: int): string {
    ipv4 + ":" + Decimal.PrintInt(port)
  }

  function Endpoints(ips: seq<string>, port: int): seq<string> {
    if ips == [] then []
    else
      var n := |ips| - 1;
      Endpoints(ips[..n], port) + (if ips[n] != "" then [Endpoint(ips[n], port)] else [])
  }

  lemma {:induction false} EndpointsConcat(a: seq<string>, b: seq<string>, port: int)
    ensures Endpoints(a + b, port) == Endpoints(a, port) + Endpoints(b, port)
  {
    if b == [] {
      assert a + b == a;
    } else {
      var n := |b| - 1;
      EndpointsConcat(a, b[..n], port);
      assert (a + b)[..|a + b| - 1] == a + b[..n] && (a + b)[|a + b| - 1] == b[n];
    }
  }

  /** Exactly one endpoint per container with an address, in their order, written "address:port". */
  lemma EndpointsExactly(a: seq<string>, ip: string, b: seq<string>, port: int)
    ensures Endpoints([], port) == []
    ensures Endpoints([ip], port) == if ip == "" then [] else [ip + ":" + Decimal.PrintInt(port)]
    ensures Endpoints(a + [ip] + b, port) == Endpoints(a, port) + Endpoints([ip], port) + Endpoints(b, port)
  {
    assert [ip][..0] == [];
    EndpointsConcat(a + [ip], b, port);
    EndpointsConcat(a, [ip], port);
  }

  predicate CleanAddress(ip: string) {
    forall c :: c in ip ==> !IsSpace(c) && c != ','
  }

  /** Collects one target for every container that has an address. `None` is the index panic of a
      service that lists no port. */
  method GatherTargets(ips: seq<string>, ports: seq<int>) returns (targetIPs: Option<seq<string>>)
    ensures targetIPs.None? <==> ports == [] && exists ip :: ip in ips && ip != ""
    ensures targetIPs.Some? ==> targetIPs.value == if ports == [] then [] else Endpoints(ips, ports[0])
  {
    var list := [];
    for i := 0 to |ips|
      invariant ports == [] ==> list == [] && forall k :: 0 <= k < i ==> ips[k] == ""
      invariant ports != [] ==> list == Endpoints(ips[..i], ports[0])
    {
      assert ips[..i + 1][..i] == ips[..i];
      if ips[i] != "" {
        if ports == [] {
          assert ips[i] in ips;
          return None;
        }
        list := list + [Endpoint(ips[i], ports[0])];
      }
    }
    assert ips[..|ips|] == ips;
    return Some(list);
  }

  lemma EndpointIsWellFormed(ip: string, port: int)
    requires CleanAddress(ip) && ip != ""
    ensures WellFormed(Endpoint(ip, port))
  {
    var e := Endpoint(ip, port);
    var digits := Decimal.PrintInt(port);
    assert e[0] == ip[0] && ip[0] in ip;
    assert e[|e| - 1] == digits[|digits| - 1];
    forall c | c in e ensures c != ',' {
      assert c in ip || c == ':' || c in digits;
    }
    assert Decimal.AllDigits(Decimal.Print(if port < 0 then -port else port));
  }

  /** Addresses without blanks or commas always give a list that survives the trip to the server. */
  lemma {:induction false} EndpointsAreWellFormed(ips: seq<string>, port: int)
    requires forall ip :: ip in ips ==> CleanAddress(ip)
    ensures AllWellFormed(Endpoints(ips, port))
  {
    if ips != [] {
      var n := |ips| - 1;
      assert ips[n] in ips;
      EndpointsAreWellFormed(ips[..n], port);
      if ips[n] != "" {
        EndpointIsWellFormed(ips[n], port);
      }
    }
  }
}
