/** `getDockerClient`: a five-minute cache in front of the lookup namespace, then "system", then the
    local socket. The DockerContainer and DockerJob reconcilers share one form; the copy in the
    DockerService reconciler stores under a different key than it loads from. */
module ClientCache {
  import opened Wrappers

  const LIFETIME := 5 * 60_000_000_000

  /** A DockerHost object. `usable` says whether a client can be made for its URL. */
  datatype HostObject = HostObject(url: string, tlsSecret: string, usable: bool)

  /** What the API server would answer at one moment; keys are (namespace, name). `localOk` says whether
      a client for the local socket can be made. */
  datatype Api = Api(
    hosts: map<(string, string), HostObject>,
    secrets: map<(string, string), string>,
    down: set<(string, string)>,
    localOk: bool)

  datatype Target = Local | Remote(url: string, tls: Option<string>)

  // Uncached resolution

  predicate Found(api: Api, key: (string, string)) {
    key !in api.down && key in api.hosts
  }

  predicate NotFound(api: Api, key: (string, string)) {
    key !in api.down && key !in api.hosts
  }

  /** The TLS secret is read from the caller's namespace even for a "system" host. */
  function Connect(api: Api, ns: string, host: HostObject): Option<Target> {
    if !host.usable then None
    else if host.tlsSecret == "" then Some(Remote(host.url, None))
    else if (ns, host.tlsSecret) in api.secrets && (ns, host.tlsSecret) !in api.down
    then Some(Remote(host.url, Some(api.secrets[(ns, host.tlsSecret)])))
    else None
  }

  function Resolve(api: Api, ns: string, host: string): Option<Target> {
    if Found(api, (ns, host)) then Connect(api, ns, api.hosts[(ns, host)])
    else if !NotFound(api, (ns, host)) then None
    else if ns != "system" && Found(api, ("system", host)) then Connect(api, ns, api.hosts[("system", host)])
    else if host == "default" && api.localOk then Some(Local)
    else None
  }

  // What resolution means

  /** The two differ at most in what they know of the "system" host of this name. */
  predicate OnlySystemDiffers(a: Api, b: Api, host: string) {
    && a.secrets == b.secrets && a.localOk == b.localOk
    && a.hosts - {("system", host)} == b.hosts - {("system", host)}
    && a.down - {("system", host)} == b.down - {("system", host)}
  }

  lemma SameElsewhere(a: Api, b: Api, host: string, key: (string, string))
    requires OnlySystemDiffers(a, b, host) && key != ("system", host)
    ensures Found(a, key) <==> Found(b, key)
    ensures NotFound(a, key) <==> NotFound(b, key)
    ensures Found(a, key) ==> a.hosts[key] == b.hosts[key]
    ensures key in a.down <==> key in b.down
  {
    assert key in a.hosts <==> key in a.hosts - {("system", host)};
    assert key in b.hosts <==> key in b.hosts - {("system", host)};
    assert key in a.hosts ==> (a.hosts - {("system", host)})[key] == a.hosts[key];
    assert key in b.hosts ==> (b.hosts - {("system", host)})[key] == b.hosts[key];
    assert key in a.down <==> key in a.down - {("system", host)};
    assert key in b.down <==> key in b.down - {("system", host)};
  }

  lemma OwnHostWins(a: Api, b: Api, ns: string, host: string)
    requires ns != "system" && OnlySystemDiffers(a, b, host) && !NotFound(a, (ns, host))
    ensures Resolve(a, ns, host) == Resolve(b, ns, host)
  {
    SameElsewhere(a, b, host, (ns, host));
    if Found(a, (ns, host)) {
      SameElsewhere(a, b, host, (ns, a.hosts[(ns, host)].tlsSecret));
    }
  }

  /** With this object as the "system" host. */
  function WithSystem(api: Api, host: string, o: HostObject): Api {
    api.(hosts := api.hosts[("system", host) := o], down := api.down - {("system", host)})
  }

  lemma SystemHostIsUsed(api: Api, ns: string, host: string, url: string)
    requires ns != "system" && NotFound(api, (ns, host))
    ensures var b := WithSystem(api, host, HostObject(url, "", true));
            OnlySystemDiffers(api, b, host) && Resolve(b, ns, host) == Some(Remote(url, None))
  {
    var b := WithSystem(api, host, HostObject(url, "", true));
    assert api.hosts - {("system", host)} == b.hosts - {("system", host)};
    assert api.down - {("system", host)} == b.down - {("system", host)};
    SameElsewhere(api, b, host, (ns, host));
  }

  /** The namespace comes first: what "system" holds matters if and only if the caller's own namespace has
      no host of the name. */
  lemma SystemMattersExactly(api: Api, ns: string, host: string)
    requires ns != "system"
    ensures NotFound(api, (ns, host)) <==>
            exists b :: OnlySystemDiffers(api, b, host) && Resolve(b, ns, host) != Resolve(api, ns, host)
  {
    if NotFound(api, (ns, host)) {
      SystemHostIsUsed(api, ns, host, "a");
      SystemHostIsUsed(api, ns, host, "b");
      var b, c := WithSystem(api, host, HostObject("a", "", true)), WithSystem(api, host, HostObject("b", "", true));
      assert Resolve(b, ns, host) != Resolve(api, ns, host) || Resolve(c, ns, host) != Resolve(api, ns, host);
    } else {
      forall b | OnlySystemDiffers(api, b, host) ensures Resolve(b, ns, host) == Resolve(api, ns, host) {
        OwnHostWins(api, b, ns, host);
      }
    }
  }

  /** A remote answer is the URL of the caller's own host if there is one and of the "system" host
      otherwise; its TLS text is the secret that host names, read in the caller's namespace. */
  lemma RemoteExactly(api: Api, ns: string, host: string, url: string, tls: Option<string>)
    ensures Resolve(api, ns, host) == Some(Remote(url, tls)) <==>
            exists where :: (where == ns || (where == "system" && (ns, host) !in api.hosts && (ns, host) !in api.down))
              && (where, host) in api.hosts && (where, host) !in api.down
              && api.hosts[(where, host)].usable && api.hosts[(where, host)].url == url
              && var secret := api.hosts[(where, host)].tlsSecret;
                 if secret == "" then tls == None
                 else (ns, secret) in api.secrets && (ns, secret) !in api.down && tls == Some(api.secrets[(ns, secret)])
  {
    if Resolve(api, ns, host) == Some(Remote(url, tls)) {
      var where := if Found(api, (ns, host)) then ns else "system";
      assert (where, host) in api.hosts;
    }
  }

  /** The local socket is used exactly for the name "default", when the caller's namespace has no such host
      and none can be read in "system". */
  lemma LocalExactly(api: Api, ns: string, host: string)
    ensures Resolve(api, ns, host) == Some(Local) <==>
            && host == "default" && api.localOk
            && (ns, host) !in api.hosts && (ns, host) !in api.down
            && (("system", host) !in api.hosts || ("system", host) in api.down)
  {
  }

  // The cache

  datatype Entry = Entry(client: nat, target: Target, createdAt: int)

  /** Clients are numbered in the order in which they are made. */
  datatype Cache = Cache(entries: map<string, Entry>, made: nat, closed: set<nat>)

  const EMPTY := Cache(map[], 0, {})

  datatype Answer = Failed | Client(id: nat, target: Target)

  /** Which copy of the code. */
  datatype Copy = Common | Service

  /** One call: the state of the API server, the time, and the object's namespace and dockerHostRef. */
  datatype Call = Call(api: Api, now: int, ns: string, ref: string)

  function HostName(ref: string): string {
    if ref == "" then "default" else ref
  }

  function LoadKey(call: Call): string {
    call.ns + "/" + HostName(call.ref)
  }

  function StoreKey(copy: Copy, call: Call): string {
    call.ns + "/" + (if copy == Service then call.ref else HostName(call.ref))
  }

  predicate Hit(c: Cache, call: Call) {
    LoadKey(call) in c.entries && call.now - c.entries[LoadKey(call)].createdAt < LIFETIME
  }

  /** An expired entry is closed and dropped. */
  function Expire(c: Cache, key: string): Cache {
    if key in c.entries then c.(entries := c.entries - {key}, closed := c.closed + {c.entries[key].client}) else c
  }

  /** The client of the local socket is made anew by every call and never cached. */
  function Get(c: Cache, copy: Copy, call: Call): (Cache, Answer) {
    if Hit(c, call) then
      var e := c.entries[LoadKey(call)];
      (c, Client(e.client, e.target))
    else
      var c1 := Expire(c, LoadKey(call));
      match Resolve(call.api, call.ns, HostName(call.ref))
      case None => (c1, Failed)
      case Some(Local) => (c1.(made := c1.made + 1), Client(c1.made, Local))
      case Some(target) =>
        (c1.(entries := c1.entries[StoreKey(copy, call) := Entry(c1.made, target, call.now)], made := c1.made + 1),
         Client(c1.made, target))
  }

  function Run(copy: Copy, calls: seq<Call>): Cache {
    if calls == [] then EMPTY else Get(Run(copy, calls[..|calls| - 1]), copy, calls[|calls| - 1]).0
  }

  // Keys

  lemma FirstSlash(ns: string, host: string)
    requires '/' !in ns
    ensures var k := ns + "/" + host; k[|ns|] == '/' && forall i :: 0 <= i < |ns| ==> k[i] != '/'
  {
    var k := ns + "/" + host;
    forall i | 0 <= i < |ns| ensures k[i] != '/' {
      assert k[i] == ns[i] && ns[i] in ns;
    }
  }

  lemma KeyIsInjective(ns: string, host: string, ns': string, host': string)
    requires '/' !in ns && '/' !in ns' && ns + "/" + host == ns' + "/" + host'
    ensures ns == ns' && host == host'
  {
    FirstSlash(ns, host);
    FirstSlash(ns', host');
    var k := ns + "/" + host;
    assert |ns| == |ns'|;
    assert ns == k[..|ns|] && host == k[|ns| + 1..];
    assert k == ns' + "/" + host';
    assert ns' == k[..|ns|] && host' == k[|ns| + 1..];
  }

  // What every run keeps

  /** The entry under this key is what the lookup of an earlier call gave. */
  ghost predicate Justified(copy: Copy, calls: seq<Call>, key: string, e: Entry, j: nat) {
    && j < |calls|
    && key == StoreKey(copy, calls[j])
    && e.createdAt == calls[j].now
    && Resolve(calls[j].api, calls[j].ns, HostName(calls[j].ref)) == Some(e.target)
  }

  ghost predicate AllJustified(copy: Copy, calls: seq<Call>, c: Cache) {
    forall k :: k in c.entries ==> exists j: nat :: Justified(copy, calls, k, c.entries[k], j)
  }

  /** Every entry has its own open client. */
  ghost predicate OpenClients(c: Cache) {
    && (forall k :: k in c.entries ==> c.entries[k].client < c.made && c.entries[k].client !in c.closed)
    && (forall k, l :: k in c.entries && l in c.entries && k != l ==> c.entries[k].client != c.entries[l].client)
    && (forall i :: i in c.closed ==> i < c.made)
  }

  lemma ExpireKeepsOpen(c: Cache, key: string)
    requires OpenClients(c)
    ensures OpenClients(Expire(c, key))
  {
  }

  lemma StoreKeepsOpen(c: Cache, key: string, e: Entry)
    requires OpenClients(c) && e.client == c.made
    ensures OpenClients(c.(entries := c.entries[key := e], made := c.made + 1))
  {
  }

  lemma GetKeepsOpen(c: Cache, copy: Copy, call: Call)
    requires OpenClients(c)
    ensures OpenClients(Get(c, copy, call).0)
  {
    if !Hit(c, call) {
      var c1 := Expire(c, LoadKey(call));
      ExpireKeepsOpen(c, LoadKey(call));
      match Resolve(call.api, call.ns, HostName(call.ref)) {
        case None =>
        case Some(Local) =>
        case Some(target) => StoreKeepsOpen(c1, StoreKey(copy, call), Entry(c1.made, target, call.now));
      }
    }
  }

  lemma {:induction false} RunKeepsOpen(copy: Copy, calls: seq<Call>)
    ensures OpenClients(Run(copy, calls))
  {
    if calls != [] {
      RunKeepsOpen(copy, calls[..|calls| - 1]);
      GetKeepsOpen(Run(copy, calls[..|calls| - 1]), copy, calls[|calls| - 1]);
    }
  }

  /** After a call every entry is an old one, or the one just made. */
  lemma EntryIsOldOrNew(c: Cache, copy: Copy, call: Call, key: string)
    requires key in Get(c, copy, call).0.entries
    ensures var e := Get(c, copy, call).0.entries[key];
            || (key in c.entries && e == c.entries[key])
            || (key == StoreKey(copy, call) && e.createdAt == call.now
                && Resolve(call.api, call.ns, HostName(call.ref)) == Some(e.target))
  {
  }

  lemma EntryIsJustified(copy: Copy, calls: seq<Call>, c: Cache, key: string)
    requires calls != [] && AllJustified(copy, calls[..|calls| - 1], c)
    requires key in Get(c, copy, calls[|calls| - 1]).0.entries
    ensures var t := Get(c, copy, calls[|calls| - 1]).0; exists j: nat :: Justified(copy, calls, key, t.entries[key], j)
  {
    var n := |calls| - 1;
    var e := Get(c, copy, calls[n]).0.entries[key];
    EntryIsOldOrNew(c, copy, calls[n], key);
    if key in c.entries && e == c.entries[key] {
      var j: nat :| Justified(copy, calls[..n], key, e, j);
      assert calls[..n][j] == calls[j];
      assert Justified(copy, calls, key, e, j);
    } else {
      assert Justified(copy, calls, key, e, n);
    }
  }

  lemma {:induction false} RunIsJustified(copy: Copy, calls: seq<Call>)
    ensures AllJustified(copy, calls, Run(copy, calls))
  {
    if calls != [] {
      var n := |calls| - 1;
      var t := Run(copy, calls);
      RunIsJustified(copy, calls[..n]);
      forall k | k in t.entries ensures exists j: nat :: Justified(copy, calls, k, t.entries[k], j) {
        EntryIsJustified(copy, calls, Run(copy, calls[..n]), k);
      }
    }
  }

  /** The calls come in order of time, from namespaces whose names have no slash. */
  predicate Orderly(calls: seq<Call>) {
    && (forall i :: 0 <= i < |calls| ==> '/' !in calls[i].ns)
    && (forall i, j :: 0 <= i <= j < |calls| ==> calls[i].now <= calls[j].now)
  }

  /** Call j asked for the same namespace and host at most five minutes before the last call, and the
      lookup gave this target then. */
  ghost predicate GivenRecently(calls: seq<Call>, last: nat, j: nat, target: Target)
    requires last < |calls|
  {
    && j <= last
    && calls[j].ns == calls[last].ns && HostName(calls[j].ref) == HostName(calls[last].ref)
    && 0 <= calls[last].now - calls[j].now < 300_000_000_000
    && Resolve(calls[j].api, calls[j].ns, HostName(calls[j].ref)) == Some(target)
  }

  lemma SameKeySameHost(copy: Copy, a: Call, b: Call)
    requires '/' !in a.ns && '/' !in b.ns && StoreKey(copy, a) == LoadKey(b)
    ensures a.ns == b.ns && HostName(a.ref) == HostName(b.ref)
  {
    KeyIsInjective(a.ns, if copy == Service then a.ref else HostName(a.ref), b.ns, HostName(b.ref));
  }

  /** The cache refines the lookup with bounded staleness, in both copies: a client that is returned
      reaches what an uncached lookup for the same namespace and host gave within the last five
      minutes, and it has not been closed. */
  lemma CacheRefinesLookup(copy: Copy, calls: seq<Call>)
    requires calls != [] && Orderly(calls)
    ensures var n := |calls| - 1;
            var (t, answer) := Get(Run(copy, calls[..n]), copy, calls[n]);
            match answer
            case Client(id, target) => id !in t.closed && exists j: nat :: GivenRecently(calls, n, j, target)
            case Failed => Resolve(calls[n].api, calls[n].ns, HostName(calls[n].ref)) == None
  {
    var n := |calls| - 1;
    var c := Run(copy, calls[..n]);
    RunKeepsOpen(copy, calls[..n]);
    if Hit(c, calls[n]) {
      var j := HitWasGivenRecently(copy, calls);
    } else {
      var answer := Get(c, copy, calls[n]).1;
      if answer.Client? {
        assert GivenRecently(calls, n, n, answer.target);
      }
    }
  }

  lemma HitWasGivenRecently(copy: Copy, calls: seq<Call>) returns (j: nat)
    requires calls != [] && Orderly(calls) && Hit(Run(copy, calls[..|calls| - 1]), calls[|calls| - 1])
    ensures var n := |calls| - 1;
            GivenRecently(calls, n, j, Run(copy, calls[..n]).entries[LoadKey(calls[n])].target)
  {
    var n := |calls| - 1;
    var k := LoadKey(calls[n]);
    var e := Run(copy, calls[..n]).entries[k];
    RunIsJustified(copy, calls[..n]);
    j :| Justified(copy, calls[..n], k, e, j);
    assert calls[..n][j] == calls[j];
    SameKeySameHost(copy, calls[j], calls[n]);
  }

  /** The cache is used: for five minutes after a remote client was made, a call for the same namespace and
      host gets the same client, whatever the API server says then, and changes nothing. Only the service's
      copy with an empty reference is an exception. */
  lemma CacheIsUsed(c: Cache, copy: Copy, call: Call, later: Call)
    requires !Hit(c, call) && (copy == Common || call.ref != "")
    requires var r := Resolve(call.api, call.ns, HostName(call.ref)); r.Some? && r.value != Local
    requires later.ns == call.ns && HostName(later.ref) == HostName(call.ref)
    requires later.now - call.now < 300_000_000_000
    ensures var (t, answer) := Get(c, copy, call);
            && answer == Client(c.made, Resolve(call.api, call.ns, HostName(call.ref)).value)
            && Get(t, copy, later) == (t, answer)
  {
    assert StoreKey(copy, call) == LoadKey(later);
  }

  // Clients that nobody closes

  /** The key of an empty reference: it ends in its only slash. */
  predicate Parked(key: string) {
    key != "" && key[|key| - 1] == '/' && '/' !in key[..|key| - 1]
  }

  ghost predicate HeldUnder(c: Cache, i: nat, key: string) {
    key in c.entries && c.entries[key].client == i
  }

  /** An open client in no entry, or only in one of an empty reference. */
  ghost predicate OutOfReach(c: Cache, i: nat) {
    i < c.made && i !in c.closed && forall k :: HeldUnder(c, i, k) ==> Parked(k)
  }

  ghost function Lost(c: Cache): set<nat> {
    set i | 0 <= i < c.made && OutOfReach(c, i)
  }

  /** Clients in no entry at all, and those parked under an empty reference. */
  ghost function Dropped(c: Cache): set<nat> {
    set i | 0 <= i < c.made && i !in c.closed && forall k :: !HeldUnder(c, i, k)
  }

  ghost function ParkedClients(c: Cache): set<nat> {
    set k | k in c.entries && Parked(k) :: c.entries[k].client
  }

  lemma LostIsDroppedOrParked(c: Cache)
    requires OpenClients(c)
    ensures Lost(c) == Dropped(c) + ParkedClients(c)
  {
    forall i | i in Lost(c) ensures i in Dropped(c) + ParkedClients(c) {
      if k :| HeldUnder(c, i, k) {
        assert k in c.entries && Parked(k);
      }
    }
    forall i | i in ParkedClients(c) ensures i in Lost(c) {
      var k :| k in c.entries && Parked(k) && c.entries[k].client == i;
      assert forall l :: HeldUnder(c, i, l) ==> l == k;
    }
  }

  // Out of reach means out of reach of every later call

  function RunFrom(c: Cache, copy: Copy, calls: seq<Call>): Cache {
    if calls == [] then c else Get(RunFrom(c, copy, calls[..|calls| - 1]), copy, calls[|calls| - 1]).0
  }

  /** The call closes or returns the client. */
  predicate Reaches(c: Cache, copy: Copy, call: Call, i: nat) {
    var (t, answer) := Get(c, copy, call);
    i in t.closed || (answer.Client? && answer.id == i)
  }

  /** The last of these later calls does. */
  ghost predicate ReachedBy(c: Cache, copy: Copy, calls: seq<Call>, since: int, i: nat) {
    && calls != [] && Orderly(calls) && (forall k :: 0 <= k < |calls| ==> calls[k].now >= since)
    && Reaches(RunFrom(c, copy, calls[..|calls| - 1]), copy, calls[|calls| - 1], i)
  }

  lemma LoadKeyIsNotParked(call: Call)
    requires '/' !in call.ns
    ensures !Parked(LoadKey(call))
  {
    var k := LoadKey(call);
    FirstSlash(call.ns, HostName(call.ref));
    assert k[..|k| - 1][|call.ns|] == '/';
  }

  lemma EmptyReferenceIsParked(copy: Copy, call: Call)
    requires '/' !in call.ns
    ensures Parked(StoreKey(copy, call)) <==> copy == Service && call.ref == ""
  {
    var k := StoreKey(copy, call);
    if copy == Service && call.ref == "" {
      assert k[..|k| - 1] == call.ns;
    } else {
      assert k == LoadKey(call);
      LoadKeyIsNotParked(call);
    }
  }

  lemma StaysOutOfReach(c: Cache, copy: Copy, call: Call, i: nat)
    requires OutOfReach(c, i) && '/' !in call.ns
    ensures OutOfReach(Get(c, copy, call).0, i) && !Reaches(c, copy, call, i)
  {
    LoadKeyIsNotParked(call);
    var t := Get(c, copy, call).0;
    assert LoadKey(call) in c.entries ==> c.entries[LoadKey(call)].client != i by {
      assert !HeldUnder(c, i, LoadKey(call));
    }
    forall k | HeldUnder(t, i, k) ensures Parked(k) {
      assert HeldUnder(c, i, k);
    }
  }

  lemma {:induction false} RunStaysOutOfReach(c: Cache, copy: Copy, calls: seq<Call>, i: nat)
    requires OutOfReach(c, i) && forall k :: 0 <= k < |calls| ==> '/' !in calls[k].ns
    ensures OutOfReach(RunFrom(c, copy, calls), i)
  {
    if calls != [] {
      RunStaysOutOfReach(c, copy, calls[..|calls| - 1], i);
      StaysOutOfReach(RunFrom(c, copy, calls[..|calls| - 1]), copy, calls[|calls| - 1], i);
    }
  }

  /** Every key was stored for a namespace without a slash. */
  ghost predicate KeysInOrder(c: Cache) {
    forall k :: k in c.entries ==> exists n :: 0 <= n < |k| && k[n] == '/' && '/' !in k[..n]
  }

  lemma StoreKeyInOrder(copy: Copy, call: Call)
    requires '/' !in call.ns
    ensures var k := StoreKey(copy, call); exists n :: 0 <= n < |k| && k[n] == '/' && '/' !in k[..n]
  {
    var k := StoreKey(copy, call);
    assert k[|call.ns|] == '/' && k[..|call.ns|] == call.ns;
  }

  lemma {:induction false} RunKeysInOrder(copy: Copy, calls: seq<Call>)
    requires forall k :: 0 <= k < |calls| ==> '/' !in calls[k].ns
    ensures KeysInOrder(Run(copy, calls))
  {
    if calls != [] {
      var n := |calls| - 1;
      RunKeysInOrder(copy, calls[..n]);
      StoreKeyInOrder(copy, calls[n]);
      forall k | k in Run(copy, calls).entries
        ensures exists m :: 0 <= m < |k| && k[m] == '/' && '/' !in k[..m]
      {
        EntryIsOldOrNew(Run(copy, calls[..n]), copy, calls[n], k);
      }
    }
  }

  lemma SplitKey(key: string, n: nat) returns (ns: string, ref: string)
    requires n < |key| && key[n] == '/' && '/' !in key[..n] && !Parked(key)
    ensures '/' !in ns && ref != "" && key == ns + "/" + ref
  {
    ns, ref := key[..n], key[n + 1..];
    assert n != |key| - 1;
    assert key == key[..n] + [key[n]] + key[n + 1..];
  }

  lemma ExpiredIsClosed(c: Cache, copy: Copy, call: Call)
    requires LoadKey(call) in c.entries && call.now - c.entries[LoadKey(call)].createdAt >= 300_000_000_000
    ensures c.entries[LoadKey(call)].client in Get(c, copy, call).0.closed
  {
  }

  /** A client under any other key is closed by asking for its host once it has expired. */
  lemma ClosingCall(c: Cache, copy: Copy, key: string, since: int) returns (call: Call)
    requires KeysInOrder(c) && key in c.entries && !Parked(key)
    ensures '/' !in call.ns && call.now >= since && c.entries[key].client in Get(c, copy, call).0.closed
  {
    var n :| 0 <= n < |key| && key[n] == '/' && '/' !in key[..n];
    var ns, ref := SplitKey(key, n);
    var expiry := c.entries[key].createdAt + LIFETIME;
    call := Call(Api(map[], map[], {}, false), if expiry >= since then expiry else since, ns, ref);
    assert LoadKey(call) == key;
    ExpiredIsClosed(c, copy, call);
  }

  /** Lost for good, exactly: after any run, an open client is closed or returned by some later calls if
      and only if it is not in `Lost`. */
  lemma LostExactly(copy: Copy, calls: seq<Call>, since: int, i: nat)
    requires forall k :: 0 <= k < |calls| ==> '/' !in calls[k].ns
    requires var c := Run(copy, calls); i < c.made && i !in c.closed
    ensures var c := Run(copy, calls);
            i in Lost(c) <==> forall later :: !ReachedBy(c, copy, later, since, i)
  {
    var c := Run(copy, calls);
    if i in Lost(c) {
      forall later ensures !ReachedBy(c, copy, later, since, i) {
        if later != [] && Orderly(later) {
          RunStaysOutOfReach(c, copy, later[..|later| - 1], i);
          StaysOutOfReach(RunFrom(c, copy, later[..|later| - 1]), copy, later[|later| - 1], i);
        }
      }
    } else {
      RunKeysInOrder(copy, calls);
      var k :| HeldUnder(c, i, k) && !Parked(k);
      var call := ClosingCall(c, copy, k, since);
      assert [call][..0] == [] && RunFrom(c, copy, []) == c;
      assert ReachedBy(c, copy, [call], since, i);
    }
  }

  // Which calls lose a client

  /** The call uses the local socket because no DockerHost was found. */
  predicate FallsBack(c: Cache, call: Call) {
    !Hit(c, call) && Resolve(call.api, call.ns, HostName(call.ref)) == Some(Local)
  }

  /** The service's copy makes a client for an empty reference and parks it. */
  predicate Parks(c: Cache, copy: Copy, call: Call) {
    && !Hit(c, call) && copy == Service && call.ref == ""
    && var r := Resolve(call.api, call.ns, "default"); r.Some? && r.value != Local
  }

  predicate Loses(c: Cache, copy: Copy, call: Call) {
    FallsBack(c, call) || Parks(c, copy, call)
  }

  lemma ExpireLosesNothing(c: Cache, key: string, i: nat)
    requires OpenClients(c) && !Parked(key)
    ensures OutOfReach(Expire(c, key), i) <==> OutOfReach(c, i)
  {
    var t := Expire(c, key);
    if OutOfReach(t, i) {
      forall k | HeldUnder(c, i, k) ensures Parked(k) {
        assert k != key && HeldUnder(t, i, k);
      }
    }
    if OutOfReach(c, i) {
      assert !HeldUnder(c, i, key);
      forall k | HeldUnder(t, i, k) ensures Parked(k) {
        assert HeldUnder(c, i, k);
      }
    }
  }

  /** Storing a new client under a key that is free or parked loses it exactly if the key is parked. */
  lemma StoreLoses(c: Cache, key: string, e: Entry, i: nat)
    requires OpenClients(c) && e.client == c.made && (key in c.entries ==> Parked(key))
    ensures var t := c.(entries := c.entries[key := e], made := c.made + 1);
            OutOfReach(t, i) <==> OutOfReach(c, i) || (i == c.made && Parked(key))
  {
    var t := c.(entries := c.entries[key := e], made := c.made + 1);
    assert HeldUnder(t, c.made, key);
    if OutOfReach(t, i) && i != c.made {
      forall k | HeldUnder(c, i, k) ensures Parked(k) {
        assert k != key ==> HeldUnder(t, i, k);
      }
    }
    forall k | HeldUnder(t, i, k) && k != key ensures HeldUnder(c, i, k) {
    }
  }

  lemma FallbackLoses(c: Cache, i: nat)
    requires OpenClients(c)
    ensures OutOfReach(c.(made := c.made + 1), i) <==> OutOfReach(c, i) || i == c.made
  {
    var t := c.(made := c.made + 1);
    assert forall k :: HeldUnder(t, i, k) <==> HeldUnder(c, i, k);
  }

  lemma GetLosesOne(c: Cache, copy: Copy, call: Call, i: nat)
    requires OpenClients(c) && '/' !in call.ns
    ensures OutOfReach(Get(c, copy, call).0, i) <==> OutOfReach(c, i) || (i == c.made && Loses(c, copy, call))
  {
    if !Hit(c, call) {
      var c1 := Expire(c, LoadKey(call));
      LoadKeyIsNotParked(call);
      ExpireKeepsOpen(c, LoadKey(call));
      ExpireLosesNothing(c, LoadKey(call), i);
      match Resolve(call.api, call.ns, HostName(call.ref)) {
        case None =>
        case Some(Local) => FallbackLoses(c1, i);
        case Some(target) =>
          EmptyReferenceIsParked(copy, call);
          StoreLoses(c1, StoreKey(copy, call), Entry(c1.made, target, call.now), i);
      }
    }
  }

  /** A call loses no client but its own, and that one exactly if it falls back to the local socket or
      is the service's and asks with an empty reference. */
  lemma GetLosesExactly(c: Cache, copy: Copy, call: Call)
    requires OpenClients(c) && '/' !in call.ns
    ensures Lost(Get(c, copy, call).0) == Lost(c) + (if Loses(c, copy, call) then {c.made} else {})
    ensures c.made !in Lost(c)
  {
    forall i: nat
      ensures i in Lost(Get(c, copy, call).0) <==> i in Lost(c) + (if Loses(c, copy, call) then {c.made} else {})
    {
      GetLosesOne(c, copy, call, i);
    }
  }

  function CountLosses(copy: Copy, calls: seq<Call>): nat {
    if calls == [] then 0
    else
      var n := |calls| - 1;
      CountLosses(copy, calls[..n]) + (if Loses(Run(copy, calls[..n]), copy, calls[n]) then 1 else 0)
  }

  /** Over every run, as many clients are lost for good as calls fell back or parked one. */
  lemma {:induction false} RunLosesExactly(copy: Copy, calls: seq<Call>)
    requires forall k :: 0 <= k < |calls| ==> '/' !in calls[k].ns
    ensures |Lost(Run(copy, calls))| == CountLosses(copy, calls)
  {
    if calls != [] {
      var n := |calls| - 1;
      RunLosesExactly(copy, calls[..n]);
      RunKeepsOpen(copy, calls[..n]);
      GetLosesExactly(Run(copy, calls[..n]), copy, calls[n]);
    } else {
      assert Lost(EMPTY) == {};
    }
  }

  /** Some call of the run uses the local socket. */
  ghost predicate EverFallsBack(copy: Copy, calls: seq<Call>) {
    exists i :: 0 <= i < |calls| && FallsBackAt(copy, calls, i)
  }

  predicate FallsBackAt(copy: Copy, calls: seq<Call>, i: nat)
    requires i < |calls|
  {
    FallsBack(Run(copy, calls[..i]), calls[i])
  }

  /** The DockerContainer and DockerJob copies lose a client in a run exactly if some call fell back to
      the local socket. */
  lemma {:induction false} CommonLosesExactly(calls: seq<Call>)
    requires forall k :: 0 <= k < |calls| ==> '/' !in calls[k].ns
    ensures Lost(Run(Common, calls)) != {} <==> EverFallsBack(Common, calls)
  {
    if calls == [] {
      assert Lost(EMPTY) == {};
    } else {
      var n := |calls| - 1;
      CommonLosesExactly(calls[..n]);
      RunKeepsOpen(Common, calls[..n]);
      GetLosesExactly(Run(Common, calls[..n]), Common, calls[n]);
      LastOrEarlier(calls);
    }
  }

  lemma LastOrEarlier(calls: seq<Call>)
    requires calls != []
    ensures EverFallsBack(Common, calls)
            <==> EverFallsBack(Common, calls[..|calls| - 1]) || FallsBackAt(Common, calls, |calls| - 1)
  {
    var n := |calls| - 1;
    forall i | 0 <= i < n ensures FallsBackAt(Common, calls, i) <==> FallsBackAt(Common, calls[..n], i) {
      assert calls[..n][..i] == calls[..i];
    }
    if EverFallsBack(Common, calls[..n]) {
      var i :| 0 <= i < n && FallsBackAt(Common, calls[..n], i);
      assert FallsBackAt(Common, calls, i);
    }
  }

  /** The service's copy loses every client it makes for an empty reference: after n such calls for a
      usable "default" host, at any times, all n clients are lost. */
  lemma {:induction false} ServiceLosesAll(api: Api, ns: string, times: seq<int>)
    requires '/' !in ns
    requires var r := Resolve(api, ns, "default"); r.Some? && r.value != Local
    ensures var c := Run(Service, EmptyCalls(api, ns, times));
            && c.made == |times| && c.closed == {} && c.entries.Keys <= {ns + "/"}
            && |Lost(c)| == |times|
  {
    if times == [] {
      assert Lost(EMPTY) == {};
    } else {
      var n := |times| - 1;
      var calls := EmptyCalls(api, ns, times);
      ServiceLosesAll(api, ns, times[..n]);
      assert calls[..n] == EmptyCalls(api, ns, times[..n]);
      var c := Run(Service, calls[..n]);
      RunKeepsOpen(Service, calls[..n]);
      assert StoreKey(Service, calls[n]) == ns + "/";
      assert LoadKey(calls[n]) !in c.entries by {
        assert |LoadKey(calls[n])| != |ns + "/"|;
      }
      GetLosesExactly(c, Service, calls[n]);
    }
  }

  function EmptyCalls(api: Api, ns: string, times: seq<int>): seq<Call> {
    seq(|times|, i requires 0 <= i < |times| => Call(api, times[i], ns, ""))
  }

  // The code

  class ClientStore {
    const copy: Copy
    var entries: map<string, Entry>
    var made: nat
    var closed: set<nat>

    constructor (copy: Copy)
      ensures this.copy == copy && Value() == EMPTY
    {
      this.copy := copy;
      entries, made, closed := map[], 0, {};
    }

    ghost function Value(): Cache
      reads this
    {
      Cache(entries, made, closed)
    }

    method GetDockerClient(call: Call) returns (answer: Answer)
      modifies this
      ensures (Value(), answer) == Get(old(Value()), copy, call)
    {
      var hostName := call.ref;
      if hostName == "" {
        hostName := "default";
      }
      var key := call.ns + "/" + hostName;
      if key in entries {
        var cached := entries[key];
        if call.now - cached.createdAt < LIFETIME {
          return Client(cached.client, cached.target);
        }
        closed := closed + {cached.client};
        entries := entries - {key};
      }
      var host: HostObject;
      if Found(call.api, (call.ns, hostName)) {
        host := call.api.hosts[(call.ns, hostName)];
      } else if !NotFound(call.api, (call.ns, hostName)) {
        return Failed;
      } else if call.ns != "system" && Found(call.api, ("system", hostName)) {
        host := call.api.hosts[("system", hostName)];
      } else if hostName == "default" && call.api.localOk {
        answer := Client(made, Local);
        made := made + 1;
        return;
      } else {
        return Failed;
      }
      var tls := None;
      if host.tlsSecret != "" {
        var secretKey := (call.ns, host.tlsSecret);
        if secretKey !in call.api.secrets || secretKey in call.api.down {
          return Failed;
        }
        tls := Some(call.api.secrets[secretKey]);
      }
      if !host.usable {
        return Failed;
      }
      var target := Remote(host.url, tls);
      answer := Client(made, target);
      entries := entries[(if copy == Service then call.ns + "/" + call.ref else key) := Entry(made, target, call.now)];
      made := made + 1;
    }
  }
}
