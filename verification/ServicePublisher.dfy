/** The publishing half of the DockerService reconciler: gather the targets, sort and join them, write
    the ConfigMap and, when that changed it, push the list to the running tunnel server pods. */
module ServicePublisher {
  import opened Wrappers
  import opened GoStrings
  import opened TargetList
  import P = PushProtocol

  datatype Pod = Pod(ip: string, running: bool)

  predicate Reachable(pod: Pod) {
    pod.running && pod.ip != ""
  }

  /** The requests of one reload: one per reachable pod, in order. */
  function Requests(pods: seq<Pod>, csv: string): seq<(string, string)> {
    if pods == [] then []
    else
      var n := |pods| - 1;
      Requests(pods[..n], csv) + (if Reachable(pods[n]) then [(pods[n].ip, csv)] else [])
  }

  lemma {:induction false} RequestsConcat(a: seq<Pod>, b: seq<Pod>, csv: string)
    ensures Requests(a + b, csv) == Requests(a, csv) + Requests(b, csv)
  {
    if b == [] {
      assert a + b == a;
    } else {
      var n := |b| - 1;
      RequestsConcat(a, b[..n], csv);
      assert (a + b)[..|a + b| - 1] == a + b[..n] && (a + b)[|a + b| - 1] == b[n];
    }
  }

  /** Exactly one request per running pod with an address, in order, with the list. */
  lemma RequestsExactly(a: seq<Pod>, pod: Pod, b: seq<Pod>, csv: string)
    ensures Requests([], csv) == []
    ensures Requests([pod], csv) == if pod.running && pod.ip != "" then [(pod.ip, csv)] else []
    ensures Requests(a + [pod] + b, csv) == Requests(a, csv) + Requests([pod], csv) + Requests(b, csv)
  {
    assert [pod][..0] == [];
    RequestsConcat(a + [pod], b, csv);
    RequestsConcat(a, [pod], csv);
  }

  lemma {:induction false} RequestsGoTo(pods: seq<Pod>, csv: string)
    ensures forall r :: r in Requests(pods, csv) <==>
                        r.1 == csv && exists p :: p in pods && p.running && p.ip == r.0 != ""
  {
    if pods != [] {
      var n := |pods| - 1;
      RequestsGoTo(pods[..n], csv);
      assert pods == pods[..n] + [pods[n]];
    }
  }

  class Publisher {
    var configMap: Option<string>
    var requests: seq<(string, string)>   // (pod address, list)

    /** The result is false for a failed write and for the panic of a service without ports. `touched`
        says that other fields of the stored ConfigMap differ from what the reconciler wants. */
    method Reconcile(ips: seq<string>, ports: seq<int>, pods: seq<Pod>, touched: bool, writeOk: bool)
      returns (ok: bool)
      modifies this
      ensures ok <==> writeOk && !(ports == [] && exists ip :: ip in ips && ip != "")
      ensures !ok ==> configMap == old(configMap) && requests == old(requests)
      ensures ok ==>
                var csv := Csv(if ports == [] then [] else Endpoints(ips, ports[0]));
                && configMap == Some(csv) && old(requests) <= requests
                && var sent := requests[|old(requests)|..];
                   if old(configMap).Some? && (old(configMap).value != csv || touched)
                   then sent == Requests(pods, csv)
                        && forall ip :: (ip, csv) in sent <==> exists p :: p in pods && p.running && p.ip == ip != ""
                   else sent == []
    {
      var targetIPs := GatherTargets(ips, ports);
      if targetIPs.None? || !writeOk {
        return false;
      }
      var targetsCSV := Join(Sort(targetIPs.value), ',');
      var updated := configMap.Some? && (configMap.value != targetsCSV || touched);
      configMap := Some(targetsCSV);
      if updated {
        TriggerReload(pods, targetsCSV);
        RequestsGoTo(pods, targetsCSV);
      }
      return true;
    }

    /** `triggerTunnelReload` */
    method TriggerReload(pods: seq<Pod>, csv: string)
      modifies this`requests
      ensures requests == old(requests) + Requests(pods, csv)
    {
      for i := 0 to |pods|
        invariant requests == old(requests) + Requests(pods[..i], csv)
      {
        assert pods[..i + 1][..i] == pods[..i];
        if pods[i].running && pods[i].ip != "" {
          requests := requests + [(pods[i].ip, csv)];
        }
      }
      assert pods[..|pods|] == pods;
    }
  }

  /** A reconcile puts a list on its way exactly when the step of the protocol does. */
  lemma PublishIsProtocolStep(s: P.System, targetIPs: seq<string>, pods: seq<Pod>, touched: bool)
    ensures var csv := Csv(targetIPs);
            var updated := s.configMap.Some? && (s.configMap.value != csv || touched);
            var requests := if updated then Requests(pods, csv) else [];
            var t := P.Apply(s, P.Reconcile(targetIPs, exists p :: p in pods && Reachable(p), touched));
            && t.configMap == Some(csv)
            && t.sent == s.sent + (set r | r in requests :: r.1)
  {
    var csv := Csv(targetIPs);
    RequestsGoTo(pods, csv);
    if p :| p in pods && Reachable(p) {
      assert (p.ip, csv) in Requests(pods, csv);
    }
  }
}
