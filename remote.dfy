/**
 * The remote account and zone the worker drives, as in-memory collections:
 * the account's non-deleted tunnels, the ingress configuration of each
 * tunnel, the zone's DNS records, and the tunnels whose deletion the remote
 * refuses (a connector still attached). Each call of the remote API is an
 * operation on this state.
 */
module Remote {
  import opened Wrappers

  datatype CfTunnel = CfTunnel(id: string, name: string)

  /** One ingress rule: a hostname and path matched, or neither (the catch-all). */
  datatype IngressRule = IngressRule(hostname: Option<string>, path: Option<string>, service: string)

  datatype DnsRecord = DnsRecord(id: string, name: string, content: string)

  datatype Account = Account(
    tunnels: seq<CfTunnel>,
    ingress: map<string, seq<IngressRule>>,
    dns: seq<DnsRecord>,
    undeletable: set<string>)

  predicate HasTunnel(a: Account, id: string)
  {
    exists t :: t in a.tunnels && t.id == id
  }

  predicate HasRecord(a: Account, rid: string)
  {
    exists r :: r in a.dns && r.id == rid
  }

  /** The tunnels other than the one with the given id, in order. */
  function WithoutTunnel(ts: seq<CfTunnel>, id: string): (r: seq<CfTunnel>)
    ensures forall t :: t in r <==> t in ts && t.id != id
  {
    if ts == [] then []
    else
      var rest := WithoutTunnel(ts[1..], id);
      assert forall t :: t in ts <==> t == ts[0] || t in ts[1..];
      if ts[0].id == id then rest else [ts[0]] + rest
  }

  /** The DNS records other than the one with the given id, in order. */
  function WithoutRecord(rs: seq<DnsRecord>, rid: string): (r: seq<DnsRecord>)
    ensures forall d :: d in r <==> d in rs && d.id != rid
  {
    if rs == [] then []
    else
      var rest := WithoutRecord(rs[1..], rid);
      assert forall d :: d in rs <==> d == rs[0] || d in rs[1..];
      if rs[0].id == rid then rest else [rs[0]] + rest
  }

  function PostTunnelSpec(a: Account, name: string, id: string): Account
  {
    a.(tunnels := a.tunnels + [CfTunnel(id, name)])
  }

  function PutConfigurationSpec(a: Account, id: string, rules: seq<IngressRule>): Account
  {
    a.(ingress := a.ingress[id := rules])
  }

  function PostDnsSpec(a: Account, r: DnsRecord): Account
  {
    a.(dns := a.dns + [r])
  }

  /**
   * Deleting a tunnel: refused (the API raises) for a tunnel that is
   * undeletable or not there; otherwise it leaves the account's list.
   */
  function DeleteTunnelSpec(a: Account, id: string): (bool, Account)
  {
    if id in a.undeletable || !HasTunnel(a, id) then (false, a)
    else (true, a.(tunnels := WithoutTunnel(a.tunnels, id)))
  }

  /** Deleting a DNS record: refused for a record that is not there. */
  function DeleteDnsSpec(a: Account, rid: string): (bool, Account)
  {
    if !HasRecord(a, rid) then (false, a)
    else (true, a.(dns := WithoutRecord(a.dns, rid)))
  }

  /** The remote account and zone, changed in place by the API calls. */
  class Cloud {
    var tunnels: seq<CfTunnel>
    var ingress: map<string, seq<IngressRule>>
    var dns: seq<DnsRecord>
    var undeletable: set<string>

    function Contents(): Account
      reads this
    {
      Account(tunnels, ingress, dns, undeletable)
    }

    constructor(a: Account)
      ensures Contents() == a
    {
      tunnels, ingress, dns, undeletable := a.tunnels, a.ingress, a.dns, a.undeletable;
    }

    /** Listing the account's non-deleted tunnels. */
    method ListTunnels() returns (ts: seq<CfTunnel>)
      ensures ts == tunnels
    {
      ts := tunnels;
    }

    /** Creating a tunnel; the remote's new id is passed in. */
    method PostTunnel(name: string, freshId: string) returns (id: string)
      modifies this
      ensures id == freshId
      ensures Contents() == PostTunnelSpec(old(Contents()), name, freshId)
    {
      tunnels := tunnels + [CfTunnel(freshId, name)];
      id := freshId;
    }

    method PutConfiguration(id: string, rules: seq<IngressRule>)
      modifies this
      ensures Contents() == PutConfigurationSpec(old(Contents()), id, rules)
    {
      ingress := ingress[id := rules];
    }

    /** Listing the zone's DNS records. */
    method ListDns() returns (rs: seq<DnsRecord>)
      ensures rs == dns
    {
      rs := dns;
    }

    method PostDns(r: DnsRecord)
      modifies this
      ensures Contents() == PostDnsSpec(old(Contents()), r)
    {
      dns := dns + [r];
    }

    /** Deleting a tunnel; false where the API raises. */
    method DeleteTunnel(id: string) returns (ok: bool)
      modifies this
      ensures (ok, Contents()) == DeleteTunnelSpec(old(Contents()), id)
    {
      ok := id !in undeletable && exists t :: t in tunnels && t.id == id;
      if ok {
        tunnels := WithoutTunnel(tunnels, id);
      }
    }

    /** Deleting a DNS record; false where the API raises. */
    method DeleteDns(rid: string) returns (ok: bool)
      modifies this
      ensures (ok, Contents()) == DeleteDnsSpec(old(Contents()), rid)
    {
      ok := exists r :: r in dns && r.id == rid;
      if ok {
        dns := WithoutRecord(dns, rid);
      }
    }
  }
}
