/**
 * One pass of the reconciliation worker of connect/worker.py over the tunnel
 * records and the remote account: admission by the number of managed
 * tunnels, rejection or provisioning of every record without a hostname,
 * collection of the tunnel ids still in use, the map from tunnel ids to
 * their CNAME records, and deletion of unused tunnels with their records.
 *
 * Each part is a function from the state before to the state after (and,
 * where the source can raise, the exception that stops the pass), and an
 * imperative method over the store and the remote account is proved to
 * compute it.
 */
module Worker {
  import opened Wrappers
  import opened Text
  import opened KvStore
  import opened Tunnels
  import opened Remote

  const Domain: string := "oneconnect.hair"
  const TunnelPath: string := "graphql"
  const CnameSuffix: string := ".cfargotunnel.com"
  const RejectReason: string := "No free tunnels available."
  const ProxyService: string := "http://ssv2ray"
  const FallbackService: string := "http_status:404"

  /** The default of the MAX_CF_TUNNELS setting. */
  const DefaultMaxTunnels: int := 500

  /** The exceptions that end a pass (and the worker). */
  datatype Crash =
    | ExpiredKey(key: string)          // `json.loads(None)` for a key gone since the scan
    | NullCreds(key: string)           // `.get` on a null `cfd_creds`
    | MissingDnsMapping(tunnelId: string)  // `KeyError` in the DNS map
    | DnsDeleteFailed(recordId: string)    // the remote refuses a DNS delete

  /** What the remote and `os.urandom` supply for one new tunnel. */
  datatype Fresh = Fresh(tunnelId: string, secret: string, dnsRecordId: string)

  /** The tunnel records and the remote account together. */
  datatype World = World(store: Keyspace<TunnelRecord>, account: Account)

  /** The state a pass reached and the exception that stopped it, if any. */
  datatype Outcome<S> = Outcome(state: S, crash: Option<Crash>)

  /** How a pass ended: with the pause before the next one, or with an exception. */
  datatype Report = Completed(sleepSeconds: int) | Crashed(reason: Crash)

  // ------------------------------------------------------------ admission

  /** The tunnels whose names carry the manager's prefix, in order. */
  function Managed(ts: seq<CfTunnel>): (r: seq<CfTunnel>)
    ensures |r| <= |ts|
    ensures forall t :: t in r <==> t in ts && StartsWith(t.name, NamePrefix)
  {
    if ts == [] then []
    else
      var init, t := ts[..|ts| - 1], ts[|ts| - 1];
      assert ts == init + [t];
      var rest := Managed(init);
      if StartsWith(t.name, NamePrefix) then rest + [t] else rest
  }

  /** The filter keeps order: filtering a concatenation filters each part. */
  lemma {:induction false} ManagedAppend(a: seq<CfTunnel>, b: seq<CfTunnel>)
    ensures Managed(a + b) == Managed(a) + Managed(b)
    decreases |b|
  {
    if b == [] {
      assert a + b == a;
    } else {
      var init, t := b[..|b| - 1], b[|b| - 1];
      assert (a + b)[..|a + b| - 1] == a + init;
      ManagedAppend(a, init);
      if StartsWith(t.name, NamePrefix) {
        assert Managed(a) + (Managed(init) + [t]) == (Managed(a) + Managed(init)) + [t];
      }
    }
  }

  /** A single tunnel is kept exactly when its name has the prefix. */
  lemma ManagedSingle(t: CfTunnel)
    ensures Managed([t]) == if StartsWith(t.name, NamePrefix) then [t] else []
  {
    assert [t][..0] == [];
  }

  /** Whether the pass rejects new connectors: the managed tunnels reached the maximum. */
  predicate Rejects(ts: seq<CfTunnel>, maxTunnels: int)
  {
    |Managed(ts)| >= maxTunnels
  }

  // ---------------------------------------------------------- provisioning

  /** The text of a scanned key after its first ':'. */
  function ConnectorId(key: string): (cid: string)
    requires StartsWith(key, KeyPrefix)
    ensures TunnelKey(cid) == key
  {
    assert key == TunnelKey(key[|KeyPrefix|..]);
    ConnectorIdOfKey(key[|KeyPrefix|..]);
    SplitOnce(key, ':').value.1
  }

  /** The ingress configuration of a new tunnel: its hostname and path, then a 404 for the rest. */
  function IngressRules(hostname: string): seq<IngressRule>
  {
    [IngressRule(Some(hostname), Some(TunnelPath), ProxyService), IngressRule(None, None, FallbackService)]
  }

  /** The record a connector gets when the pass rejects it. */
  const RejectedRecord: TunnelRecord := Written(Some(Rejected), None, None, None, Some(RejectReason))

  /** `create_tunnel(connector_id, ...)`. */
  function CreateTunnelSpec(w: World, ttl: int, accountId: string, cid: string, f: Fresh): World
  {
    var (name, s1) := UidSpec(w.store);
    var hostname := name + "." + Domain;
    var a1 := PostTunnelSpec(w.account, name, f.tunnelId);
    var a2 := PutConfigurationSpec(a1, f.tunnelId, IngressRules(hostname));
    var a3 := PostDnsSpec(a2, DnsRecord(f.dnsRecordId, hostname, f.tunnelId + CnameSuffix));
    var creds := Creds(accountId, f.tunnelId, f.secret);
    var r := Written(Some(Ready), Some(hostname), Some(TunnelPath), Some(creds), None);
    World(WriteTunnelSpec(s1, ttl, cid, r), a3)
  }

  /** The provisioning loop's body for one scanned key. */
  function ProvisionStep(w: World, ttl: int, accountId: string, reject: bool, key: string, f: Fresh): Outcome<World>
    requires StartsWith(key, KeyPrefix)
  {
    if key !in w.store.values then Outcome(w, Some(ExpiredKey(key)))
    else if w.store.values[key].hostname.Some? then Outcome(w, None)
    else if reject then
      Outcome(w.(store := WriteTunnelSpec(w.store, ttl, ConnectorId(key), RejectedRecord)), None)
    else Outcome(CreateTunnelSpec(w, ttl, accountId, ConnectorId(key), f), None)
  }

  predicate ScanKeys(keys: seq<string>)
  {
    forall i :: 0 <= i < |keys| ==> StartsWith(keys[i], KeyPrefix)
  }

  /** The provisioning loop over the keys of one scan; the i-th key gets supply[i] if it needs a tunnel. */
  function ProvisionPassSpec(w: World, ttl: int, accountId: string, reject: bool,
                             keys: seq<string>, supply: seq<Fresh>): Outcome<World>
    requires ScanKeys(keys) && |supply| == |keys|
    decreases |keys|
  {
    if keys == [] then Outcome(w, None)
    else
      var o := ProvisionStep(w, ttl, accountId, reject, keys[0], supply[0]);
      if o.crash.Some? then o
      else ProvisionPassSpec(o.state, ttl, accountId, reject, keys[1..], supply[1..])
  }

  // ------------------------------------------------------------ active ids

  /**
   * The active-id loop as written: a scanned key gone from the store raises,
   * and so does a record whose `cfd_creds` is null; a non-empty TunnelID is
   * collected.
   */
  function ActiveIdsAsWritten(values: map<string, TunnelRecord>, keys: seq<string>): Result<seq<string>, Crash>
    requires ScanKeys(keys)
    decreases |keys|
  {
    if keys == [] then Ok([])
    else
      var key := TunnelKey(ConnectorId(keys[0]));
      if key !in values then Err(ExpiredKey(key))
      else if values[key].cfdCreds.None? then Err(NullCreds(key))
      else
        var id := values[key].cfdCreds.value.tunnelId;
        var rest := ActiveIdsAsWritten(values, keys[1..]);
        if rest.Err? then rest
        else Ok((if id != "" then [id] else []) + rest.value)
  }

  /** The active-id loop with a null `cfd_creds` read as no credentials. */
  function ActiveIds(values: map<string, TunnelRecord>, keys: seq<string>): Result<seq<string>, Crash>
    requires ScanKeys(keys)
    decreases |keys|
  {
    if keys == [] then Ok([])
    else
      var key := TunnelKey(ConnectorId(keys[0]));
      if key !in values then Err(ExpiredKey(key))
      else
        var creds := values[key].cfdCreds;
        var id := if creds.Some? then creds.value.tunnelId else "";
        var rest := ActiveIds(values, keys[1..]);
        if rest.Err? then rest
        else Ok((if id != "" then [id] else []) + rest.value)
  }

  // --------------------------------------------------------------- DNS map

  predicate IsTunnelCname(r: DnsRecord)
  {
    EndsWith(r.content, CnameSuffix)
  }

  /** The tunnel id of a CNAME target: the content without the suffix. */
  function TunnelIdOf(content: string): string
    requires EndsWith(content, CnameSuffix)
  {
    content[..|content| - |CnameSuffix|]
  }

  /** The map from tunnel ids to DNS record ids; a later record overrides an earlier one. */
  function DnsMap(rs: seq<DnsRecord>): map<string, string>
  {
    if rs == [] then map[]
    else
      var m, r := DnsMap(rs[..|rs| - 1]), rs[|rs| - 1];
      if IsTunnelCname(r) then m[TunnelIdOf(r.content) := r.id] else m
  }

  // ---------------------------------------------------------------- delete

  /** The deletion loop's body for one tunnel of the list fetched at the start. */
  function DeleteStep(a: Account, dnsMap: map<string, string>, active: seq<string>, t: CfTunnel): Outcome<Account>
  {
    if t.id in active then Outcome(a, None)
    else
      var (deleted, a1) := DeleteTunnelSpec(a, t.id);
      if !deleted then Outcome(a, None)
      else if t.id !in dnsMap then Outcome(a1, Some(MissingDnsMapping(t.id)))
      else
        var (removed, a2) := DeleteDnsSpec(a1, dnsMap[t.id]);
        if !removed then Outcome(a1, Some(DnsDeleteFailed(dnsMap[t.id])))
        else Outcome(a2, None)
  }

  function DeletePassSpec(a: Account, dnsMap: map<string, string>, active: seq<string>, ts: seq<CfTunnel>): Outcome<Account>
    decreases |ts|
  {
    if ts == [] then Outcome(a, None)
    else
      var o := DeleteStep(a, dnsMap, active, ts[0]);
      if o.crash.Some? then o else DeletePassSpec(o.state, dnsMap, active, ts[1..])
  }

  // ------------------------------------------------------------- iteration

  /** The rest of a pass once provisioning is done: the active ids, then the deletion loop. */
  function FinishPass(w: World, ts: seq<CfTunnel>, reject: bool, active: Result<seq<string>, Crash>): (World, Report)
  {
    match active
    case Err(e) => (w, Crashed(e))
    case Ok(ids) =>
      var d := DeletePassSpec(w.account, DnsMap(w.account.dns), ids, ts);
      var w' := w.(account := d.state);
      if d.crash.Some? then (w', Crashed(d.crash.value))
      else (w', Completed(if reject then 5 else 1))
  }

  /** One pass of the main loop (lines 112-191), as written. */
  function IterationSpec(w: World, ttl: int, accountId: string, maxTunnels: int,
                         scan1: seq<string>, scan2: seq<string>, supply: seq<Fresh>): (World, Report)
    requires ScanKeys(scan1) && ScanKeys(scan2) && |supply| == |scan1|
  {
    var ts := Managed(w.account.tunnels);
    var reject := |ts| >= maxTunnels;
    var p := ProvisionPassSpec(w, ttl, accountId, reject, scan1, supply);
    if p.crash.Some? then (p.state, Crashed(p.crash.value))
    else FinishPass(p.state, ts, reject, ActiveIdsAsWritten(p.state.store.values, scan2))
  }

  /** The same pass with the active-id loop corrected as `ActiveIds` describes. */
  function CorrectedIterationSpec(w: World, ttl: int, accountId: string, maxTunnels: int,
                                  scan1: seq<string>, scan2: seq<string>, supply: seq<Fresh>): (World, Report)
    requires ScanKeys(scan1) && ScanKeys(scan2) && |supply| == |scan1|
  {
    var ts := Managed(w.account.tunnels);
    var reject := |ts| >= maxTunnels;
    var p := ProvisionPassSpec(w, ttl, accountId, reject, scan1, supply);
    if p.crash.Some? then (p.state, Crashed(p.crash.value))
    else FinishPass(p.state, ts, reject, ActiveIds(p.state.store.values, scan2))
  }

  // ------------------------------------------------- create_tunnel lemmas

  /**
   * `create_tunnel` allocates one name, creates one remote tunnel with one
   * ingress configuration and one CNAME, and commits a ready record with
   * the hostname, the path and the new tunnel's credentials.
   */
  lemma CreateTunnelEffect(w: World, ttl: int, accountId: string, cid: string, f: Fresh)
    ensures var w' := CreateTunnelSpec(w, ttl, accountId, cid, f);
      var name := NamePrefix + IntStr(CounterValue(w.store, UidCounter) + 1);
      var hostname := name + ".oneconnect.hair";
      w'.store.values == w.store.values[TunnelKey(cid) :=
        TunnelRecord(Some(Ready), Some(hostname), Some("graphql"), Some(Creds(accountId, f.tunnelId, f.secret)), None)] &&
      w'.store.expiry == w.store.expiry[TunnelKey(cid) := Some(ttl)] &&
      w'.store.counters == w.store.counters[UidCounter := CounterValue(w.store, UidCounter) + 1] &&
      w'.account.tunnels == w.account.tunnels + [CfTunnel(f.tunnelId, name)] &&
      w'.account.ingress == w.account.ingress[f.tunnelId := IngressRules(hostname)] &&
      w'.account.dns == w.account.dns + [DnsRecord(f.dnsRecordId, hostname, f.tunnelId + ".cfargotunnel.com")] &&
      w'.account.undeletable == w.account.undeletable
  {
    var name := UidSpec(w.store).0;
    var hostname := name + "." + Domain;
    assert "." + Domain == ".oneconnect.hair";
    assert hostname == name + ("." + Domain);
    var w' := CreateTunnelSpec(w, ttl, accountId, cid, f);
    var r := Written(Some(Ready), Some(hostname), Some(TunnelPath), Some(Creds(accountId, f.tunnelId, f.secret)), None);
    assert w'.store == WriteTunnelSpec(IncrSpec(w.store, UidCounter), ttl, cid, r);
    assert w'.account == PostDnsSpec(PutConfigurationSpec(PostTunnelSpec(w.account, name, f.tunnelId), f.tunnelId, IngressRules(hostname)),
                                     DnsRecord(f.dnsRecordId, hostname, f.tunnelId + CnameSuffix));
    CreatedRecord(w.store, ttl, accountId, cid, f, hostname);
    CreatedRemote(w.account, name, hostname, f);
  }

  lemma CreatedRecord(s: Keyspace<TunnelRecord>, ttl: int, accountId: string, cid: string, f: Fresh, hostname: string)
    ensures var r := Written(Some(Ready), Some(hostname), Some(TunnelPath), Some(Creds(accountId, f.tunnelId, f.secret)), None);
      var t := WriteTunnelSpec(IncrSpec(s, UidCounter), ttl, cid, r);
      t.values == s.values[TunnelKey(cid) :=
        TunnelRecord(Some(Ready), Some(hostname), Some("graphql"), Some(Creds(accountId, f.tunnelId, f.secret)), None)] &&
      t.expiry == s.expiry[TunnelKey(cid) := Some(ttl)] &&
      t.counters == s.counters[UidCounter := CounterValue(s, UidCounter) + 1]
  {
  }

  lemma CreatedRemote(a: Account, name: string, hostname: string, f: Fresh)
    ensures var a3 := PostDnsSpec(PutConfigurationSpec(PostTunnelSpec(a, name, f.tunnelId), f.tunnelId, IngressRules(hostname)),
                                  DnsRecord(f.dnsRecordId, hostname, f.tunnelId + CnameSuffix));
      a3.tunnels == a.tunnels + [CfTunnel(f.tunnelId, name)] &&
      a3.ingress == a.ingress[f.tunnelId := IngressRules(hostname)] &&
      a3.dns == a.dns + [DnsRecord(f.dnsRecordId, hostname, f.tunnelId + ".cfargotunnel.com")] &&
      a3.undeletable == a.undeletable
  {
  }

  // ------------------------------------------------------- DNS map lemmas

  /** Stripping the suffix from a CNAME target written by `create_tunnel` gives the tunnel id back. */
  lemma CnameRoundTrip(id: string)
    ensures EndsWith(id + CnameSuffix, CnameSuffix) && TunnelIdOf(id + CnameSuffix) == id
  {
    var c := id + CnameSuffix;
    assert c[|c| - |CnameSuffix|..] == CnameSuffix;
    assert c[..|c| - |CnameSuffix|] == id;
  }

  /** A tunnel id is mapped exactly when some record's CNAME target names it. */
  lemma {:induction false} DnsMapKeys(rs: seq<DnsRecord>, id: string)
    ensures id in DnsMap(rs) <==>
      exists i :: 0 <= i < |rs| && IsTunnelCname(rs[i]) && TunnelIdOf(rs[i].content) == id
  {
    if rs != [] {
      var init := rs[..|rs| - 1];
      DnsMapKeys(init, id);
      if id in DnsMap(init) {
        var i :| 0 <= i < |init| && IsTunnelCname(init[i]) && TunnelIdOf(init[i].content) == id;
        assert rs[i] == init[i];
      }
      if exists i :: 0 <= i < |rs| && IsTunnelCname(rs[i]) && TunnelIdOf(rs[i].content) == id {
        var i :| 0 <= i < |rs| && IsTunnelCname(rs[i]) && TunnelIdOf(rs[i].content) == id;
        if i < |init| {
          assert init[i] == rs[i];
        }
      }
    }
  }

  /** On duplicates the last record naming a tunnel wins. */
  lemma {:induction false} DnsMapLastWins(rs: seq<DnsRecord>, i: nat)
    requires i < |rs| && IsTunnelCname(rs[i])
    requires forall j :: i < j < |rs| && IsTunnelCname(rs[j]) ==>
      TunnelIdOf(rs[j].content) != TunnelIdOf(rs[i].content)
    ensures TunnelIdOf(rs[i].content) in DnsMap(rs)
    ensures DnsMap(rs)[TunnelIdOf(rs[i].content)] == rs[i].id
  {
    var init := rs[..|rs| - 1];
    if i < |rs| - 1 {
      assert init[i] == rs[i];
      forall j | i < j < |init| && IsTunnelCname(init[j])
        ensures TunnelIdOf(init[j].content) != TunnelIdOf(init[i].content)
      {
        assert init[j] == rs[j];
      }
      DnsMapLastWins(init, i);
    }
  }

  /** After `create_tunnel` the DNS map sends the new tunnel to its new CNAME record. */
  lemma CreatedTunnelMapped(w: World, ttl: int, accountId: string, cid: string, f: Fresh)
    ensures var rs := CreateTunnelSpec(w, ttl, accountId, cid, f).account.dns;
      f.tunnelId in DnsMap(rs) && DnsMap(rs)[f.tunnelId] == f.dnsRecordId
  {
    CnameRoundTrip(f.tunnelId);
  }

  // -------------------------------------------------- provisioning lemmas

  /** The loop body changes at most the record of the key it scanned. */
  lemma StepFrame(w: World, ttl: int, accountId: string, reject: bool, key: string, f: Fresh, other: string)
    requires StartsWith(key, KeyPrefix) && other != key
    ensures var v := ProvisionStep(w, ttl, accountId, reject, key, f).state.store.values;
      (other in v <==> other in w.store.values) &&
      (other in w.store.values ==> v[other] == w.store.values[other])
  {
  }

  /**
   * The loop body on one key: a missing key raises, a record with a hostname
   * is skipped, and a record without one is rejected (leaving the remote
   * account alone) or provisioned with a ready record.
   */
  lemma StepEffect(w: World, ttl: int, accountId: string, reject: bool, key: string, f: Fresh)
    requires StartsWith(key, KeyPrefix)
    ensures var o := ProvisionStep(w, ttl, accountId, reject, key, f);
      (key !in w.store.values ==> o == Outcome(w, Some(ExpiredKey(key)))) &&
      (key in w.store.values && w.store.values[key].hostname.Some? ==> o == Outcome(w, None)) &&
      (key in w.store.values && w.store.values[key].hostname.None? && reject ==>
        o.crash.None? && o.state.account == w.account &&
        key in o.state.store.values && o.state.store.values[key] == RejectedRecord) &&
      (key in w.store.values && w.store.values[key].hostname.None? && !reject ==>
        o.crash.None? && key in o.state.store.values &&
        o.state.store.values[key].status == Some(Ready) && o.state.store.values[key].hostname.Some?)
  {
  }

  /** The provisioning loop raises exactly when one of the scanned keys has gone from the store. */
  lemma {:induction false} PassCompletesIff(w: World, ttl: int, accountId: string, reject: bool,
                                            keys: seq<string>, supply: seq<Fresh>)
    requires ScanKeys(keys) && |supply| == |keys|
    ensures ProvisionPassSpec(w, ttl, accountId, reject, keys, supply).crash.None? <==>
      forall k :: k in keys ==> k in w.store.values
    decreases |keys|
  {
    if keys != [] {
      var o := ProvisionStep(w, ttl, accountId, reject, keys[0], supply[0]);
      StepEffect(w, ttl, accountId, reject, keys[0], supply[0]);
      if o.crash.None? {
        PassCompletesIff(o.state, ttl, accountId, reject, keys[1..], supply[1..]);
        forall k | k in keys[1..]
          ensures k in o.state.store.values <==> k in w.store.values
        {
          if k != keys[0] {
            StepFrame(w, ttl, accountId, reject, keys[0], supply[0], k);
          }
        }
        assert forall k :: k in keys <==> k == keys[0] || k in keys[1..];
      }
    }
  }

  /** What a rejecting pass does to one record. */
  function RejectMark(r: TunnelRecord): TunnelRecord
  {
    if r.hostname.Some? then r else RejectedRecord
  }

  /**
   * A rejecting pass leaves the remote account alone, keeps every record
   * with a hostname, and rewrites every scanned record without one as
   * rejected; unscanned records stay as they were.
   */
  lemma {:induction false} RejectingPass(w: World, ttl: int, accountId: string, keys: seq<string>, supply: seq<Fresh>)
    requires ScanKeys(keys) && |supply| == |keys|
    ensures var o := ProvisionPassSpec(w, ttl, accountId, true, keys, supply);
      o.state.account == w.account &&
      o.state.store.values.Keys == w.store.values.Keys &&
      (o.crash.None? ==> forall k :: k in w.store.values ==>
        o.state.store.values[k] == (if k in keys then RejectMark(w.store.values[k]) else w.store.values[k]))
    decreases |keys|
  {
    if keys != [] {
      var key := keys[0];
      var o := ProvisionStep(w, ttl, accountId, true, key, supply[0]);
      StepEffect(w, ttl, accountId, true, key, supply[0]);
      if o.crash.None? {
        var w1 := o.state;
        RejectingPass(w1, ttl, accountId, keys[1..], supply[1..]);
        assert forall k :: k in keys <==> k == key || k in keys[1..];
        forall k | k in w.store.values
          ensures k in w1.store.values && w1.store.values[k] == (if k == key then RejectMark(w.store.values[k]) else w.store.values[k])
        {
          if k != key {
            StepFrame(w, ttl, accountId, true, key, supply[0], k);
          }
        }
        forall k | k in w1.store.values
          ensures k in w.store.values
        {
          if k != key {
            StepFrame(w, ttl, accountId, true, key, supply[0], k);
          }
        }
      }
    }
  }

  /**
   * A pass that does not reject leaves every scanned key with a hostname,
   * and keeps every record that had one as well as every unscanned record.
   */
  lemma {:induction false} ProvisioningPass(w: World, ttl: int, accountId: string, keys: seq<string>, supply: seq<Fresh>)
    requires ScanKeys(keys) && |supply| == |keys|
    ensures var o := ProvisionPassSpec(w, ttl, accountId, false, keys, supply);
      o.crash.None? ==>
        (forall k :: k in keys ==> k in o.state.store.values && o.state.store.values[k].hostname.Some?) &&
        (forall k :: k in w.store.values && (k !in keys || w.store.values[k].hostname.Some?) ==>
          k in o.state.store.values && o.state.store.values[k] == w.store.values[k])
    decreases |keys|
  {
    if keys != [] {
      var key := keys[0];
      var o := ProvisionStep(w, ttl, accountId, false, key, supply[0]);
      StepEffect(w, ttl, accountId, false, key, supply[0]);
      if o.crash.None? {
        var w1 := o.state;
        ProvisioningPass(w1, ttl, accountId, keys[1..], supply[1..]);
        assert forall k :: k in keys <==> k == key || k in keys[1..];
        forall k | k in w.store.values && k != key
          ensures k in w1.store.values && w1.store.values[k] == w.store.values[k]
        {
          StepFrame(w, ttl, accountId, false, key, supply[0], k);
        }
      }
    }
  }

  /**
   * A rejected record keeps a null hostname, so every later pass examines it
   * again, and the first one that does not reject provisions it.
   */
  lemma RejectedRecordReexamined(w: World, ttl: int, accountId: string, key: string, f: Fresh)
    requires StartsWith(key, KeyPrefix)
    requires key in w.store.values && w.store.values[key] == RejectedRecord
    ensures RejectedRecord.hostname.None? && RejectedRecord.rejectReason == Some(RejectReason)
    ensures var o := ProvisionStep(w, ttl, accountId, false, key, f);
      o.crash.None? && o.state.store.values[key].status == Some(Ready) &&
      o.state.store.values[key].hostname.Some? && o.state.store.values[key].rejectReason.None?
  {
    StepEffect(w, ttl, accountId, false, key, f);
  }

  // -------------------------------------------------- active-id lemmas

  /** The collection fails exactly when a scanned key has gone from the store. */
  lemma {:induction false} ActiveIdsCompleteIff(values: map<string, TunnelRecord>, keys: seq<string>)
    requires ScanKeys(keys)
    ensures ActiveIds(values, keys).Ok? <==> forall k :: k in keys ==> k in values
    decreases |keys|
  {
    if keys != [] {
      ActiveIdsCompleteIff(values, keys[1..]);
      assert forall k :: k in keys <==> k == keys[0] || k in keys[1..];
    }
  }

  /** The ids collected are the non-empty TunnelIDs of the scanned records. */
  lemma {:induction false} ActiveIdsMembers(values: map<string, TunnelRecord>, keys: seq<string>, id: string)
    requires ScanKeys(keys)
    ensures ActiveIds(values, keys).Ok? ==>
      (id in ActiveIds(values, keys).value <==>
        id != "" && exists k :: k in keys && k in values && values[k].cfdCreds.Some? && values[k].cfdCreds.value.tunnelId == id)
    decreases |keys|
  {
    if keys != [] {
      ActiveIdsMembers(values, keys[1..], id);
      assert forall k :: k in keys <==> k == keys[0] || k in keys[1..];
    }
  }

  /** Where no scanned record has null credentials, the loop as written and the corrected one agree. */
  lemma {:induction false} ActiveIdsAgree(values: map<string, TunnelRecord>, keys: seq<string>)
    requires ScanKeys(keys)
    requires forall k :: k in keys && k in values ==> values[k].cfdCreds.Some?
    ensures ActiveIdsAsWritten(values, keys) == ActiveIds(values, keys)
    decreases |keys|
  {
    if keys != [] {
      ActiveIdsAgree(values, keys[1..]);
    }
  }

  /** The loop as written completes exactly when every scanned key is still stored with credentials. */
  lemma {:induction false} ActiveIdsAsWrittenCompleteIff(values: map<string, TunnelRecord>, keys: seq<string>)
    requires ScanKeys(keys)
    ensures ActiveIdsAsWritten(values, keys).Ok? <==>
      forall k :: k in keys ==> k in values && values[k].cfdCreds.Some?
    decreases |keys|
  {
    if keys != [] {
      ActiveIdsAsWrittenCompleteIff(values, keys[1..]);
      assert forall k :: k in keys <==> k == keys[0] || k in keys[1..];
    }
  }

  /** The loop as written either agrees with the corrected one or raises on a null `cfd_creds`. */
  lemma {:induction false} ActiveIdsAsWrittenOrNull(values: map<string, TunnelRecord>, keys: seq<string>)
    requires ScanKeys(keys)
    ensures var r := ActiveIdsAsWritten(values, keys);
      r == ActiveIds(values, keys) || (r.Err? && r.error.NullCreds?)
    decreases |keys|
  {
    if keys != [] {
      ActiveIdsAsWrittenOrNull(values, keys[1..]);
    }
  }

  /**
   * The loop as written raises on the record a rejecting pass leaves behind
   * (and on any pending record), where the corrected loop skips it.
   */
  lemma RejectedRecordCrashesAsWritten(cid: string)
    ensures var key := TunnelKey(cid);
      ActiveIdsAsWritten(map[key := RejectedRecord], [key]) == Err(NullCreds(key)) &&
      ActiveIdsAsWritten(map[key := PendingRecord], [key]) == Err(NullCreds(key)) &&
      ActiveIds(map[key := RejectedRecord], [key]) == Ok([])
  {
    var key := TunnelKey(cid);
    var values := map[key := RejectedRecord];
    assert [key][1..] == [];
    assert ActiveIds(values, []) == Ok([]);
    assert values[key].cfdCreds.None?;
    assert TunnelKey(ConnectorId([key][0])) == key;
    var none: seq<string> := [];
    assert none + none == none;
  }

  // ----------------------------------------------------- delete lemmas

  /** A tunnel in use is never deleted, nor one the remote refuses to delete, nor one not listed. */
  lemma {:induction false} DeletePassKeeps(a: Account, dnsMap: map<string, string>, active: seq<string>,
                                           ts: seq<CfTunnel>, t: CfTunnel)
    requires t in a.tunnels
    requires t.id in active || t.id in a.undeletable || forall u :: u in ts ==> u.id != t.id
    ensures t in DeletePassSpec(a, dnsMap, active, ts).state.tunnels
    ensures DeletePassSpec(a, dnsMap, active, ts).state.undeletable == a.undeletable
    decreases |ts|
  {
    if ts != [] {
      var o := DeleteStep(a, dnsMap, active, ts[0]);
      assert t in o.state.tunnels && o.state.undeletable == a.undeletable;
      if o.crash.None? {
        DeletePassKeeps(o.state, dnsMap, active, ts[1..], t);
      }
    }
  }

  /** Deletion adds no tunnel and no DNS record. */
  lemma {:induction false} DeletePassShrinks(a: Account, dnsMap: map<string, string>, active: seq<string>, ts: seq<CfTunnel>)
    ensures forall t :: t in DeletePassSpec(a, dnsMap, active, ts).state.tunnels ==> t in a.tunnels
    ensures forall r :: r in DeletePassSpec(a, dnsMap, active, ts).state.dns ==> r in a.dns
    decreases |ts|
  {
    if ts != [] {
      var o := DeleteStep(a, dnsMap, active, ts[0]);
      if o.crash.None? {
        DeletePassShrinks(o.state, dnsMap, active, ts[1..]);
      }
    }
  }

  /**
   * A pass that completes has deleted every listed tunnel that is neither
   * active nor refused by the remote, and, for one still there when the
   * pass began, the DNS record mapped to it.
   */
  lemma {:induction false} DeletePassRemoves(a: Account, dnsMap: map<string, string>, active: seq<string>,
                                             ts: seq<CfTunnel>, t: CfTunnel)
    requires t in ts && t.id !in active && t.id !in a.undeletable
    requires DeletePassSpec(a, dnsMap, active, ts).crash.None?
    ensures !HasTunnel(DeletePassSpec(a, dnsMap, active, ts).state, t.id)
    ensures HasTunnel(a, t.id) ==>
      t.id in dnsMap && !HasRecord(DeletePassSpec(a, dnsMap, active, ts).state, dnsMap[t.id])
    decreases |ts|
  {
    var o := DeleteStep(a, dnsMap, active, ts[0]);
    var e := DeletePassSpec(a, dnsMap, active, ts);
    assert o.crash.None? && e == DeletePassSpec(o.state, dnsMap, active, ts[1..]);
    DeletePassShrinks(o.state, dnsMap, active, ts[1..]);
    if ts[0].id == t.id {
      assert !HasTunnel(o.state, t.id);
      assert HasTunnel(a, t.id) ==> t.id in dnsMap && !HasRecord(o.state, dnsMap[t.id]);
    } else {
      assert t in ts[1..];
      assert o.state.undeletable == a.undeletable;
      if HasTunnel(a, t.id) {
        var u :| u in a.tunnels && u.id == t.id;
        assert u in o.state.tunnels;
      }
      DeletePassRemoves(o.state, dnsMap, active, ts[1..], t);
    }
  }

  /**
   * The deletion loop's body on an unused tunnel: a refused delete changes
   * nothing (the DNS record stays); an accepted one removes the tunnel and
   * then raises for a tunnel with no mapped record, or removes that record.
   */
  lemma DeleteStepEffect(a: Account, dnsMap: map<string, string>, active: seq<string>, t: CfTunnel)
    requires t.id !in active
    ensures var o := DeleteStep(a, dnsMap, active, t);
      (t.id in a.undeletable || !HasTunnel(a, t.id) ==> o == Outcome(a, None)) &&
      (t.id !in a.undeletable && HasTunnel(a, t.id) ==>
        !HasTunnel(o.state, t.id) &&
        (t.id !in dnsMap ==> o.crash == Some(MissingDnsMapping(t.id)) && o.state.dns == a.dns) &&
        (t.id in dnsMap && HasRecord(a, dnsMap[t.id]) ==>
          o.crash.None? && o.state.dns == WithoutRecord(a.dns, dnsMap[t.id])))
  {
  }

  // ------------------------------------------------- iteration lemmas

  /** A completed pass sleeps 5 seconds when it rejected and 1 second otherwise. */
  lemma IterationSleep(w: World, ttl: int, accountId: string, maxTunnels: int,
                       scan1: seq<string>, scan2: seq<string>, supply: seq<Fresh>)
    requires ScanKeys(scan1) && ScanKeys(scan2) && |supply| == |scan1|
    ensures var r := IterationSpec(w, ttl, accountId, maxTunnels, scan1, scan2, supply).1;
      r.Completed? ==> r.sleepSeconds == (if Rejects(w.account.tunnels, maxTunnels) then 5 else 1)
  {
  }

  /** A pass that rejects creates no remote tunnel. */
  lemma RejectingIterationCreatesNothing(w: World, ttl: int, accountId: string, maxTunnels: int,
                                         scan1: seq<string>, scan2: seq<string>, supply: seq<Fresh>)
    requires ScanKeys(scan1) && ScanKeys(scan2) && |supply| == |scan1|
    requires Rejects(w.account.tunnels, maxTunnels)
    ensures forall t :: t in IterationSpec(w, ttl, accountId, maxTunnels, scan1, scan2, supply).0.account.tunnels ==>
      t in w.account.tunnels
  {
    RejectingPass(w, ttl, accountId, scan1, supply);
    var p := ProvisionPassSpec(w, ttl, accountId, true, scan1, supply);
    var active := ActiveIdsAsWritten(p.state.store.values, scan2);
    if active.Ok? {
      DeletePassShrinks(p.state.account, DnsMap(p.state.account.dns), active.value, Managed(w.account.tunnels));
    }
  }

  /**
   * A rejecting pass that finds a connector waiting, and sees its key again
   * in the second scan, raises in the active-id loop (the record it wrote
   * has null credentials) before it deletes anything.
   */
  lemma RejectingIterationStops(w: World, ttl: int, accountId: string, maxTunnels: int,
                                scan1: seq<string>, scan2: seq<string>, supply: seq<Fresh>, key: string)
    requires ScanKeys(scan1) && ScanKeys(scan2) && |supply| == |scan1|
    requires Rejects(w.account.tunnels, maxTunnels)
    requires key in scan1 && key in scan2 && key in w.store.values && w.store.values[key].hostname.None?
    ensures var (w', r) := IterationSpec(w, ttl, accountId, maxTunnels, scan1, scan2, supply);
      r.Crashed? && w'.account == w.account
  {
    RejectingPass(w, ttl, accountId, scan1, supply);
    var p := ProvisionPassSpec(w, ttl, accountId, true, scan1, supply);
    if p.crash.None? {
      assert p.state.store.values[key].cfdCreds.None?;
      ActiveIdsAsWrittenCompleteIff(p.state.store.values, scan2);
    }
  }

  /** The pass as written and the corrected pass differ only where the former raises on a null `cfd_creds`. */
  lemma CorrectedIterationAgrees(w: World, ttl: int, accountId: string, maxTunnels: int,
                                 scan1: seq<string>, scan2: seq<string>, supply: seq<Fresh>)
    requires ScanKeys(scan1) && ScanKeys(scan2) && |supply| == |scan1|
    ensures var r := IterationSpec(w, ttl, accountId, maxTunnels, scan1, scan2, supply);
      r == CorrectedIterationSpec(w, ttl, accountId, maxTunnels, scan1, scan2, supply) ||
      (r.1.Crashed? && r.1.reason.NullCreds?)
  {
    var ts := Managed(w.account.tunnels);
    var p := ProvisionPassSpec(w, ttl, accountId, |ts| >= maxTunnels, scan1, supply);
    ActiveIdsAsWrittenOrNull(p.state.store.values, scan2);
  }

  // --------------------------------------------------------------- methods

  /** `create_tunnel(connector_id, cf, tunnel_mng)`; the new id, secret and record id are passed in. */
  method CreateTunnel(cid: string, cloud: Cloud, mng: TunnelManager, accountId: string, f: Fresh)
    modifies cloud, mng.store
    ensures World(mng.store.Contents(), cloud.Contents()) ==
      CreateTunnelSpec(old(World(mng.store.Contents(), cloud.Contents())), mng.tunnelTtl, accountId, cid, f)
  {
    var name := mng.GetTunnelUid();
    var id := cloud.PostTunnel(name, f.tunnelId);
    var hostname := name + "." + Domain;
    cloud.PutConfiguration(id, IngressRules(hostname));
    cloud.PostDns(DnsRecord(f.dnsRecordId, hostname, id + CnameSuffix));
    var creds := Creds(accountId, id, f.secret);
    mng.WriteTunnel(cid, Some(hostname), Some(TunnelPath), Some(creds), Some(Ready), None);
  }

  /** The provisioning loop (lines 131-148) over one scan of the record keys. */
  method ProvisionPass(mng: TunnelManager, cloud: Cloud, accountId: string, reject: bool,
                       keys: seq<string>, supply: seq<Fresh>) returns (crash: Option<Crash>)
    requires ScanKeys(keys) && |supply| == |keys|
    modifies cloud, mng.store
    ensures Outcome(World(mng.store.Contents(), cloud.Contents()), crash) ==
      ProvisionPassSpec(old(World(mng.store.Contents(), cloud.Contents())), mng.tunnelTtl, accountId, reject, keys, supply)
  {
    ghost var start := World(mng.store.Contents(), cloud.Contents());
    var i := 0;
    while i < |keys|
      invariant 0 <= i <= |keys|
      invariant ProvisionPassSpec(start, mng.tunnelTtl, accountId, reject, keys, supply) ==
        ProvisionPassSpec(World(mng.store.Contents(), cloud.Contents()), mng.tunnelTtl, accountId, reject, keys[i..], supply[i..])
    {
      var key := keys[i];
      ghost var w := World(mng.store.Contents(), cloud.Contents());
      ghost var o := ProvisionStep(w, mng.tunnelTtl, accountId, reject, key, supply[i]);
      PassUnfold(w, mng.tunnelTtl, accountId, reject, keys, supply, i);
      var stored := mng.store.Get(key);
      if stored.None? {
        return Some(ExpiredKey(key));
      }
      if stored.value.hostname.None? {
        var cid := ConnectorId(key);
        if reject {
          mng.WriteTunnel(cid, None, None, None, Some(Rejected), Some(RejectReason));
        } else {
          CreateTunnel(cid, cloud, mng, accountId, supply[i]);
        }
      }
      assert World(mng.store.Contents(), cloud.Contents()) == o.state && o.crash.None?;
      i := i + 1;
    }
    crash := None;
  }

  /** One turn of the provisioning loop: the pass from key i is its step followed by the pass from key i + 1. */
  lemma PassUnfold(w: World, ttl: int, accountId: string, reject: bool,
                   keys: seq<string>, supply: seq<Fresh>, i: nat)
    requires ScanKeys(keys) && |supply| == |keys| && i < |keys|
    ensures var o := ProvisionStep(w, ttl, accountId, reject, keys[i], supply[i]);
      ProvisionPassSpec(w, ttl, accountId, reject, keys[i..], supply[i..]) ==
        if o.crash.Some? then o else ProvisionPassSpec(o.state, ttl, accountId, reject, keys[i + 1..], supply[i + 1..])
  {
    assert keys[i..][0] == keys[i] && keys[i..][1..] == keys[i + 1..];
    assert supply[i..][0] == supply[i] && supply[i..][1..] == supply[i + 1..];
  }

  /** A list of ids put in front of a collection's result. */
  function Prepend(ids: seq<string>, r: Result<seq<string>, Crash>): Result<seq<string>, Crash>
  {
    if r.Ok? then Ok(ids + r.value) else r
  }

  lemma PrependTwice(a: seq<string>, b: seq<string>, r: Result<seq<string>, Crash>)
    ensures Prepend(a, Prepend(b, r)) == Prepend(a + b, r)
    ensures Prepend([], r) == r
  {
    if r.Ok? {
      assert a + (b + r.value) == (a + b) + r.value;
      assert [] + r.value == r.value;
    }
  }

  /** The collection over the keys from position i on: the i-th key, then the rest. */
  lemma ActiveIdsFrom(values: map<string, TunnelRecord>, keys: seq<string>, i: nat)
    requires ScanKeys(keys) && i < |keys|
    ensures var key := TunnelKey(ConnectorId(keys[i]));
      ActiveIdsAsWritten(values, keys[i..]) ==
        if key !in values then Err(ExpiredKey(key))
        else if values[key].cfdCreds.None? then Err(NullCreds(key))
        else
          var id := values[key].cfdCreds.value.tunnelId;
          Prepend(if id != "" then [id] else [], ActiveIdsAsWritten(values, keys[i + 1..]))
  {
    assert keys[i..][0] == keys[i] && keys[i..][1..] == keys[i + 1..];
  }

  /** The active-id loop (lines 150-158). */
  method CollectActiveIds(store: Store<TunnelRecord>, keys: seq<string>) returns (r: Result<seq<string>, Crash>)
    requires ScanKeys(keys)
    ensures r == ActiveIdsAsWritten(store.values, keys)
  {
    var ids: seq<string> := [];
    var i := 0;
    assert keys[0..] == keys;
    PrependTwice([], [], ActiveIdsAsWritten(store.values, keys));
    while i < |keys|
      invariant 0 <= i <= |keys|
      invariant ActiveIdsAsWritten(store.values, keys) == Prepend(ids, ActiveIdsAsWritten(store.values, keys[i..]))
    {
      ActiveIdsFrom(store.values, keys, i);
      var key := TunnelKey(ConnectorId(keys[i]));
      var stored := store.Get(key);
      if stored.None? {
        return Err(ExpiredKey(key));
      }
      var creds := stored.value.cfdCreds;
      if creds.None? {
        return Err(NullCreds(key));
      }
      var id := creds.value.tunnelId;
      var found: seq<string> := if id != "" then [id] else [];
      PrependTwice(ids, found, ActiveIdsAsWritten(store.values, keys[i + 1..]));
      ids := ids + found;
      i := i + 1;
    }
    assert ids + [] == ids;
    r := Ok(ids);
  }

  /** The loop building the map from tunnel ids to DNS record ids (lines 162-167). */
  method BuildDnsMap(rs: seq<DnsRecord>) returns (m: map<string, string>)
    ensures m == DnsMap(rs)
  {
    m := map[];
    var i := 0;
    while i < |rs|
      invariant 0 <= i <= |rs|
      invariant m == DnsMap(rs[..i])
    {
      assert rs[..i + 1][..i] == rs[..i];
      var r := rs[i];
      if EndsWith(r.content, CnameSuffix) {
        var cname := r.content;
        m := m[cname[..|cname| - |CnameSuffix|] := r.id];
      }
      i := i + 1;
    }
    assert rs[..|rs|] == rs;
  }

  /** The deletion loop (lines 169-189) over the tunnels listed at the start of the pass. */
  method DeleteOrphans(cloud: Cloud, ts: seq<CfTunnel>, active: seq<string>, dnsMap: map<string, string>)
    returns (crash: Option<Crash>)
    modifies cloud
    ensures Outcome(cloud.Contents(), crash) == DeletePassSpec(old(cloud.Contents()), dnsMap, active, ts)
  {
    ghost var start := cloud.Contents();
    var i := 0;
    while i < |ts|
      invariant 0 <= i <= |ts|
      invariant DeletePassSpec(start, dnsMap, active, ts) == DeletePassSpec(cloud.Contents(), dnsMap, active, ts[i..])
    {
      var t := ts[i];
      assert ts[i..][0] == t && ts[i..][1..] == ts[i + 1..];
      if t.id !in active {
        var deleted := cloud.DeleteTunnel(t.id);
        if deleted {
          if t.id !in dnsMap {
            return Some(MissingDnsMapping(t.id));
          }
          var rid := dnsMap[t.id];
          var removed := cloud.DeleteDns(rid);
          if !removed {
            return Some(DnsDeleteFailed(rid));
          }
        }
      }
      i := i + 1;
    }
    crash := None;
  }

  /** One pass of the worker's main loop (lines 112-191). */
  method Iteration(mng: TunnelManager, cloud: Cloud, accountId: string, maxTunnels: int,
                   scan1: seq<string>, scan2: seq<string>, supply: seq<Fresh>) returns (report: Report)
    requires ScanKeys(scan1) && ScanKeys(scan2) && |supply| == |scan1|
    modifies cloud, mng.store
    ensures (World(mng.store.Contents(), cloud.Contents()), report) ==
      IterationSpec(old(World(mng.store.Contents(), cloud.Contents())), mng.tunnelTtl, accountId, maxTunnels,
                    scan1, scan2, supply)
  {
    var listed := cloud.ListTunnels();
    var ts := Managed(listed);
    var reject := |ts| >= maxTunnels;
    var crash := ProvisionPass(mng, cloud, accountId, reject, scan1, supply);
    if crash.Some? {
      return Crashed(crash.value);
    }
    var active := CollectActiveIds(mng.store, scan2);
    if active.Err? {
      return Crashed(active.error);
    }
    var records := cloud.ListDns();
    var dnsMap := BuildDnsMap(records);
    crash := DeleteOrphans(cloud, ts, active.value, dnsMap);
    if crash.Some? {
      return Crashed(crash.value);
    }
    report := Completed(if reject then 5 else 1);
  }
}
