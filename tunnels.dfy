/**
 * The tunnel manager of the API service: one record per connector under the
 * key "tunnel:<connector id>", stored with a time-to-live, and a counter
 * from which tunnel names are allocated.
 */
module Tunnels {
  import opened Wrappers
  import opened Text
  import opened KvStore

  datatype Status = Pending | Ready | Rejected

  /** The credentials cloudflared needs: account tag, tunnel id and tunnel secret. */
  datatype Creds = Creds(accountTag: string, tunnelId: string, tunnelSecret: string)

  /**
   * A stored tunnel record; `None` stands for JSON null, and a missing
   * `reject_reason` member for `rejectReason == None`.
   */
  datatype TunnelRecord = TunnelRecord(
    status: Option<Status>,
    hostname: Option<string>,
    path: Option<string>,
    cfdCreds: Option<Creds>,
    rejectReason: Option<string>)

  const KeyPrefix: string := "tunnel:"
  const NamePrefix: string := "tunnel-"
  const UidCounter: string := "uid:tunnel"

  /** The default of the TUNNEL_TTL setting, in seconds. */
  const DefaultTtl: int := 300

  function TunnelKey(cid: string): (key: string)
    ensures StartsWith(key, KeyPrefix) && key[|KeyPrefix|..] == cid
  {
    KeyPrefix + cid
  }

  /** The record `get_tunnel` writes for a connector it has not seen. */
  const PendingRecord: TunnelRecord := TunnelRecord(Some(Pending), None, None, None, None)

  /**
   * The record `write_tunnel` stores: the four fields as given, and the
   * reject reason only when it is a non-empty string.
   */
  function Written(status: Option<Status>, hostname: Option<string>, path: Option<string>,
                   creds: Option<Creds>, reason: Option<string>): (r: TunnelRecord)
    ensures r.status == status && r.hostname == hostname && r.path == path && r.cfdCreds == creds
    ensures r.rejectReason.Some? <==> reason.Some? && reason.value != ""
    ensures r.rejectReason.Some? ==> r.rejectReason == reason
  {
    TunnelRecord(status, hostname, path, creds, if reason.Some? && reason.value != "" then reason else None)
  }

  /** `get_tunnel`: the record returned and the key space afterwards. */
  function GetTunnelSpec(s: Keyspace<TunnelRecord>, ttl: int, cid: string): (TunnelRecord, Keyspace<TunnelRecord>)
  {
    var key := TunnelKey(cid);
    if key in s.values then (s.values[key], ExpireSpec(s, key, ttl))
    else (PendingRecord, SetSpec(s, key, PendingRecord, None))
  }

  /** `write_tunnel`: the record replaces the old one and gets the full time-to-live. */
  function WriteTunnelSpec(s: Keyspace<TunnelRecord>, ttl: int, cid: string, r: TunnelRecord): Keyspace<TunnelRecord>
  {
    SetSpec(s, TunnelKey(cid), r, Some(ttl))
  }

  /** `get_tunnel_uid`: the allocated name and the key space afterwards. */
  function UidSpec(s: Keyspace<TunnelRecord>): (string, Keyspace<TunnelRecord>)
  {
    (NamePrefix + IntStr(CounterValue(s, UidCounter) + 1), IncrSpec(s, UidCounter))
  }

  /** A stored record is returned as it is, and only its expiry is reset. */
  lemma GetTunnelHit(s: Keyspace<TunnelRecord>, ttl: int, cid: string)
    requires TunnelKey(cid) in s.values
    ensures var (r, t) := GetTunnelSpec(s, ttl, cid);
      r == s.values[TunnelKey(cid)] && t.values == s.values &&
      t.expiry == s.expiry[TunnelKey(cid) := Some(ttl)] && t.counters == s.counters
  {
  }

  /** A missing record is created pending, with null fields and no expiry. */
  lemma GetTunnelMiss(s: Keyspace<TunnelRecord>, ttl: int, cid: string)
    requires TunnelKey(cid) !in s.values
    ensures var (r, t) := GetTunnelSpec(s, ttl, cid);
      r.status == Some(Pending) && r.hostname.None? && r.path.None? && r.cfdCreds.None? &&
      t.values == s.values[TunnelKey(cid) := r] &&
      t.expiry == s.expiry[TunnelKey(cid) := None] && t.counters == s.counters
  {
  }

  /**
   * Two `get_tunnel` calls for a new connector return the same pending
   * record, and the second leaves the stored records as the first left them.
   */
  lemma GetTunnelTwice(s: Keyspace<TunnelRecord>, ttl: int, cid: string)
    requires TunnelKey(cid) !in s.values
    ensures var (r1, s1) := GetTunnelSpec(s, ttl, cid);
      var (r2, s2) := GetTunnelSpec(s1, ttl, cid);
      r1 == r2 == PendingRecord && s2.values == s1.values
  {
  }

  /**
   * Two writers that both missed the key and both stored the pending record
   * leave the same key space as one writer would.
   */
  lemma PendingRaceHarmless(s: Keyspace<TunnelRecord>, ttl: int, cid: string)
    requires TunnelKey(cid) !in s.values
    ensures var (_, once) := GetTunnelSpec(s, ttl, cid);
      SetSpec(once, TunnelKey(cid), PendingRecord, None) == once
  {
    SetIdempotent(s, TunnelKey(cid), PendingRecord, None);
  }

  /**
   * The argument holds only between the two readers. If the worker commits
   * a record for the connector after one reader's miss and before that
   * reader's SET, the late SET replaces the committed record with a pending
   * one that has no expiry.
   */
  lemma LatePendingWriteClobbers(s: Keyspace<TunnelRecord>, ttl: int, cid: string, r: TunnelRecord)
    requires TunnelKey(cid) !in s.values
    ensures var key := TunnelKey(cid);
      var (_, s1) := GetTunnelSpec(s, ttl, cid);
      var s2 := WriteTunnelSpec(s1, ttl, cid, r);
      var s3 := SetSpec(s2, key, PendingRecord, None);
      s2.values[key] == r && s2.expiry[key] == Some(ttl) &&
      s3.values[key] == PendingRecord && s3.expiry[key] == None &&
      s3 == SetSpec(s, key, PendingRecord, None).(counters := s3.counters) &&
      (r != PendingRecord ==> s3 != s2)
  {
  }

  /** `get_tunnel` and `write_tunnel` leave every other key and every counter alone. */
  lemma TunnelOpsFrame(s: Keyspace<TunnelRecord>, ttl: int, cid: string, r: TunnelRecord, other: string)
    requires other != TunnelKey(cid)
    ensures var t := GetTunnelSpec(s, ttl, cid).1;
      (other in t.values <==> other in s.values) &&
      (other in s.values ==> t.values[other] == s.values[other]) &&
      (other in s.expiry ==> other in t.expiry && t.expiry[other] == s.expiry[other]) &&
      t.counters == s.counters
    ensures var t := WriteTunnelSpec(s, ttl, cid, r);
      (other in t.values <==> other in s.values) &&
      (other in s.values ==> t.values[other] == s.values[other]) &&
      (other in s.expiry ==> other in t.expiry && t.expiry[other] == s.expiry[other]) &&
      t.counters == s.counters
  {
  }

  /** After `write_tunnel` the key holds exactly the written record, expiring after the TTL. */
  lemma WriteTunnelEffect(s: Keyspace<TunnelRecord>, ttl: int, cid: string, r: TunnelRecord)
    ensures var t := WriteTunnelSpec(s, ttl, cid, r);
      TunnelKey(cid) in t.values && t.values[TunnelKey(cid)] == r &&
      t.expiry[TunnelKey(cid)] == Some(ttl)
  {
  }

  /** The names of k successive `get_tunnel_uid` calls. */
  function UidNames(s: Keyspace<TunnelRecord>, k: nat): seq<string>
    decreases k
  {
    if k == 0 then [] else [UidSpec(s).0] + UidNames(UidSpec(s).1, k - 1)
  }

  /** The i-th of successive names carries the counter's starting value plus i + 1. */
  lemma {:induction false} UidNamesCount(s: Keyspace<TunnelRecord>, k: nat)
    ensures |UidNames(s, k)| == k
    ensures forall i :: 0 <= i < k ==>
      UidNames(s, k)[i] == NamePrefix + IntStr(CounterValue(s, UidCounter) + i + 1)
    decreases k
  {
    if k > 0 {
      var t := UidSpec(s).1;
      var c := CounterValue(s, UidCounter);
      var names := UidNames(t, k - 1);
      UidNamesCount(t, k - 1);
      IncrConsecutive(s, UidCounter);
      assert CounterValue(t, UidCounter) == c + 1;
      assert UidNames(s, k) == [NamePrefix + IntStr(c + 1)] + names;
      forall i | 0 <= i < k
        ensures UidNames(s, k)[i] == NamePrefix + IntStr(c + i + 1)
      {
        if i > 0 {
          assert UidNames(s, k)[i] == names[i - 1];
          assert names[i - 1] == NamePrefix + IntStr(c + 1 + (i - 1) + 1);
          assert c + 1 + (i - 1) + 1 == c + i + 1;
        }
      }
    }
  }

  /** Successive `get_tunnel_uid` calls never hand out the same name twice. */
  lemma UidNamesDistinct(s: Keyspace<TunnelRecord>, k: nat, i: nat, j: nat)
    requires i < j < k
    ensures |UidNames(s, k)| == k && UidNames(s, k)[i] != UidNames(s, k)[j]
  {
    UidNamesCount(s, k);
    var c := CounterValue(s, UidCounter);
    if UidNames(s, k)[i] == UidNames(s, k)[j] {
      var a, b := IntStr(c + i + 1), IntStr(c + j + 1);
      assert (NamePrefix + a)[|NamePrefix|..] == a;
      assert (NamePrefix + b)[|NamePrefix|..] == b;
      IntStrInjective(c + i + 1, c + j + 1);
    }
  }

  /** The text after the first ':' of a record key is the connector id, colons and all. */
  lemma ConnectorIdOfKey(cid: string)
    ensures SplitOnce(TunnelKey(cid), ':') == Some(("tunnel", cid))
  {
    var key := TunnelKey(cid);
    assert key[6] == ':';
    var r := SplitOnce(key, ':');
    assert r.Some?;
    var (a, b) := r.value;
    assert a == key[..6] == "tunnel";
    assert b == key[7..] == cid;
  }

  /** The manager the API service and the worker share. */
  class TunnelManager {
    const store: Store<TunnelRecord>
    /** `cf_tunnel_name_prefix`. */
    const namePrefix: string := NamePrefix
    const tunnelTtl: int

    constructor(store: Store<TunnelRecord>, tunnelTtl: int)
      ensures this.store == store && this.tunnelTtl == tunnelTtl && namePrefix == NamePrefix
    {
      this.store := store;
      this.tunnelTtl := tunnelTtl;
    }

    /** `get_tunnel(connector_id)`. */
    method GetTunnel(cid: string) returns (r: TunnelRecord)
      modifies store
      ensures (r, store.Contents()) == GetTunnelSpec(old(store.Contents()), tunnelTtl, cid)
    {
      var key := TunnelKey(cid);
      var stored := store.Get(key);
      if stored.Some? {
        var refreshed := store.Expire(key, tunnelTtl);
        return stored.value;
      }
      r := PendingRecord;
      store.Set(key, r, None);
    }

    /** `get_tunnel_uid()`. */
    method GetTunnelUid() returns (name: string)
      modifies store
      ensures (name, store.Contents()) == UidSpec(old(store.Contents()))
    {
      var uid := store.Incr(UidCounter);
      name := namePrefix + IntStr(uid);
    }

    /** `write_tunnel(connector_id, ...)`; `None` stands for an omitted keyword argument. */
    method WriteTunnel(cid: string, hostname: Option<string>, path: Option<string>,
                       creds: Option<Creds>, status: Option<Status>, reason: Option<string>)
      modifies store
      ensures store.Contents() ==
        WriteTunnelSpec(old(store.Contents()), tunnelTtl, cid, Written(status, hostname, path, creds, reason))
    {
      var data := TunnelRecord(status, hostname, path, creds, None);
      if reason.Some? && reason.value != "" {
        data := data.(rejectReason := reason);
      }
      store.Set(TunnelKey(cid), data, Some(tunnelTtl));
    }
  }
}
