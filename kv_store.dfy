/**
 * The part of a Redis key space the services use: string keys holding
 * values, each with an optional time-to-live, and integer counters updated
 * by INCR. A time-to-live is kept as the number of seconds last set; the
 * passing of time is not modelled.
 */
module KvStore {
  import opened Wrappers

  /** The key space: stored values, their expiry settings, and counters. */
  datatype Keyspace<V> = Keyspace(values: map<string, V>, expiry: map<string, Option<int>>, counters: map<string, int>)

  /** SET key value [EX seconds]: replaces the value; without EX any earlier expiry is dropped. */
  function SetSpec<V>(s: Keyspace<V>, key: string, v: V, ex: Option<int>): Keyspace<V>
  {
    s.(values := s.values[key := v], expiry := s.expiry[key := ex])
  }

  /** EXPIRE key seconds: applies only to a key that holds a value. */
  function ExpireSpec<V>(s: Keyspace<V>, key: string, seconds: int): Keyspace<V>
  {
    if key in s.values then s.(expiry := s.expiry[key := Some(seconds)]) else s
  }

  /** The value INCR starts from: an absent counter counts as 0. */
  function CounterValue<V>(s: Keyspace<V>, key: string): int
  {
    if key in s.counters then s.counters[key] else 0
  }

  /** INCR key. */
  function IncrSpec<V>(s: Keyspace<V>, key: string): Keyspace<V>
  {
    s.(counters := s.counters[key := CounterValue(s, key) + 1])
  }

  /** SET changes one key and leaves every other value, expiry and counter as it was. */
  lemma SetFrame<V>(s: Keyspace<V>, key: string, v: V, ex: Option<int>, other: string)
    requires other != key
    ensures var t := SetSpec(s, key, v, ex);
      (other in t.values <==> other in s.values) &&
      (other in s.values ==> t.values[other] == s.values[other]) &&
      (other in t.expiry <==> other in s.expiry) &&
      (other in s.expiry ==> t.expiry[other] == s.expiry[other]) &&
      t.counters == s.counters
  {
  }

  /** Setting the same value and expiry twice is the same as setting it once. */
  lemma SetIdempotent<V>(s: Keyspace<V>, key: string, v: V, ex: Option<int>)
    ensures SetSpec(SetSpec(s, key, v, ex), key, v, ex) == SetSpec(s, key, v, ex)
  {
  }

  /** Successive INCRs of one counter return consecutive values. */
  lemma IncrConsecutive<V>(s: Keyspace<V>, key: string)
    ensures CounterValue(IncrSpec(s, key), key) == CounterValue(s, key) + 1
    ensures forall other :: other != key ==> CounterValue(IncrSpec(s, key), other) == CounterValue(s, other)
  {
  }

  /** The key space after n INCRs of one counter. */
  function Incrs<V>(s: Keyspace<V>, key: string, n: nat): Keyspace<V>
    decreases n
  {
    if n == 0 then s else IncrSpec(Incrs(s, key, n - 1), key)
  }

  lemma {:induction false} IncrsCount<V>(s: Keyspace<V>, key: string, n: nat)
    ensures CounterValue(Incrs(s, key, n), key) == CounterValue(s, key) + n
    decreases n
  {
    if n > 0 {
      IncrsCount(s, key, n - 1);
    }
  }

  /** A Redis server's key space, updated in place by the commands. */
  class Store<V(==)> {
    var values: map<string, V>
    var expiry: map<string, Option<int>>
    var counters: map<string, int>

    function Contents(): Keyspace<V>
      reads this
    {
      Keyspace(values, expiry, counters)
    }

    constructor()
      ensures Contents() == Keyspace(map[], map[], map[])
    {
      values, expiry, counters := map[], map[], map[];
    }

    /** GET key: the stored value, or nothing for a missing (or expired) key. */
    method Get(key: string) returns (r: Option<V>)
      ensures r.Some? <==> key in values
      ensures r.Some? ==> r.value == values[key]
    {
      if key in values {
        r := Some(values[key]);
      } else {
        r := None;
      }
    }

    method Set(key: string, v: V, ex: Option<int>)
      modifies this
      ensures Contents() == SetSpec(old(Contents()), key, v, ex)
    {
      values := values[key := v];
      expiry := expiry[key := ex];
    }

    /** EXPIRE key seconds; the result says whether the key held a value. */
    method Expire(key: string, seconds: int) returns (applied: bool)
      modifies this
      ensures applied <==> key in old(values)
      ensures Contents() == ExpireSpec(old(Contents()), key, seconds)
    {
      applied := key in values;
      if applied {
        expiry := expiry[key := Some(seconds)];
      }
    }

    /** INCR key: the counter's new value. */
    method Incr(key: string) returns (n: int)
      modifies this
      ensures n == CounterValue(old(Contents()), key) + 1
      ensures Contents() == IncrSpec(old(Contents()), key)
    {
      n := if key in counters then counters[key] + 1 else 1;
      counters := counters[key := n];
    }
  }
}
