/** A table of distinct keys behind striped ids, one shard per lock. */
module StripedTables {
  import opened RawTypes
  import opened StripedIds

  /** What one lock guards: an id for each key, the keys and their values in the order of those
  ids, and how often a key was there already. */
  datatype Shard<K, V> = Shard(index: map<K, nat>, entries: seq<(K, V)>, dups: nat)

  /** `home` sends equal keys to one shard, on every thread and in every run. */
  datatype Striped<!K(!new, ==), V> = Striped(word: nat, home: K -> nat, shards: seq<Shard<K, V>>)
  {
    ghost predicate WellShaped() {
      && IsWord(word)
      && |shards| == SHARDS
      && forall key :: home(key) < SHARDS
    }

    /** No shard holds more than its ids can tell apart. */
    ghost predicate Roomy() {
      forall k | 0 <= k < |shards| :: forall j: nat | j < |shards[k].entries| :: Fits(word, k, j)
    }

    /** The index says of each key which entry is its own, and every entry is some key's. */
    ghost predicate ShardSound(k: nat)
      requires WellShaped() && k < SHARDS
    {
      var shard := shards[k];
      && (forall key | key in shard.index ::
            exists j: nat :: j < |shard.entries| && shard.entries[j].0 == key
                             && Encode(word, k, j) == Some(shard.index[key]))
      && (forall j: nat | j < |shard.entries| ::
            var key := shard.entries[j].0;
            home(key) == k && key in shard.index && Encode(word, k, j) == Some(shard.index[key]))
    }

    ghost predicate Sound() {
      WellShaped() && Roomy() && forall k | 0 <= k < SHARDS :: ShardSound(k)
    }

    function Find(key: K): Option<nat>
      requires home(key) < |shards|
    {
      var index := shards[home(key)].index;
      if key in index then Some(index[key]) else None
    }

    predicate Has(id: nat) {
      && id > 0
      && Decode(id).0 < |shards|
      && Decode(id).1 < |shards[Decode(id).0].entries|
    }

    function Get(id: nat): (K, V)
      requires Has(id)
    {
      shards[Decode(id).0].entries[Decode(id).1]
    }

    /** The atomic step under the shard's lock: the id there is, or a new one. */
    function Interned(key: K, value: V): Option<(Striped<K, V>, nat)>
      requires WellShaped()
    {
      var k := home(key);
      var shard := shards[k];
      if key in shard.index then
        Some((this.(shards := shards[k := shard.(dups := shard.dups + 1)]), shard.index[key]))
      else
        match Encode(word, k, |shard.entries|)
        case None => None
        case Some(id) =>
          Some((this.(shards := shards[k := Shard(shard.index[key := id], shard.entries + [(key, value)],
                                                  shard.dups)]), id))
    }
  }

  function Fresh<K(!new, ==), V>(word: nat, home: K -> nat): Striped<K, V> {
    Striped(word, home, seq(SHARDS, i => Shard(map[], [], 0)))
  }

  // ----- what a sound table guarantees

  lemma FoundIsOwn<K(!new), V>(t: Striped<K, V>, key: K)
    requires t.Sound() && t.Find(key).Some?
    ensures var id := t.Find(key).value; t.Has(id) && t.Get(id).0 == key
  {
    var k := t.home(key);
    assert t.ShardSound(k);
    var j: nat :| j < |t.shards[k].entries| && t.shards[k].entries[j].0 == key
                  && Encode(t.word, k, j) == Some(t.shards[k].index[key]);
    DecodeInverts(t.word, k, j);
  }

  /** Ids are equal exactly when the keys are. */
  lemma SameIdSameKey<K(!new), V>(t: Striped<K, V>, a: K, b: K)
    requires t.Sound() && t.Find(a).Some? && t.Find(b).Some?
    ensures t.Find(a) == t.Find(b) <==> a == b
  {
    FoundIsOwn(t, a);
    FoundIsOwn(t, b);
  }

  /** Looking an id up undoes interning: every id is the one id of its key. */
  lemma GetInverts<K(!new), V>(t: Striped<K, V>, id: nat)
    requires t.Sound() && t.Has(id) && id < t.word
    ensures t.Find(t.Get(id).0) == Some(id)
  {
    var (k, j) := Decode(id);
    assert t.ShardSound(k);
    EncodeInverts(t.word, id);
  }

  // ----- what interning does

  lemma InternRooms<K(!new), V>(t: Striped<K, V>, key: K, value: V)
    requires t.WellShaped() && t.Interned(key, value).Some? && t.Interned(key, value).value.0.Roomy()
    ensures t.Interned(key, value).value.0.WellShaped() && t.Roomy()
  {
    var next := t.Interned(key, value).value.0;
    forall k, j: nat | 0 <= k < |t.shards| && j < |t.shards[k].entries|
      ensures Fits(t.word, k, j)
    {
      assert j < |next.shards[k].entries|;
    }
  }

  lemma InternSound<K(!new), V>(t: Striped<K, V>, key: K, value: V)
    requires t.Sound() && t.Interned(key, value).Some? && t.Interned(key, value).value.0.Roomy()
    ensures t.Interned(key, value).value.0.Sound()
  {
    var next := t.Interned(key, value).value.0;
    forall k | 0 <= k < SHARDS
      ensures next.ShardSound(k)
    {
      assert t.ShardSound(k);
      if k == t.home(key) && key !in t.shards[k].index {
        NewEntrySound(t, key, value);
      }
    }
  }

  lemma NewEntrySound<K(!new), V>(t: Striped<K, V>, key: K, value: V)
    requires t.Sound() && t.Interned(key, value).Some? && key !in t.shards[t.home(key)].index
    ensures t.Interned(key, value).value.0.WellShaped() && t.Interned(key, value).value.0.ShardSound(t.home(key))
  {
    var next := t.Interned(key, value).value.0;
    var k := t.home(key);
    var was, now := t.shards[k], next.shards[k];
    assert t.ShardSound(k);
    forall x | x in now.index
      ensures exists j: nat :: j < |now.entries| && now.entries[j].0 == x && Encode(t.word, k, j) == Some(now.index[x])
    {
      if x == key {
        assert now.entries[|was.entries|].0 == x;
      } else {
        var j: nat :| j < |was.entries| && was.entries[j].0 == x && Encode(t.word, k, j) == Some(was.index[x]);
        assert now.entries[j].0 == x;
      }
    }
  }

  /** Interning returns the id the table has for the key from then on. */
  lemma InternFinds<K(!new), V>(t: Striped<K, V>, key: K, value: V)
    requires t.WellShaped() && t.Interned(key, value).Some?
    ensures var (next, id) := t.Interned(key, value).value;
            next.WellShaped() && next.home == t.home && next.word == t.word && next.Find(key) == Some(id)
  {
  }

  /** An id once given is never taken back, nor what it stands for changed. */
  ghost predicate Extends<K(!new), V(!new)>(t: Striped<K, V>, next: Striped<K, V>)
    requires t.WellShaped() && next.WellShaped()
  {
    && next.word == t.word && next.home == t.home
    && (forall key | t.Find(key).Some? :: next.Find(key) == t.Find(key))
    && (forall id | t.Has(id) :: next.Has(id) && next.Get(id) == t.Get(id))
  }

  lemma InternExtends<K(!new), V(!new)>(t: Striped<K, V>, key: K, value: V)
    requires t.WellShaped() && t.Interned(key, value).Some?
    ensures var next := t.Interned(key, value).value.0; next.WellShaped() && Extends(t, next)
  {
  }

  /** A new key's entry carries the value it was interned with, an old key's the one it had. */
  lemma InternValue<K(!new), V(!new)>(t: Striped<K, V>, key: K, value: V)
    requires t.Sound() && t.Interned(key, value).Some? && t.Interned(key, value).value.0.Roomy()
    ensures var (next, id) := t.Interned(key, value).value;
            && next.Has(id) && next.Get(id).0 == key
            && next.Get(id).1 == if t.Find(key).Some? then t.Get(FoundId(t, key)).1 else value
  {
    var (next, id) := t.Interned(key, value).value;
    InternSound(t, key, value);
    InternFinds(t, key, value);
    FoundIsOwn(next, key);
    if t.Find(key).Some? {
      InternExtends(t, key, value);
    } else {
      DecodeInverts(t.word, t.home(key), |t.shards[t.home(key)].entries|);
    }
  }

  ghost function FoundId<K(!new), V>(t: Striped<K, V>, key: K): (id: nat)
    requires t.Sound() && t.Find(key).Some?
    ensures t.Find(key) == Some(id) && t.Has(id) && t.Get(id).0 == key
  {
    FoundIsOwn(t, key);
    t.Find(key).value
  }

  lemma FreshSound<K(!new), V>(word: nat, home: K -> nat)
    requires IsWord(word) && forall key :: home(key) < SHARDS
    ensures Fresh<K, V>(word, home).Sound()
  {
  }

  // ----- what is counted

  /** How many keys the shards have been asked for: the entries made, and those already there. */
  ghost function Lookups<K, V>(shards: seq<Shard<K, V>>): nat {
    if shards == [] then 0
    else
      var last := shards[|shards| - 1];
      Lookups(shards[..|shards| - 1]) + |last.entries| + last.dups
  }

  lemma {:induction false} LookupsChange<K, V>(shards: seq<Shard<K, V>>, k: nat, now: Shard<K, V>)
    requires k < |shards|
    ensures Lookups(shards[k := now]) + |shards[k].entries| + shards[k].dups
            == Lookups(shards) + |now.entries| + now.dups
    decreases |shards|
  {
    var init, changed := shards[..|shards| - 1], shards[k := now];
    if k < |init| {
      LookupsChange(init, k, now);
      assert changed[..|changed| - 1] == init[k := now];
    } else {
      assert changed[..|changed| - 1] == init;
    }
  }

  /** Every interning is counted once, as an entry or as a duplicate. */
  lemma InternCounted<K(!new), V>(t: Striped<K, V>, key: K, value: V)
    requires t.WellShaped() && t.Interned(key, value).Some?
    ensures Lookups(t.Interned(key, value).value.0.shards) == Lookups(t.shards) + 1
  {
    var next := t.Interned(key, value).value.0;
    LookupsChange(t.shards, t.home(key), next.shards[t.home(key)]);
    assert next.shards == t.shards[t.home(key) := next.shards[t.home(key)]];
  }
}
