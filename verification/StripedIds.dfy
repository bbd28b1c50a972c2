/** Ids that name a shard in their low bits and an index into it above them, offset by one so
that no id is zero. */
module StripedIds {
  import opened RawTypes
  import opened Arithmetic

  const SHARDS := 256

  /** What the machine word of a string id, and of a namespace id, can hold. */
  const STRING_WORD := 0x1_0000_0000
  const NAMESPACE_WORD := 0x1_0000_0000_0000_0000

  predicate IsWord(word: nat) {
    word == STRING_WORD || word == NAMESPACE_WORD
  }

  /** The id of the `local`th entry of a shard: the index is cut to the word and shifted, and
  the sum that would be zero is refused. */
  function Encode(word: nat, shard: nat, local: nat): Option<nat>
    requires IsWord(word) && shard < SHARDS
  {
    var raw := (local % word * SHARDS) % word + shard;
    if raw + 1 == word then None else Some(raw + 1)
  }

  function Decode(id: nat): (nat, nat)
    requires id > 0
  {
    ((id - 1) % SHARDS, (id - 1) / SHARDS)
  }

  /** The index and the shard fit the word, and are not the one pair whose id would be zero. */
  predicate Fits(word: nat, shard: nat, local: nat) {
    local < word / SHARDS && !(local == word / SHARDS - 1 && shard == SHARDS - 1)
  }

  lemma RawWithin(word: nat, shard: nat, local: nat)
    requires IsWord(word) && shard < SHARDS
    ensures var low := local % (word / SHARDS);
            Encode(word, shard, local)
            == if low * SHARDS + shard + 1 == word then None else Some(low * SHARDS + shard + 1)
  {
    var q := word / SHARDS;
    ScaledMod(local % word, q, SHARDS);
    ModOfMod(local, word, q, SHARDS);
  }

  /** Decoding gives back what was encoded exactly when it fits. */
  lemma DecodeInverts(word: nat, shard: nat, local: nat)
    requires IsWord(word) && shard < SHARDS
    ensures Encode(word, shard, local).Some? && Encode(word, shard, local).value > 0
            && Decode(Encode(word, shard, local).value) == (shard, local)
            <==> Fits(word, shard, local)
  {
    RawWithin(word, shard, local);
    var low := local % (word / SHARDS);
    assert (low * SHARDS + shard) % SHARDS == shard && (low * SHARDS + shard) / SHARDS == low;
    assert low < word / SHARDS;
  }

  /** Past the word, an entry gets the id of an earlier one of its shard. */
  lemma OverflowCollides(word: nat, shard: nat, local: nat)
    requires IsWord(word) && shard < SHARDS && local >= word / SHARDS
    ensures Encode(word, shard, local) == Encode(word, shard, local - word / SHARDS)
  {
    RawWithin(word, shard, local);
    RawWithin(word, shard, local - word / SHARDS);
    OneTurnLess(local, word / SHARDS);
  }

  /** And the other way: an id decodes to a pair that encodes to it. */
  lemma EncodeInverts(word: nat, id: nat)
    requires IsWord(word) && 0 < id < word
    ensures Encode(word, Decode(id).0, Decode(id).1) == Some(id)
  {
    RawWithin(word, Decode(id).0, Decode(id).1);
  }

  /** A shard takes 2^24 strings or 2^56 namespaces, the last shard one fewer of each. */
  lemma RoomInShard(shard: nat, local: nat)
    requires shard < 256
    ensures Fits(STRING_WORD, shard, local) <==> local < 0x100_0000 - (if shard == 255 then 1 else 0)
    ensures Fits(NAMESPACE_WORD, shard, local) <==> local < 0x100_0000_0000_0000 - (if shard == 255 then 1 else 0)
  {
  }
}
