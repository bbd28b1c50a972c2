/** The tables with one owner: a unit's namespaces as it is parsed, and the interned strings
once the workers are done. */
module InternTables {
  import opened RawTypes
  import opened StripedIds
  import opened StripedTables
  import opened Interning

  /** A unit's namespaces. Ids count from one, so entry `i` is id `i + 1`. */
  class NamespaceTable {
    var entries: seq<LocalSpace>
    var depths: seq<nat>
    var index: map<(Option<nat>, string), nat>

    /** Parents come first, the index is one to one with the entries, and depth counts the
    names on the path. */
    ghost predicate Valid()
      reads this
    {
      Consistent(entries, depths, index)
    }

    constructor ()
      ensures Valid() && entries == []
    {
      entries, depths, index := [], [], map[];
    }

    method Insert(parent: Option<nat>, name: string) returns (id: nat)
      requires Valid() && (parent.Some? ==> 1 <= parent.value <= |entries|)
      modifies this
      ensures Valid() && old(entries) <= entries
      ensures 1 <= id <= |entries| && entries[id - 1] == Local(parent, name)
      ensures Local(parent, name) in old(entries) ==> entries == old(entries)
      ensures Local(parent, name) !in old(entries) ==> entries == old(entries) + [Local(parent, name)]
      ensures IsPathOf(entries, parent, name, id)
    {
      if (parent, name) in index {
        id := index[(parent, name)];
        PathFound(entries, depths, index, parent, name, id);
        return;
      }
      id := |entries| + 1;
      var depth := if parent.Some? then depths[parent.value - 1] + 1 else 1;
      ConsistentOneMore(entries, depths, index, parent, name, depth);
      entries, depths := entries + [Local(parent, name)], depths + [depth];
      index := index[(parent, name) := id];
      PathFound(entries, depths, index, parent, name, id);
    }
  }

  ghost predicate Indexed(entries: seq<LocalSpace>, index: map<(Option<nat>, string), nat>) {
    && (forall i | 0 <= i < |entries| :: Pair(entries[i]) in index && index[Pair(entries[i])] == i + 1)
    && (forall pair | pair in index :: 1 <= index[pair] <= |entries| && Pair(entries[index[pair] - 1]) == pair)
  }

  ghost predicate Consistent(entries: seq<LocalSpace>, depths: seq<nat>, index: map<(Option<nat>, string), nat>) {
    && ParentsFirst(entries)
    && |depths| == |entries|
    && (forall i | 0 <= i < |entries| :: depths[i] == |LocalPath(entries, i)|)
    && Indexed(entries, index)
  }

  lemma IndexedOneMore(entries: seq<LocalSpace>, index: map<(Option<nat>, string), nat>, entry: LocalSpace)
    requires Indexed(entries, index) && Pair(entry) !in index
    ensures Indexed(entries + [entry], index[Pair(entry) := |entries| + 1])
  {
  }

  lemma ConsistentOneMore(entries: seq<LocalSpace>, depths: seq<nat>, index: map<(Option<nat>, string), nat>,
                          parent: Option<nat>, name: string, depth: nat)
    requires Consistent(entries, depths, index) && (parent.Some? ==> 1 <= parent.value <= |entries|)
    requires (parent, name) !in index && depth == if parent.Some? then depths[parent.value - 1] + 1 else 1
    ensures Pair(Local(parent, name)) == (parent, name)
    ensures Consistent(entries + [Local(parent, name)], depths + [depth], index[(parent, name) := |entries| + 1])
  {
    PathsKept(entries, Local(parent, name));
    IndexedOneMore(entries, index, Local(parent, name));
  }

  function Pair(entry: LocalSpace): (Option<nat>, string) {
    (if entry.parent.Some? then Some(entry.parent.value + 1) else None, entry.name)
  }

  function Local(parent: Option<nat>, name: string): LocalSpace
    requires parent.Some? ==> parent.value > 0
  {
    LocalSpace(if parent.Some? then Some(parent.value - 1) else None, name)
  }

  lemma PathsKept(entries: seq<LocalSpace>, entry: LocalSpace)
    requires ParentsFirst(entries) && (entry.parent.Some? ==> entry.parent.value < |entries|)
    ensures ParentsFirst(entries + [entry])
    ensures forall i | 0 <= i < |entries| :: LocalPath(entries + [entry], i) == LocalPath(entries, i)
  {
    forall i | 0 <= i < |entries|
      ensures LocalPath(entries + [entry], i) == LocalPath(entries, i)
    {
      PathKept(entries, entry, i);
    }
  }

  lemma {:induction false} PathKept(entries: seq<LocalSpace>, entry: LocalSpace, i: nat)
    requires ParentsFirst(entries) && ParentsFirst(entries + [entry]) && i < |entries|
    ensures LocalPath(entries + [entry], i) == LocalPath(entries, i)
    decreases i
  {
    if entries[i].parent.Some? {
      PathKept(entries, entry, entries[i].parent.value);
    }
  }

  /** In a unit's table too, an entry is its path. */
  lemma {:induction false} LocalPathIsIdentity(unit: seq<LocalSpace>, i: nat, j: nat)
    requires ParentsFirst(unit) && i < |unit| && j < |unit|
    requires forall a, b | 0 <= a < b < |unit| :: unit[a] != unit[b]
    ensures LocalPath(unit, i) == LocalPath(unit, j) <==> i == j
    decreases i
  {
    if LocalPath(unit, i) == LocalPath(unit, j) {
      var p, q := unit[i].parent, unit[j].parent;
      var above := if p.Some? then LocalPath(unit, p.value) else [];
      var beside := if q.Some? then LocalPath(unit, q.value) else [];
      SplitLast(above, unit[i].name, beside, unit[j].name);
      if p.Some? && q.Some? {
        LocalPathIsIdentity(unit, p.value, q.value);
      }
    }
  }

  /** Entry `id` has the parent's path with `name` behind it, and no other entry has. */
  ghost predicate IsPathOf(entries: seq<LocalSpace>, parent: Option<nat>, name: string, id: nat) {
    && ParentsFirst(entries)
    && 1 <= id <= |entries| && (parent.Some? ==> 1 <= parent.value <= |entries|)
    && LocalPath(entries, id - 1) == (if parent.Some? then LocalPath(entries, parent.value - 1) else []) + [name]
    && forall i | 0 <= i < |entries| && LocalPath(entries, i) == LocalPath(entries, id - 1) :: i == id - 1
  }

  lemma PathFound(entries: seq<LocalSpace>, depths: seq<nat>, index: map<(Option<nat>, string), nat>,
                  parent: Option<nat>, name: string, id: nat)
    requires Consistent(entries, depths, index) && 1 <= id <= |entries|
    requires (parent.Some? ==> 1 <= parent.value <= |entries|) && entries[id - 1] == Local(parent, name)
    ensures IsPathOf(entries, parent, name, id)
  {
    forall a, b | 0 <= a < b < |entries|
      ensures entries[a] != entries[b]
    {
      assert index[Pair(entries[a])] == a + 1 && index[Pair(entries[b])] == b + 1;
    }
    forall i | 0 <= i < |entries| && LocalPath(entries, i) == LocalPath(entries, id - 1)
      ensures i == id - 1
    {
      LocalPathIsIdentity(entries, i, id - 1);
    }
  }

  /** Interned strings with the locks gone. */
  class FrozenStrings {
    var table: Strings

    ghost predicate Valid()
      reads this
    {
      table.Sound() && table.word == STRING_WORD
    }

    /** What freezing hands over: the shards as the workers left them. */
    constructor (table: Strings)
      requires table.Sound() && table.word == STRING_WORD
      ensures Valid() && this.table == table
    {
      this.table := table;
    }

    /** The id found from then on. Past the last index of a shard the id is some other string's,
    or there is none to give. */
    method Intern(s: string) returns (id: Option<nat>)
      requires Valid()
      modifies this
      ensures HasRoom(old(table), s) ==> Valid() && Extends(old(table), table) && id.Some? && table.Find(s) == id
      ensures !HasRoom(old(table), s) && id.Some? ==> old(table).Has(id.value) && old(table).Get(id.value).0 != s
      ensures id.None? ==> table == old(table) && !HasRoom(table, s)
    {
      if HasRoom(table, s) {
        RoomForOne(table, s);
        InternSound(table, s, ());
        InternExtends(table, s, ());
        InternFinds(table, s, ());
      } else {
        NoRoom(table, s);
      }
      var next := table.Interned(s, ());
      if next.None? {
        return None;
      }
      table, id := next.value.0, Some(next.value.1);
    }

    /** An id from this table leads back to the string it was given for. */
    method Get(id: nat) returns (s: string)
      requires Valid() && table.Has(id)
      ensures table.Find(s) == Some(id)
    {
      s := table.Get(id).0;
      HasWithin(table, id);
      GetInverts(table, id);
    }

    method Find(s: string) returns (id: Option<nat>)
      requires Valid()
      ensures id.Some? ==> table.Has(id.value) && table.Get(id.value).0 == s
      ensures id.None? ==> forall i | table.Has(i) :: table.Get(i).0 != s
    {
      id := table.Find(s);
      if id.Some? {
        FoundIsOwn(table, s);
      } else {
        forall i | table.Has(i)
          ensures table.Get(i).0 != s
        {
          HasWithin(table, i);
          GetInverts(table, i);
        }
      }
    }
  }

  /** The string is there already, or the next index of its shard fits an id. */
  predicate HasRoom(table: Strings, s: string)
    requires table.home(s) < |table.shards|
  {
    table.Find(s).Some? || Fits(table.word, table.home(s), |table.shards[table.home(s)].entries|)
  }

  /** While its next index fits, a shard takes one more string. */
  lemma RoomForOne(table: Strings, s: string)
    requires table.Sound() && HasRoom(table, s)
    ensures table.Interned(s, ()).Some? && table.Interned(s, ()).value.0.Roomy()
  {
    var k := table.home(s);
    DecodeInverts(table.word, k, |table.shards[k].entries|);
  }

  lemma NoRoom(table: Strings, s: string)
    requires table.Sound() && !HasRoom(table, s)
    ensures var next := table.Interned(s, ());
            next.Some? ==> table.Has(next.value.1) && table.Get(next.value.1).0 != s
  {
    var k := table.home(s);
    var n := |table.shards[k].entries|;
    assert table.ShardSound(k);
    if Encode(table.word, k, n).Some? {
      RawWithin(table.word, k, n);
      assert n > 0 ==> Fits(table.word, k, n - 1);
      OverflowCollides(table.word, k, n);
      DecodeInverts(table.word, k, 0);
    }
  }
}
