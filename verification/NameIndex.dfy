/** Looking types up by name: a binary search over a sorted index, and one over the hashes of
normalized names, against a scan of every row. */
module NameIndex {
  import opened RawTypes
  import opened Collections
  import opened Sorting

  /** A text by its place in byte order, the empty text being zero. */
  type Text = nat

  /** A string ref and the type it names. */
  type Row = (nat, nat)

  function TextAt(strings: seq<Text>, r: nat): Option<Text> {
    if r < |strings| then Some(strings[r]) else None
  }

  /** What the search compares by; a ref to nothing reads as the empty text. */
  function KeyText(strings: seq<Text>, row: Row): Text {
    if TextAt(strings, row.0).Some? then TextAt(strings, row.0).value else 0
  }

  // ----- the scan

  /** The positions below `n` that `hit` accepts, in order. */
  function Scan(hit: nat -> bool, n: nat): (r: seq<nat>)
    ensures forall p: nat :: p in r <==> p < n && hit(p)
    ensures forall i | 0 <= i < |r| :: r[i] < n
    ensures forall i, j | 0 <= i < j < |r| :: r[i] < r[j]
  {
    if n == 0 then [] else Scan(hit, n - 1) + (if hit(n - 1) then [n - 1] else [])
  }

  function IdsAt(rows: seq<Row>, positions: seq<nat>): seq<nat>
    requires forall i | 0 <= i < |positions| :: positions[i] < |rows|
  {
    seq(|positions|, i requires 0 <= i < |positions| => rows[positions[i]].1)
  }

  predicate Named(strings: seq<Text>, rows: seq<Row>, name: Text, p: nat) {
    p < |rows| && rows[p].0 < |strings| && strings[rows[p].0] == name
  }

  function NamedHit(strings: seq<Text>, rows: seq<Row>, name: Text): nat -> bool {
    (p: nat) => Named(strings, rows, name, p)
  }

  /** What a scan of the whole index for a name finds. */
  function NamedRows(strings: seq<Text>, rows: seq<Row>, name: Text): seq<nat> {
    IdsAt(rows, Scan(NamedHit(strings, rows, name), |rows|))
  }

  predicate Alike(strings: seq<Text>, rows: seq<Row>, same: (Text, Text) -> bool, name: Text, p: nat) {
    p < |rows| && rows[p].0 < |strings| && same(strings[rows[p].0], name)
  }

  function AlikeHit(strings: seq<Text>, rows: seq<Row>, same: (Text, Text) -> bool, name: Text): nat -> bool {
    (p: nat) => Alike(strings, rows, same, name, p)
  }

  function AlikeRows(strings: seq<Text>, rows: seq<Row>, same: (Text, Text) -> bool, name: Text): seq<nat> {
    IdsAt(rows, Scan(AlikeHit(strings, rows, same, name), |rows|))
  }

  lemma ScanUnique(hit: nat -> bool, n: nat, positions: seq<nat>)
    requires forall i, j | 0 <= i < j < |positions| :: positions[i] < positions[j]
    requires forall p: nat :: p in positions <==> p < n && hit(p)
    ensures positions == Scan(hit, n)
  {
    AscendingOnce(positions, Scan(hit, n), (x: nat) => x);
  }

  // ----- by name

  ghost predicate Ordered(strings: seq<Text>, rows: seq<Row>) {
    forall i, j | 0 <= i < j < |rows| :: KeyText(strings, rows[i]) <= KeyText(strings, rows[j])
  }

  /** No ref to nothing comes before one to the empty text, which it is filed with. */
  ghost predicate EmptyFirst(strings: seq<Text>, rows: seq<Row>) {
    forall i, j | 0 <= i < j < |rows| && TextAt(strings, rows[i].0).None? :: TextAt(strings, rows[j].0) != Some(0)
  }

  /** The binary search returns the matching rows of one run in index order: all there are, unless
  it is the empty text that is looked for and a ref to nothing stands in the way. */
  method FindByName(strings: seq<Text>, rows: seq<Row>, name: Text) returns (ids: seq<nat>)
    requires Ordered(strings, rows)
    ensures ids == NamedRows(strings, rows, name) <==> name != 0 || EmptyFirst(strings, rows)
    ensures ids <= NamedRows(strings, rows, name)
  {
    var at := PartitionPoint(rows, (row: Row) => KeyText(strings, row) < name);
    ids := [];
    ghost var found: seq<nat> := [];
    ghost var lo := at;
    while at < |rows| && TextAt(strings, rows[at].0) == Some(name)
      invariant lo <= at <= |rows|
      invariant |found| == at - lo && forall i | 0 <= i < |found| :: found[i] == lo + i
      invariant forall p: nat | lo <= p < at :: Named(strings, rows, name, p)
      invariant ids == IdsAt(rows, found)
    {
      ids, found, at := ids + [rows[at].1], found + [at], at + 1;
    }
    RunIsScan(strings, rows, name, lo, at, found);
  }

  lemma {:induction false} ScanStarts(hit: nat -> bool, lo: nat, hi: nat, n: nat, found: seq<nat>)
    requires lo <= hi <= n && (forall p: nat | p < lo :: !hit(p)) && (forall p: nat | lo <= p < hi :: hit(p))
    requires |found| == hi - lo && forall i | 0 <= i < |found| :: found[i] == lo + i
    ensures found <= Scan(hit, n)
    decreases n
  {
    if hi < n {
      ScanStarts(hit, lo, hi, n - 1, found);
    } else {
      RunHas(lo, hi, found);
      ScanUnique(hit, n, found);
    }
  }

  lemma RunHas(lo: nat, hi: nat, found: seq<nat>)
    requires lo <= hi && |found| == hi - lo && forall i | 0 <= i < |found| :: found[i] == lo + i
    ensures forall p: nat :: p in found <==> lo <= p < hi
  {
    forall p: nat | lo <= p < hi
      ensures p in found
    {
      assert found[p - lo] == p;
    }
  }

  lemma SomeMissed(strings: seq<Text>, rows: seq<Row>, lo: nat, hi: nat, found: seq<nat>)
    requires lo <= hi <= |rows| && !EmptyFirst(strings, rows)
    requires forall p: nat | lo <= p < hi :: Named(strings, rows, 0, p)
    requires forall i | 0 <= i < |rows| :: KeyText(strings, rows[i]) < 0 <==> i < lo
    requires forall p: nat :: p in found <==> lo <= p < hi
    ensures found != Scan(NamedHit(strings, rows, 0), |rows|)
  {
    var i, j :| 0 <= i < j < |rows| && TextAt(strings, rows[i].0).None? && TextAt(strings, rows[j].0) == Some(0);
    assert !Named(strings, rows, 0, i) && hi <= i;
    assert NamedHit(strings, rows, 0)(j) && j in Scan(NamedHit(strings, rows, 0), |rows|);
  }

  lemma RunIsScan(strings: seq<Text>, rows: seq<Row>, name: Text, lo: nat, hi: nat, found: seq<nat>)
    requires Ordered(strings, rows) && lo <= hi <= |rows|
    requires forall i | 0 <= i < |rows| :: KeyText(strings, rows[i]) < name <==> i < lo
    requires forall p: nat | lo <= p < hi :: Named(strings, rows, name, p)
    requires hi < |rows| ==> TextAt(strings, rows[hi].0) != Some(name)
    requires |found| == hi - lo && forall i | 0 <= i < |found| :: found[i] == lo + i
    ensures found <= Scan(NamedHit(strings, rows, name), |rows|)
    ensures found == Scan(NamedHit(strings, rows, name), |rows|) <==> name != 0 || EmptyFirst(strings, rows)
  {
    var hit := NamedHit(strings, rows, name);
    ScanStarts(hit, lo, hi, |rows|, found);
    RunHas(lo, hi, found);
    if name != 0 || EmptyFirst(strings, rows) {
      forall p: nat
        ensures p in found <==> p < |rows| && hit(p)
      {
        NamedInRun(strings, rows, name, lo, hi, p);
      }
      ScanUnique(hit, |rows|, found);
    } else {
      SomeMissed(strings, rows, lo, hi, found);
    }
  }

  lemma NamedInRun(strings: seq<Text>, rows: seq<Row>, name: Text, lo: nat, hi: nat, p: nat)
    requires Ordered(strings, rows) && lo <= hi <= |rows| && (name != 0 || EmptyFirst(strings, rows))
    requires forall i | 0 <= i < |rows| :: KeyText(strings, rows[i]) < name <==> i < lo
    requires forall q: nat | lo <= q < hi :: Named(strings, rows, name, q)
    requires hi < |rows| ==> TextAt(strings, rows[hi].0) != Some(name)
    ensures Named(strings, rows, name, p) <==> lo <= p < hi
  {
    if hi <= p < |rows| {
      assert KeyText(strings, rows[hi]) >= name;
      assert hi < p ==> KeyText(strings, rows[hi]) <= KeyText(strings, rows[p]);
    }
  }

  // ----- by normalized name

  /** One entry per row with a name: its hash and its position, in order. */
  ghost predicate Hashed(strings: seq<Text>, rows: seq<Row>, hash: Text -> nat, index: seq<Key>) {
    && (forall i, j | 0 <= i < j < |index| :: Less(index[i], index[j]))
    && (forall k: Key :: k in index <==>
          k.1 < |rows| && TextAt(strings, rows[k.1].0).Some? && k.0 == hash(TextAt(strings, rows[k.1].0).value))
  }

  /** The entries of the rows before `n`, in row order. */
  ghost predicate HashedUpTo(strings: seq<Text>, rows: seq<Row>, hash: Text -> nat, index: seq<Key>, n: nat)
    requires n <= |rows|
  {
    && (forall i, j | 0 <= i < j < |index| :: index[i].1 < index[j].1)
    && (forall k: Key :: k in index <==>
          k.1 < n && TextAt(strings, rows[k.1].0).Some? && k.0 == hash(TextAt(strings, rows[k.1].0).value))
  }

  lemma HashedOneMore(strings: seq<Text>, rows: seq<Row>, hash: Text -> nat, index: seq<Key>, n: nat)
    requires n < |rows| && HashedUpTo(strings, rows, hash, index, n)
    ensures var text := TextAt(strings, rows[n].0);
            HashedUpTo(strings, rows, hash, if text.Some? then index + [(hash(text.value), n)] else index, n + 1)
  {
    assert forall i | 0 <= i < |index| :: index[i] in index;
  }

  lemma HashedSorted(strings: seq<Text>, rows: seq<Row>, hash: Text -> nat, index: seq<Key>)
    requires HashedUpTo(strings, rows, hash, index, |rows|)
    ensures Hashed(strings, rows, hash, SortBy(index, Itself))
  {
    assert Distinct(index, Itself);
    var sorted := SortBy(index, Itself);
    forall i, j | 0 <= i < j < |sorted|
      ensures Less(sorted[i], sorted[j])
    {
      assert Itself(sorted[i]) != Itself(sorted[j]) && !Less(Itself(sorted[j]), Itself(sorted[i]));
    }
  }

  class TypeTable {
    const strings: seq<Text>
    const hash: Text -> nat
    const same: (Text, Text) -> bool
    var nameIndex: seq<Row>
    var byNormalizedName: seq<Key>

    constructor (strings: seq<Text>, hash: Text -> nat, same: (Text, Text) -> bool, nameIndex: seq<Row>)
      ensures this.strings == strings && this.hash == hash && this.same == same && this.nameIndex == nameIndex
    {
      this.strings, this.hash, this.same, this.nameIndex := strings, hash, same, nameIndex;
      byNormalizedName := [];
    }

    /** The hashes of all the names there are, sorted with their positions. */
    method BuildNormalizedIndex()
      modifies this`byNormalizedName
      ensures Hashed(strings, nameIndex, hash, byNormalizedName)
    {
      var index: seq<Key> := [];
      for p := 0 to |nameIndex|
        invariant HashedUpTo(strings, nameIndex, hash, index, p)
      {
        HashedOneMore(strings, nameIndex, hash, index, p);
        var text := TextAt(strings, nameIndex[p].0);
        if text.Some? {
          index := index + [(hash(text.value), p)];
        }
      }
      HashedSorted(strings, nameIndex, hash, index);
      byNormalizedName := SortBy(index, Itself);
    }

    /** Names that are the same hash alike. */
    ghost predicate Consistent() {
      forall a: Text, b: Text | same(a, b) :: hash(a) == hash(b)
    }

    /** The hash search returns what filtering every row by sameness would, in the same order. */
    method FindByNormalizedName(name: Text) returns (ids: seq<nat>)
      requires Consistent() && Hashed(strings, nameIndex, hash, byNormalizedName)
      ensures ids == AlikeRows(strings, nameIndex, same, name)
    {
      var target := hash(name);
      var start := PartitionPoint(byNormalizedName, (key: Key) => key.0 < target);
      ghost var end, found;
      HashedRows(strings, nameIndex, hash, byNormalizedName);
      ids, end, found := CollectAlike(strings, nameIndex, same, byNormalizedName, name, start, hash(name));
      RunIsAlike(strings, nameIndex, hash, same, byNormalizedName, name, start, end, found);
    }
  }

  /** Every entry leads to a row with a name. */
  ghost predicate LeadsToRows(strings: seq<Text>, rows: seq<Row>, index: seq<Key>) {
    forall i | 0 <= i < |index| :: index[i].1 < |rows| && TextAt(strings, rows[index[i].1].0).Some?
  }

  lemma HashedRows(strings: seq<Text>, rows: seq<Row>, hash: Text -> nat, index: seq<Key>)
    requires Hashed(strings, rows, hash, index)
    ensures LeadsToRows(strings, rows, index)
  {
    forall i | 0 <= i < |index|
      ensures index[i].1 < |rows| && TextAt(strings, rows[index[i].1].0).Some?
    {
      assert index[i] in index;
    }
  }

  ghost predicate ListsIds(rows: seq<Row>, found: seq<nat>, ids: seq<nat>) {
    (forall i | 0 <= i < |found| :: found[i] < |rows|) && ids == IdsAt(rows, found)
  }

  lemma ListsOneMore(rows: seq<Row>, found: seq<nat>, ids: seq<nat>, p: nat)
    requires ListsIds(rows, found, ids) && p < |rows|
    ensures ListsIds(rows, found + [p], ids + [rows[p].1])
  {
  }

  /** The rows of one hash's run that are the same as `name`. */
  method CollectAlike(strings: seq<Text>, rows: seq<Row>, same: (Text, Text) -> bool, index: seq<Key>, name: Text,
                      start: nat, target: nat)
    returns (ids: seq<nat>, ghost end: nat, ghost found: seq<nat>)
    requires start <= |index| && LeadsToRows(strings, rows, index)
    requires forall i, j | 0 <= i < j < |index| :: Less(index[i], index[j])
    ensures start <= end <= |index| && (end < |index| ==> index[end].0 != target)
    ensures forall i | start <= i < end :: index[i].0 == target
    ensures Filtered(index, start, end, found, AlikeHit(strings, rows, same, name))
    ensures ListsIds(rows, found, ids)
  {
    var at := start;
    ids, found := [], [];
    while at < |index| && index[at].0 == target
      invariant start <= at <= |index|
      invariant forall i | start <= i < at :: index[i].0 == target
      invariant Filtered(index, start, at, found, AlikeHit(strings, rows, same, name))
      invariant ListsIds(rows, found, ids)
    {
      FilteredOneMore(index, start, at, found, AlikeHit(strings, rows, same, name));
      var p := index[at].1;
      ListsOneMore(rows, found, ids, p);
      if same(TextAt(strings, rows[p].0).value, name) {
        ids, found := ids + [rows[p].1], found + [p];
      }
      at := at + 1;
    }
    end := at;
  }

  /** The positions of a stretch of the index that `hit` accepts, in order. */
  ghost predicate Filtered(index: seq<Key>, lo: nat, hi: nat, found: seq<nat>, hit: nat -> bool)
    requires lo <= hi <= |index|
  {
    && (forall i, j | 0 <= i < j < |found| :: found[i] < found[j])
    && (forall p: nat :: p in found <==> exists i :: lo <= i < hi && index[i].1 == p && hit(p))
  }

  lemma FilteredOneMore(index: seq<Key>, lo: nat, at: nat, found: seq<nat>, hit: nat -> bool)
    requires lo <= at < |index| && Filtered(index, lo, at, found, hit)
    requires forall i, j | 0 <= i < j < |index| :: Less(index[i], index[j])
    requires forall i | lo <= i <= at :: index[i].0 == index[at].0
    ensures Filtered(index, lo, at + 1, if hit(index[at].1) then found + [index[at].1] else found, hit)
  {
    var p := index[at].1;
    var more := if hit(p) then found + [p] else found;
    forall i | 0 <= i < |found|
      ensures found[i] < p
    {
      assert found[i] in found;
      var j :| lo <= j < at && index[j].1 == found[i] && hit(found[i]);
      assert Less(index[j], index[at]);
    }
    forall q: nat
      ensures q in more <==> exists i :: lo <= i < at + 1 && index[i].1 == q && hit(q)
    {
      if q in found {
        var j :| lo <= j < at && index[j].1 == q && hit(q);
      }
    }
  }

  lemma RunIsAlike(strings: seq<Text>, rows: seq<Row>, hash: Text -> nat, same: (Text, Text) -> bool, index: seq<Key>,
                   name: Text, lo: nat, hi: nat, found: seq<nat>)
    requires forall a: Text, b: Text | same(a, b) :: hash(a) == hash(b)
    requires Hashed(strings, rows, hash, index) && lo <= hi <= |index|
    requires forall i | 0 <= i < |index| :: index[i].0 < hash(name) <==> i < lo
    requires forall i | lo <= i < hi :: index[i].0 == hash(name)
    requires hi < |index| ==> index[hi].0 != hash(name)
    requires Filtered(index, lo, hi, found, AlikeHit(strings, rows, same, name))
    ensures found == Scan(AlikeHit(strings, rows, same, name), |rows|)
  {
    forall p: nat
      ensures p in found <==> p < |rows| && Alike(strings, rows, same, name, p)
    {
      if Alike(strings, rows, same, name, p) {
        var i := AlikeInRun(strings, rows, hash, same, index, name, lo, hi, p);
      }
    }
    ScanUnique(AlikeHit(strings, rows, same, name), |rows|, found);
  }

  lemma AlikeInRun(strings: seq<Text>, rows: seq<Row>, hash: Text -> nat, same: (Text, Text) -> bool, index: seq<Key>,
                   name: Text, lo: nat, hi: nat, p: nat) returns (i: nat)
    requires forall a: Text, b: Text | same(a, b) :: hash(a) == hash(b)
    requires Hashed(strings, rows, hash, index) && lo <= hi <= |index|
    requires forall i | 0 <= i < |index| :: index[i].0 < hash(name) <==> i < lo
    requires hi < |index| ==> index[hi].0 != hash(name)
    requires Alike(strings, rows, same, name, p)
    ensures lo <= i < hi && index[i].1 == p
  {
    var k := (hash(name), p);
    assert k in index;
    i :| 0 <= i < |index| && index[i] == k;
  }

  // ----- the check of a loaded index

  /** The first `m` positions are below `n`, each there once. */
  ghost predicate OnceUpTo(index: seq<Key>, m: nat, n: nat)
    requires m <= |index|
  {
    && (forall i | 0 <= i < m :: index[i].1 < n)
    && (forall i, j | 0 <= i < j < m :: index[i].1 != index[j].1)
  }

  ghost predicate OnceEach(index: seq<Key>, n: nat) {
    OnceUpTo(index, |index|, n)
  }

  ghost predicate RiseUpTo(index: seq<Key>, m: nat)
    requires m <= |index|
  {
    forall i, j | 0 <= i < j < m :: index[i].0 <= index[j].0
  }

  ghost predicate HashesRise(index: seq<Key>) {
    RiseUpTo(index, |index|)
  }

  lemma RiseOneMore(index: seq<Key>, m: nat)
    requires m < |index| && RiseUpTo(index, m) && (m > 0 ==> index[m - 1].0 <= index[m].0)
    ensures RiseUpTo(index, m + 1)
  {
  }

  /** As many entries as rows, hashes in order, each position once. */
  method CheckNormalizedIndex(index: seq<Key>, n: nat) returns (ok: bool)
    ensures ok <==> |index| == n && HashesRise(index) && OnceEach(index, n)
  {
    if |index| != n {
      return false;
    }
    var seen := new bool[n](_ => false);
    for i := 0 to |index|
      invariant RiseUpTo(index, i) && OnceUpTo(index, i, n)
      invariant forall p | 0 <= p < n :: seen[p] <==> exists j :: 0 <= j < i && index[j].1 == p
    {
      if i > 0 && index[i - 1].0 > index[i].0 {
        return false;
      }
      RiseOneMore(index, i);
      var p := index[i].1;
      if p >= n || seen[p] {
        return false;
      }
      seen[p] := true;
    }
    return true;
  }

  lemma {:induction false} PositionsCount(index: seq<Key>, n: nat)
    requires OnceEach(index, n)
    ensures |(set k | k in index :: k.1)| == |index|
  {
    if index != [] {
      var init, last := index[..|index| - 1], index[|index| - 1];
      PositionsCount(init, n);
      assert index == init + [last];
      assert (set k | k in index :: k.1) == (set k | k in init :: k.1) + {last.1};
    }
  }

  /** So an accepted index covers every row. */
  lemma CheckedCovers(index: seq<Key>, n: nat, p: nat)
    requires |index| == n && OnceEach(index, n) && p < n
    ensures exists i :: 0 <= i < |index| && index[i].1 == p
  {
    PositionsCount(index, n);
    var positions := set k | k in index :: k.1;
    var all := Upto(n);
    assert positions <= all;
    if p !in positions {
      Smaller(positions, all);
    }
    var k :| k in index && k.1 == p;
  }

  ghost function Upto(n: nat): (r: set<nat>)
    ensures forall i: nat :: i in r <==> i < n
    ensures |r| == n
  {
    if n == 0 then {} else Upto(n - 1) + {n - 1}
  }
}
