/** Workers interning strings and namespaces at once. Each step is one hold of one lock or one
local action, and steps of different workers come in any order. */
module Interning {
  import opened RawTypes
  import opened StripedIds
  import opened StripedTables

  /** A namespace as its unit lists it: under an earlier entry, or at the root. */
  datatype LocalSpace = LocalSpace(parent: Option<nat>, name: string)

  /** Every parent index is below its child's, so interning in order finds parents done. */
  predicate ParentsFirst(unit: seq<LocalSpace>) {
    forall i | 0 <= i < |unit| && unit[i].parent.Some? :: unit[i].parent.value < i
  }

  /** The full path of a unit's entry. */
  function LocalPath(unit: seq<LocalSpace>, i: nat): seq<string>
    requires ParentsFirst(unit) && i < |unit|
  {
    (if unit[i].parent.Some? then LocalPath(unit, unit[i].parent.value) else []) + [unit[i].name]
  }

  type SpaceKey = (Option<nat>, nat)

  /** Where a worker is in interning its next namespace. */
  datatype Phase =
    | Ready
    | Fetched(text: string, id: nat)
    | Named(id: nat)
    | Missed(id: nat)
    | Measured(id: nat, depth: nat)

  /** A worker with its unit, the ids it has cached, and the global ids of the entries done. */
  datatype Worker = Worker(unit: seq<LocalSpace>, cache: map<string, nat>, remap: seq<nat>, phase: Phase)
  {
    predicate Shaped() {
      && ParentsFirst(unit)
      && |remap| <= |unit|
      && (phase.Named? || phase.Missed? || phase.Measured? ==> |remap| < |unit|)
    }

    function ParentOf(i: nat): Option<nat>
      requires Shaped() && i < |unit| && i <= |remap|
    {
      if unit[i].parent.Some? then Some(remap[unit[i].parent.value]) else None
    }

    /** What the entry in hand is interned as, its name being `name`. */
    function NextKey(name: nat): SpaceKey
      requires Shaped() && |remap| < |unit|
    {
      (ParentOf(|remap|), name)
    }

    function Done(id: nat): Worker {
      this.(remap := remap + [id], phase := Ready)
    }
  }

  type Strings = Striped<string, ()>
  type Spaces = Striped<SpaceKey, nat>

  datatype System = System(strings: Strings, spaces: Spaces, workers: seq<Worker>)
  {
    ghost predicate Shaped() {
      && strings.WellShaped() && strings.word == STRING_WORD
      && spaces.WellShaped() && spaces.word == NAMESPACE_WORD
      && forall w | 0 <= w < |workers| :: workers[w].Shaped()
    }

    ghost predicate Roomy() {
      strings.Roomy() && spaces.Roomy()
    }
  }

  datatype Step = Fetch(text: string) | Store | Recall | Check | Measure | Insert

  ghost predicate Initial(s: System) {
    && s.strings == Fresh(STRING_WORD, s.strings.home) && s.spaces == Fresh(NAMESPACE_WORD, s.spaces.home)
    && s.Shaped()
    && forall w | 0 <= w < |s.workers| :: s.workers[w] == Worker(s.workers[w].unit, map[], [], Ready)
  }

  /** The depth a child of `parent` gets; the parent's own is read under its shard's lock. */
  function ChildDepth(spaces: Spaces, parent: Option<nat>): Option<nat> {
    match parent
    case None => Some(1)
    case Some(p) => if spaces.Has(p) then Some(spaces.Get(p).1 + 1) else None
  }

  /** One step of one worker. A string missed in the cache is interned and only then cached; a
  namespace is looked up, its parent's depth read, and the entry made, three separate holds. */
  ghost predicate Steps(s: System, w: nat, step: Step, t: System)
    requires s.Shaped() && w < |s.workers|
  {
    var worker := s.workers[w];
    match step
    case Fetch(text) =>
      && worker.phase == Ready && text !in worker.cache
      && s.strings.Interned(text, ()).Some?
      && var (strings, id) := s.strings.Interned(text, ()).value;
         t == System(strings, s.spaces, s.workers[w := worker.(phase := Fetched(text, id))])
    case Store =>
      && worker.phase.Fetched?
      && t == s.(workers := s.workers[w := worker.(cache := worker.cache[worker.phase.text := worker.phase.id],
                                                   phase := Ready)])
    case Recall =>
      && worker.phase == Ready && |worker.remap| < |worker.unit|
      && var name := worker.unit[|worker.remap|].name;
         && name in worker.cache
         && t == s.(workers := s.workers[w := worker.(phase := Named(worker.cache[name]))])
    case Check =>
      && worker.phase.Named?
      && var found := s.spaces.Find(worker.NextKey(worker.phase.id));
         t == s.(workers := s.workers[w := if found.Some? then worker.Done(found.value)
                                           else worker.(phase := Missed(worker.phase.id))])
    case Measure =>
      && worker.phase.Missed?
      && var depth := ChildDepth(s.spaces, worker.NextKey(worker.phase.id).0);
         && depth.Some?
         && t == s.(workers := s.workers[w := worker.(phase := Measured(worker.phase.id, depth.value))])
    case Insert =>
      && worker.phase.Measured?
      && var key := worker.NextKey(worker.phase.id);
         && s.spaces.Interned(key, worker.phase.depth).Some?
         && var (spaces, id) := s.spaces.Interned(key, worker.phase.depth).value;
            t == System(s.strings, spaces, s.workers[w := worker.Done(id)])
  }

  // ----- what every state keeps

  /** A name's id is the one the string table has for it. */
  ghost predicate Known(strings: Strings, text: string, id: nat)
    requires strings.WellShaped()
  {
    strings.Find(text) == Some(id)
  }

  /** An entry hangs under an entry there is, one deeper. */
  ghost predicate Rooted(strings: Strings, spaces: Spaces, id: nat)
    requires spaces.Has(id)
  {
    var ((parent, name), depth) := spaces.Get(id);
    && 0 < id < spaces.word
    && strings.Has(name) && name < strings.word
    && ChildDepth(spaces, parent) == Some(depth)
    && (parent.Some? ==> parent.value < spaces.word)
  }

  ghost predicate AllRooted(strings: Strings, spaces: Spaces) {
    forall id | spaces.Has(id) :: Rooted(strings, spaces, id)
  }

  /** The `i`th entry of a unit has been given the global id of its parent's path and its name. */
  ghost predicate Remapped(strings: Strings, spaces: Spaces, worker: Worker, i: nat)
    requires strings.WellShaped() && worker.Shaped() && i < |worker.remap|
  {
    && spaces.Has(worker.remap[i]) && worker.remap[i] < spaces.word
    && spaces.Get(worker.remap[i]).0.0 == worker.ParentOf(i)
    && Known(strings, worker.unit[i].name, spaces.Get(worker.remap[i]).0.1)
  }

  ghost predicate PhaseSound(strings: Strings, spaces: Spaces, worker: Worker)
    requires strings.WellShaped() && worker.Shaped()
  {
    match worker.phase
    case Ready => true
    case Fetched(text, id) => Known(strings, text, id)
    case Named(id) => Known(strings, worker.unit[|worker.remap|].name, id)
    case Missed(id) => Known(strings, worker.unit[|worker.remap|].name, id)
    case Measured(id, depth) =>
      && Known(strings, worker.unit[|worker.remap|].name, id)
      && ChildDepth(spaces, worker.ParentOf(|worker.remap|)) == Some(depth)
  }

  ghost predicate WorkerSound(strings: Strings, spaces: Spaces, worker: Worker)
    requires strings.WellShaped() && worker.Shaped()
  {
    && (forall text | text in worker.cache :: Known(strings, text, worker.cache[text]))
    && (forall i | 0 <= i < |worker.remap| :: Remapped(strings, spaces, worker, i))
    && PhaseSound(strings, spaces, worker)
  }

  ghost predicate Sound(s: System) {
    && s.Shaped()
    && s.strings.Sound() && s.spaces.Sound() && AllRooted(s.strings, s.spaces)
    && forall w | 0 <= w < |s.workers| :: WorkerSound(s.strings, s.spaces, s.workers[w])
  }

  lemma StepShaped(s: System, w: nat, step: Step, t: System)
    requires s.Shaped() && w < |s.workers| && Steps(s, w, step, t)
    ensures t.Shaped() && Extends(s.strings, t.strings) && Extends(s.spaces, t.spaces)
  {
    if step.Fetch? {
      InternExtends(s.strings, step.text, ());
    } else if step.Insert? {
      var worker := s.workers[w];
      InternExtends(s.spaces, worker.NextKey(worker.phase.id), worker.phase.depth);
    }
  }

  lemma StepRooms(s: System, w: nat, step: Step, t: System)
    requires s.Shaped() && w < |s.workers| && Steps(s, w, step, t) && t.Roomy()
    ensures s.Roomy()
  {
    if step.Fetch? {
      InternRooms(s.strings, step.text, ());
    } else if step.Insert? {
      var worker := s.workers[w];
      InternRooms(s.spaces, worker.NextKey(worker.phase.id), worker.phase.depth);
    }
  }

  /** Nothing another worker adds disturbs what a worker has. */
  lemma WorkerKeeps(s: System, t: System, worker: Worker)
    requires s.Shaped() && t.Shaped() && Extends(s.strings, t.strings) && Extends(s.spaces, t.spaces) && worker.Shaped()
    requires WorkerSound(s.strings, s.spaces, worker)
    ensures WorkerSound(t.strings, t.spaces, worker)
  {
    forall i | 0 <= i < |worker.remap|
      ensures Remapped(t.strings, t.spaces, worker, i)
    {
      assert Remapped(s.strings, s.spaces, worker, i);
    }
  }

  lemma RemapKeeps(strings: Strings, spaces: Spaces, worker: Worker, id: nat)
    requires strings.WellShaped() && worker.Shaped() && |worker.remap| < |worker.unit|
    requires forall i | 0 <= i < |worker.remap| :: Remapped(strings, spaces, worker, i)
    requires spaces.Has(id) && id < spaces.word && spaces.Get(id).0.0 == worker.ParentOf(|worker.remap|)
    requires Known(strings, worker.unit[|worker.remap|].name, spaces.Get(id).0.1)
    ensures worker.Done(id).Shaped()
    ensures forall i | 0 <= i < |worker.Done(id).remap| :: Remapped(strings, spaces, worker.Done(id), i)
  {
    var next := worker.Done(id);
    forall i | 0 <= i < |next.remap|
      ensures Remapped(strings, spaces, next, i)
    {
      if i < |worker.remap| {
        assert Remapped(strings, spaces, worker, i);
        assert next.ParentOf(i) == worker.ParentOf(i);
      } else {
        assert next.ParentOf(i) == worker.ParentOf(i);
      }
    }
  }

  lemma IdWithin<K(!new), V>(table: Striped<K, V>, key: K)
    requires table.Sound() && table.Find(key).Some?
    ensures 0 < table.Find(key).value < table.word
  {
    var k := table.home(key);
    assert table.ShardSound(k);
    var j: nat :| j < |table.shards[k].entries| && table.shards[k].entries[j].0 == key
                  && Encode(table.word, k, j) == Some(table.shards[k].index[key]);
    RawWithin(table.word, k, j);
  }

  lemma HasWithin<K(!new), V>(table: Striped<K, V>, id: nat)
    requires table.Sound() && table.Has(id)
    ensures id < table.word
  {
    var (k, j) := Decode(id);
    assert Fits(table.word, k, j);
  }

  /** The worker that found or made its entry has the id of its own pair. */
  lemma FoundSound(s: System, worker: Worker, key: SpaceKey)
    requires Sound(s) && worker.Shaped() && |worker.remap| < |worker.unit| && WorkerSound(s.strings, s.spaces, worker)
    requires Known(s.strings, worker.unit[|worker.remap|].name, key.1) && key == worker.NextKey(key.1)
    requires s.spaces.Find(key).Some?
    ensures worker.Done(s.spaces.Find(key).value).Shaped()
    ensures WorkerSound(s.strings, s.spaces, worker.Done(s.spaces.Find(key).value))
  {
    FoundIsOwn(s.spaces, key);
    IdWithin(s.spaces, key);
    RemapKeeps(s.strings, s.spaces, worker, s.spaces.Find(key).value);
  }

  /** A parent whose id a worker holds is in the table, so reading its depth cannot fail. */
  lemma ParentThere(s: System, worker: Worker)
    requires Sound(s) && worker.Shaped() && |worker.remap| < |worker.unit| && WorkerSound(s.strings, s.spaces, worker)
    ensures ChildDepth(s.spaces, worker.ParentOf(|worker.remap|)).Some?
    ensures worker.ParentOf(|worker.remap|).Some? ==> worker.ParentOf(|worker.remap|).value < s.spaces.word
  {
    var parent := worker.unit[|worker.remap|].parent;
    if parent.Some? {
      assert Remapped(s.strings, s.spaces, worker, parent.value);
    }
  }

  lemma RootedKeeps(s: System, t: System, id: nat)
    requires s.Shaped() && t.Shaped() && Extends(s.strings, t.strings) && Extends(s.spaces, t.spaces)
    requires s.spaces.Has(id) && Rooted(s.strings, s.spaces, id)
    ensures t.spaces.Has(id) && Rooted(t.strings, t.spaces, id)
  {
  }

  /** Only the interned key's entry is new. */
  lemma OnlyNew<K(!new), V(!new)>(table: Striped<K, V>, key: K, value: V, id: nat)
    requires table.Sound() && table.Interned(key, value).Some? && table.Interned(key, value).value.0.Roomy()
    requires table.Interned(key, value).value.0.Has(id) && !table.Has(id)
    ensures id == table.Interned(key, value).value.1 && table.Find(key).None?
  {
    var (next, made) := table.Interned(key, value).value;
    var (k, j) := Decode(id);
    if table.Find(key).None? {
      assert k == table.home(key) && j == |table.shards[k].entries|;
      assert Fits(table.word, k, j);
      DecodeInverts(table.word, k, j);
      RawWithin(table.word, k, j);
    }
  }

  lemma InsertRooted(s: System, w: nat, t: System)
    requires Sound(s) && w < |s.workers| && Steps(s, w, Insert, t) && t.Roomy() && t.Shaped()
    requires Extends(s.strings, t.strings) && Extends(s.spaces, t.spaces) && t.spaces.Sound()
    ensures AllRooted(t.strings, t.spaces)
  {
    var worker := s.workers[w];
    var key, depth := worker.NextKey(worker.phase.id), worker.phase.depth;
    assert WorkerSound(s.strings, s.spaces, worker);
    ParentThere(s, worker);
    forall id | t.spaces.Has(id)
      ensures Rooted(t.strings, t.spaces, id)
    {
      if s.spaces.Has(id) {
        RootedKeeps(s, t, id);
      } else {
        OnlyNew(s.spaces, key, depth, id);
        InternValue(s.spaces, key, depth);
        HasWithin(t.spaces, id);
        FoundIsOwn(s.strings, worker.unit[|worker.remap|].name);
        IdWithin(s.strings, worker.unit[|worker.remap|].name);
      }
    }
  }

  lemma FetchSound(s: System, w: nat, text: string, t: System)
    requires Sound(s) && w < |s.workers| && Steps(s, w, Fetch(text), t) && t.Roomy()
    ensures Sound(t)
  {
    StepShaped(s, w, Fetch(text), t);
    InternSound(s.strings, text, ());
    InternFinds(s.strings, text, ());
    forall id | t.spaces.Has(id)
      ensures Rooted(t.strings, t.spaces, id)
    {
      RootedKeeps(s, t, id);
    }
    forall v | 0 <= v < |t.workers|
      ensures WorkerSound(t.strings, t.spaces, t.workers[v])
    {
      assert WorkerSound(s.strings, s.spaces, s.workers[v]);
      WorkerKeeps(s, t, s.workers[v]);
      if v == w {
        WorkerMoves(t.strings, t.spaces, s.workers[w], t.workers[w]);
      }
    }
  }

  /** A change of phase alone leaves the rest of a worker as sound as it was. */
  lemma WorkerMoves(strings: Strings, spaces: Spaces, before: Worker, after: Worker)
    requires strings.WellShaped() && before.Shaped() && after.Shaped()
    requires WorkerSound(strings, spaces, before) && after == before.(phase := after.phase)
             && PhaseSound(strings, spaces, after)
    ensures WorkerSound(strings, spaces, after)
  {
    forall i | 0 <= i < |after.remap|
      ensures Remapped(strings, spaces, after, i)
    {
      assert Remapped(strings, spaces, before, i);
      assert after.ParentOf(i) == before.ParentOf(i);
    }
  }

  lemma InsertSound(s: System, w: nat, t: System)
    requires Sound(s) && w < |s.workers| && Steps(s, w, Insert, t) && t.Roomy()
    ensures Sound(t)
  {
    StepShaped(s, w, Insert, t);
    var worker := s.workers[w];
    var key, depth := worker.NextKey(worker.phase.id), worker.phase.depth;
    InternSound(s.spaces, key, depth);
    InternFinds(s.spaces, key, depth);
    InsertRooted(s, w, t);
    var rest := t.(workers := s.workers);
    forall v | 0 <= v < |s.workers|
      ensures WorkerSound(t.strings, t.spaces, s.workers[v])
    {
      WorkerKeeps(s, rest, s.workers[v]);
    }
    FoundSound(rest, worker, key);
  }

  lemma LocalSound(s: System, w: nat, step: Step, t: System)
    requires Sound(s) && w < |s.workers| && Steps(s, w, step, t) && !step.Fetch? && !step.Insert?
    ensures Sound(t)
  {
    StepShaped(s, w, step, t);
    var worker := s.workers[w];
    assert WorkerSound(s.strings, s.spaces, worker);
    match step
    case Store =>
      WorkerMoves(s.strings, s.spaces, worker, worker.(phase := Ready));
      CacheKeeps(s.strings, s.spaces, worker.(phase := Ready), worker.phase.text, worker.phase.id);
    case Recall =>
      WorkerMoves(s.strings, s.spaces, worker, t.workers[w]);
    case Check =>
      var key := worker.NextKey(worker.phase.id);
      if s.spaces.Find(key).Some? {
        FoundSound(s, worker, key);
      } else {
        WorkerMoves(s.strings, s.spaces, worker, t.workers[w]);
      }
    case Measure =>
      assert t.workers[w].ParentOf(|worker.remap|) == worker.ParentOf(|worker.remap|);
      WorkerMoves(s.strings, s.spaces, worker, t.workers[w]);
  }

  lemma CacheKeeps(strings: Strings, spaces: Spaces, worker: Worker, text: string, id: nat)
    requires strings.WellShaped() && worker.Shaped() && WorkerSound(strings, spaces, worker) && Known(strings, text, id)
    ensures worker.(cache := worker.cache[text := id]).Shaped()
    ensures WorkerSound(strings, spaces, worker.(cache := worker.cache[text := id]))
  {
    var after := worker.(cache := worker.cache[text := id]);
    forall i | 0 <= i < |after.remap|
      ensures Remapped(strings, spaces, after, i)
    {
      assert Remapped(strings, spaces, worker, i);
      assert after.ParentOf(i) == worker.ParentOf(i);
    }
    if worker.phase.Measured? {
      assert after.ParentOf(|after.remap|) == worker.ParentOf(|worker.remap|);
    }
  }

  /** Every step of every worker keeps the invariant. */
  lemma StepSound(s: System, w: nat, step: Step, t: System)
    requires Sound(s) && w < |s.workers| && Steps(s, w, step, t) && t.Roomy()
    ensures Sound(t)
  {
    match step
    case Fetch(text) => FetchSound(s, w, text, t);
    case Insert => InsertSound(s, w, t);
    case _ => LocalSound(s, w, step, t);
  }

  // ----- whole runs

  ghost predicate IsRun(run: seq<System>) {
    && run != [] && Initial(run[0])
    && forall i | 0 <= i < |run| - 1 :: run[i].Shaped() && Moves(run[i], run[i + 1])
  }

  ghost predicate Moves(s: System, t: System)
    requires s.Shaped()
  {
    exists w: nat, step :: w < |s.workers| && Steps(s, w, step, t)
  }

  lemma {:induction false} RunShaped(run: seq<System>, i: nat)
    requires IsRun(run) && i < |run|
    ensures run[i].Shaped()
    decreases i
  {
    if i > 0 {
      var before := i - 1;
      RunShaped(run, before);
      assert Moves(run[before], run[before + 1]);
      var w: nat, step :| w < |run[before].workers| && Steps(run[before], w, step, run[i]);
      StepShaped(run[before], w, step, run[i]);
    }
  }

  /** Tables only grow, so room at the end is room all along. */
  lemma {:induction false} RunRooms(run: seq<System>, i: nat)
    requires IsRun(run) && i < |run| && run[|run| - 1].Roomy()
    ensures run[i].Roomy()
    decreases |run| - i
  {
    if i < |run| - 1 {
      RunRooms(run, i + 1);
      assert Moves(run[i], run[i + 1]);
      var w: nat, step :| w < |run[i].workers| && Steps(run[i], w, step, run[i + 1]);
      StepRooms(run[i], w, step, run[i + 1]);
    }
  }

  lemma InitialSound(s: System)
    requires Initial(s)
    ensures Sound(s)
  {
    FreshSound<string, ()>(STRING_WORD, s.strings.home);
    FreshSound<SpaceKey, nat>(NAMESPACE_WORD, s.spaces.home);
  }

  /** Every state of every run, however the workers' steps interleave, is sound, as long as no
  shard outgrows its ids. */
  lemma {:induction false} RunSound(run: seq<System>, i: nat)
    requires IsRun(run) && i < |run| && run[|run| - 1].Roomy()
    ensures Sound(run[i])
    decreases i
  {
    if i == 0 {
      InitialSound(run[0]);
    } else {
      var before := i - 1;
      RunSound(run, before);
      RunRooms(run, i);
      assert Moves(run[before], run[before + 1]);
      var w: nat, step :| w < |run[before].workers| && Steps(run[before], w, step, run[i]);
      StepSound(run[before], w, step, run[i]);
    }
  }

  /** Ids given out are never changed later in a run. */
  lemma {:induction false} RunExtends(run: seq<System>, i: nat, j: nat)
    requires IsRun(run) && i <= j < |run|
    ensures run[i].Shaped() && run[j].Shaped()
    ensures Extends(run[i].strings, run[j].strings) && Extends(run[i].spaces, run[j].spaces)
    decreases j
  {
    RunShaped(run, i);
    RunShaped(run, j);
    if i < j {
      var before := j - 1;
      RunExtends(run, i, before);
      assert Moves(run[before], run[before + 1]);
      var w: nat, step :| w < |run[before].workers| && Steps(run[before], w, step, run[j]);
      StepShaped(run[before], w, step, run[j]);
    }
  }

  /** What a worker interned: a string it has cached or just fetched, or a unit entry it has
  done. */
  ghost predicate Answered(s: System, w: nat, text: string, id: nat)
    requires w < |s.workers|
  {
    || (text in s.workers[w].cache && s.workers[w].cache[text] == id)
    || s.workers[w].phase == Fetched(text, id)
  }

  /** Over a whole run, whichever workers asked and whenever: two answers are one id exactly
  when the strings are one, the table found again under the id holds the string, and the
  cache's answers are the table's. */
  lemma StringsLinearize(run: seq<System>, i: nat, v: nat, a: string, x: nat, j: nat, w: nat, b: string, y: nat)
    requires IsRun(run) && run[|run| - 1].Roomy() && i < |run| && j < |run|
    requires v < |run[i].workers| && Answered(run[i], v, a, x)
    requires w < |run[j].workers| && Answered(run[j], w, b, y)
    ensures x == y <==> a == b
    ensures run[|run| - 1].strings.Has(x) && run[|run| - 1].strings.Get(x).0 == a
    ensures run[|run| - 1].strings.Sound() && run[|run| - 1].strings.Find(a) == Some(x)
  {
    var last := |run| - 1;
    AnswerLasts(run, i, v, a, x);
    AnswerLasts(run, j, w, b, y);
    RunSound(run, last);
    SameIdSameKey(run[last].strings, a, b);
    FoundIsOwn(run[last].strings, a);
  }

  lemma AnswerLasts(run: seq<System>, i: nat, w: nat, text: string, id: nat)
    requires IsRun(run) && run[|run| - 1].Roomy() && i < |run|
    requires w < |run[i].workers| && Answered(run[i], w, text, id)
    ensures run[|run| - 1].Shaped() && run[|run| - 1].strings.Find(text) == Some(id)
  {
    RunSound(run, i);
    RunExtends(run, i, |run| - 1);
    assert WorkerSound(run[i].strings, run[i].spaces, run[i].workers[w]);
    assert Known(run[i].strings, text, id);
  }

  // ----- namespaces as paths

  ghost predicate TablesSound(strings: Strings, spaces: Spaces) {
    strings.Sound() && spaces.Sound() && AllRooted(strings, spaces)
  }

  /** The names from the root down to an entry. Following parents ends because each is one
  less deep. */
  ghost function Path(strings: Strings, spaces: Spaces, id: nat): (r: seq<string>)
    requires TablesSound(strings, spaces) && spaces.Has(id)
    ensures r != []
    decreases spaces.Get(id).1
  {
    assert Rooted(strings, spaces, id);
    var ((parent, name), depth) := spaces.Get(id);
    (if parent.Some? then Path(strings, spaces, parent.value) else []) + [strings.Get(name).0]
  }

  /** The depth kept with an entry is the number of names on its path. */
  lemma {:induction false} DepthIsLength(strings: Strings, spaces: Spaces, id: nat)
    requires TablesSound(strings, spaces) && spaces.Has(id)
    ensures spaces.Get(id).1 == |Path(strings, spaces, id)|
    decreases spaces.Get(id).1
  {
    assert Rooted(strings, spaces, id);
    var parent := spaces.Get(id).0.0;
    if parent.Some? {
      DepthIsLength(strings, spaces, parent.value);
    }
  }

  /** One entry per pair of parent and name. */
  lemma OneEntryPerPair(strings: Strings, spaces: Spaces, a: nat, b: nat)
    requires TablesSound(strings, spaces) && spaces.Has(a) && spaces.Has(b)
    ensures spaces.Get(a).0 == spaces.Get(b).0 <==> a == b
  {
    HasWithin(spaces, a);
    HasWithin(spaces, b);
    GetInverts(spaces, a);
    GetInverts(spaces, b);
  }

  lemma SplitLast<T>(a: seq<T>, x: T, b: seq<T>, y: T)
    requires a + [x] == b + [y]
    ensures a == b && x == y
  {
    assert (a + [x])[..|a|] == a && (b + [y])[..|b|] == b;
    assert (a + [x])[|a|] == x && (b + [y])[|b|] == y;
  }

  /** Two ids are one exactly when their full paths are. */
  lemma {:induction false} PathIsIdentity(strings: Strings, spaces: Spaces, a: nat, b: nat)
    requires TablesSound(strings, spaces) && spaces.Has(a) && spaces.Has(b)
    ensures Path(strings, spaces, a) == Path(strings, spaces, b) <==> a == b
    decreases spaces.Get(a).1
  {
    if Path(strings, spaces, a) == Path(strings, spaces, b) {
      assert Rooted(strings, spaces, a) && Rooted(strings, spaces, b);
      var (p, m) := spaces.Get(a).0;
      var (q, n) := spaces.Get(b).0;
      var above := if p.Some? then Path(strings, spaces, p.value) else [];
      var beside := if q.Some? then Path(strings, spaces, q.value) else [];
      SplitLast(above, strings.Get(m).0, beside, strings.Get(n).0);
      GetInverts(strings, m);
      GetInverts(strings, n);
      if p.Some? && q.Some? {
        PathIsIdentity(strings, spaces, p.value, q.value);
      }
      OneEntryPerPair(strings, spaces, a, b);
    }
  }

  /** A unit's entry is remapped to the global entry of the same path. */
  lemma {:induction false} RemapKeepsPath(s: System, w: nat, i: nat)
    requires Sound(s) && w < |s.workers| && i < |s.workers[w].remap|
    ensures s.spaces.Has(s.workers[w].remap[i])
    ensures Path(s.strings, s.spaces, s.workers[w].remap[i]) == LocalPath(s.workers[w].unit, i)
    decreases i
  {
    var worker := s.workers[w];
    assert WorkerSound(s.strings, s.spaces, worker);
    assert Remapped(s.strings, s.spaces, worker, i);
    FoundIsOwn(s.strings, worker.unit[i].name);
    var parent := worker.unit[i].parent;
    if parent.Some? {
      RemapKeepsPath(s, w, parent.value);
    }
  }

  /** Namespaces of any two units share a global id exactly when their full paths are equal,
  in every state of every run. */
  lemma UnitsAgree(run: seq<System>, k: nat, v: nat, i: nat, w: nat, j: nat)
    requires IsRun(run) && run[|run| - 1].Roomy() && k < |run|
    requires v < |run[k].workers| && i < |run[k].workers[v].remap|
    requires w < |run[k].workers| && j < |run[k].workers[w].remap|
    ensures run[k].Shaped()
    ensures run[k].workers[v].remap[i] == run[k].workers[w].remap[j]
            <==> LocalPath(run[k].workers[v].unit, i) == LocalPath(run[k].workers[w].unit, j)
  {
    RunSound(run, k);
    var s := run[k];
    RemapKeepsPath(s, v, i);
    RemapKeepsPath(s, w, j);
    PathIsIdentity(s.strings, s.spaces, s.workers[v].remap[i], s.workers[w].remap[j]);
  }

  /** A worker about to read its parent's depth finds the parent there. */
  lemma MeasureNeverFails(run: seq<System>, k: nat, w: nat)
    requires IsRun(run) && run[|run| - 1].Roomy() && k < |run|
    requires w < |run[k].workers| && run[k].workers[w].phase.Missed?
    ensures run[k].Shaped() && exists t :: Steps(run[k], w, Measure, t)
  {
    RunSound(run, k);
    var s, worker := run[k], run[k].workers[w];
    assert WorkerSound(s.strings, s.spaces, worker);
    ParentThere(s, worker);
    var depth := ChildDepth(s.spaces, worker.NextKey(worker.phase.id).0);
    var measured := worker.(phase := Measured(worker.phase.id, depth.value));
    assert Steps(s, w, Measure, s.(workers := s.workers[w := measured]));
  }
}
