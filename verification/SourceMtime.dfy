/** Recording source mtimes on one run and putting them back on the next. */
module SourceMtime {
  import opened Common
  import StableSort

  /** A file as `stat` and `utimes` see it; `mtime` is in milliseconds. */
  datatype Node<Content> =
    | File(content: Content, size: nat, mtime: real, readable: bool, settable: bool)
    | NotAFile

  /**
   Names reach files through symlinks, so two names can reach one file; a file is told by its real path.
   `clock` is the mtime that reads back after one of so many milliseconds was set, as seconds in a double
   and in the file system's own units.
   */
  datatype World<Content> = World(reach: map<string, string>, files: map<string, Node<Content>>, clock: int -> real)

  datatype Entry<Digest> = Entry(mtime: int, size: nat, hash: Digest)

  type Snapshot<Digest> = map<string, Entry<Digest>>

  datatype Outcome = Applied | Missing | SizeMismatch | Modified

  predicate IsFileAt<C>(world: World<C>, rel: string) {
    rel in world.reach && world.reach[rel] in world.files && world.files[world.reach[rel]].File?
  }

  function FileAt<C>(world: World<C>, rel: string): (node: Node<C>)
    requires IsFileAt(world, rel)
    ensures node.File?
  {
    world.files[world.reach[rel]]
  }

  /** A file that `stat` finds and that can be read for its hash. */
  predicate CanRecord<C>(world: World<C>, rel: string) { IsFileAt(world, rel) && FileAt(world, rel).readable }

  function EntryOf<C, D>(hash: C -> D, node: Node<C>): Entry<D>
    requires node.File?
  {
    Entry(node.mtime.Floor, node.size, hash(node.content))
  }

  function SnapshotOf<C, D>(hash: C -> D, world: World<C>, candidates: seq<string>): Snapshot<D> {
    map rel | rel in candidates && CanRecord(world, rel) :: EntryOf(hash, FileAt(world, rel))
  }

  function OutcomeAt<C, D(==)>(hash: C -> D, world: World<C>, rel: string, entry: Entry<D>): Outcome {
    if !IsFileAt(world, rel) then Missing
    else
      var node := FileAt(world, rel);
      if node.size != entry.size then SizeMismatch
      else if !node.readable || hash(node.content) != entry.hash || !node.settable then Modified
      else Applied
  }

  predicate Applies<C, D(==)>(hash: C -> D, world: World<C>, snapshot: Snapshot<D>, rel: string) {
    rel in snapshot && OutcomeAt(hash, world, rel, snapshot[rel]).Applied?
  }

  /** `utimes` through a name. */
  function Touched<C>(world: World<C>, rel: string, mtime: int): World<C>
    requires IsFileAt(world, rel)
  {
    world.(files := world.files[world.reach[rel] := FileAt(world, rel).(mtime := world.clock(mtime))])
  }

  /** The entries in this order, each applied where it applies. */
  function Replayed<C, D(==)>(hash: C -> D, world: World<C>, snapshot: Snapshot<D>, order: seq<string>): World<C> {
    if order == [] then world
    else
      var before := Replayed(hash, world, snapshot, order[..|order| - 1]);
      var rel := order[|order| - 1];
      if Applies(hash, before, snapshot, rel) then Touched(before, rel, snapshot[rel].mtime) else before
  }

  /** Each entry of the snapshot once. */
  ghost predicate IsOrder<D>(snapshot: Snapshot<D>, order: seq<string>) {
    StableSort.AllDistinct(order) && forall rel :: rel in order <==> rel in snapshot
  }

  /**
   Which outcome an entry has: missing without a regular file under its name, a size mismatch on a file of
   another size, modified on one of its size with other content or that cannot be read or set, else applied.
   */
  lemma OutcomeIff<C, D>(hash: C -> D, world: World<C>, rel: string, entry: Entry<D>)
    ensures var outcome := OutcomeAt(hash, world, rel, entry);
            && (outcome.Missing? <==>
                  rel !in world.reach || world.reach[rel] !in world.files || world.files[world.reach[rel]].NotAFile?)
            && (outcome.SizeMismatch? <==> IsFileAt(world, rel) && FileAt(world, rel).size != entry.size)
            && (outcome.Modified? <==>
                  IsFileAt(world, rel) && FileAt(world, rel).size == entry.size &&
                  (hash(FileAt(world, rel).content) != entry.hash || !FileAt(world, rel).readable || !FileAt(world, rel).settable))
            && (outcome.Applied? <==>
                  IsFileAt(world, rel) && FileAt(world, rel).size == entry.size &&
                  hash(FileAt(world, rel).content) == entry.hash && FileAt(world, rel).readable && FileAt(world, rel).settable)
  {
  }

  // ---- Counting ----

  datatype Counters = Counters(applied: nat, missing: nat, modified: nat, sizeMismatch: nat)

  function Bump(c: Counters, outcome: Outcome): Counters {
    match outcome
    case Applied => c.(applied := c.applied + 1)
    case Missing => c.(missing := c.missing + 1)
    case Modified => c.(modified := c.modified + 1)
    case SizeMismatch => c.(sizeMismatch := c.sizeMismatch + 1)
  }

  function Sum(c: Counters): nat { c.applied + c.missing + c.modified + c.sizeMismatch }

  /** How many of some names end in an outcome. */
  ghost function CountOf<C, D>(hash: C -> D, world: World<C>, snapshot: Snapshot<D>, rels: set<string>, outcome: Outcome): nat
    requires rels <= snapshot.Keys
  {
    |set rel | rel in rels && OutcomeAt(hash, world, rel, snapshot[rel]) == outcome|
  }

  ghost function CountersOf<C, D>(hash: C -> D, world: World<C>, snapshot: Snapshot<D>, rels: set<string>): Counters
    requires rels <= snapshot.Keys
  {
    Counters(
      CountOf(hash, world, snapshot, rels, Applied), CountOf(hash, world, snapshot, rels, Missing),
      CountOf(hash, world, snapshot, rels, Modified), CountOf(hash, world, snapshot, rels, SizeMismatch))
  }

  lemma CountInsert<C, D>(hash: C -> D, world: World<C>, snapshot: Snapshot<D>, rels: set<string>, rel: string, outcome: Outcome)
    requires rels <= snapshot.Keys && rel in snapshot && rel !in rels
    ensures CountOf(hash, world, snapshot, rels + {rel}, outcome) ==
            CountOf(hash, world, snapshot, rels, outcome) +
            if OutcomeAt(hash, world, rel, snapshot[rel]) == outcome then 1 else 0
  {
    hide OutcomeAt;
    var before := set r | r in rels && OutcomeAt(hash, world, r, snapshot[r]) == outcome;
    var after := set r | r in rels + {rel} && OutcomeAt(hash, world, r, snapshot[r]) == outcome;
    if OutcomeAt(hash, world, rel, snapshot[rel]) == outcome {
      assert after == before + {rel};
    } else {
      assert after == before;
    }
  }

  lemma CountersInsert<C, D>(hash: C -> D, world: World<C>, snapshot: Snapshot<D>, rels: set<string>, rel: string)
    requires rels <= snapshot.Keys && rel in snapshot && rel !in rels
    ensures CountersOf(hash, world, snapshot, rels + {rel}) ==
            Bump(CountersOf(hash, world, snapshot, rels), OutcomeAt(hash, world, rel, snapshot[rel]))
  {
    hide CountOf, OutcomeAt;
    CountInsert(hash, world, snapshot, rels, rel, Applied);
    CountInsert(hash, world, snapshot, rels, rel, Missing);
    CountInsert(hash, world, snapshot, rels, rel, Modified);
    CountInsert(hash, world, snapshot, rels, rel, SizeMismatch);
  }

  lemma NothingCounted<C, D>(hash: C -> D, world: World<C>, snapshot: Snapshot<D>)
    ensures CountersOf(hash, world, snapshot, {}) == Counters(0, 0, 0, 0)
  {
    hide OutcomeAt;
  }

  /** The four counters account for every entry of the snapshot. */
  lemma {:induction false} CountersSumToTotal<C, D>(hash: C -> D, world: World<C>, snapshot: Snapshot<D>, rels: set<string>)
    requires rels <= snapshot.Keys
    ensures Sum(CountersOf(hash, world, snapshot, rels)) == |rels|
    decreases |rels|
  {
    hide OutcomeAt, CountersOf;
    if rels == {} {
      NothingCounted(hash, world, snapshot);
    } else {
      var rel :| rel in rels;
      CountersSumToTotal(hash, world, snapshot, rels - {rel});
      CountersInsert(hash, world, snapshot, rels - {rel}, rel);
      assert rels - {rel} + {rel} == rels;
    }
  }

  // ---- Recording ----

  /** Candidates that turned out to be recordable files, counted with repeats. */
  ghost function Recordable<C>(world: World<C>, candidates: seq<string>): nat {
    if candidates == [] then 0 else
    Recordable(world, candidates[..|candidates| - 1]) + if CanRecord(world, candidates[|candidates| - 1]) then 1 else 0
  }

  method SnapshotSourceMtimes<C, D>(hash: C -> D, world: World<C>, candidates: seq<string>)
    returns (files: Snapshot<D>, hashed: nat, skipped: nat)
    ensures files == SnapshotOf(hash, world, candidates)
    ensures hashed == Recordable(world, candidates) && hashed + skipped == |candidates|
  {
    files, hashed, skipped := map[], 0, 0;
    for n := 0 to |candidates|
      invariant files == SnapshotOf(hash, world, candidates[..n])
      invariant hashed == Recordable(world, candidates[..n]) && hashed + skipped == n
    {
      var rel := candidates[n];
      assert candidates[..n + 1][..n] == candidates[..n];
      SnapshotGrows(hash, world, candidates, n);
      hide SnapshotOf;
      if !IsFileAt(world, rel) {
        skipped := skipped + 1;
        continue;
      }
      if !FileAt(world, rel).readable {
        skipped := skipped + 1;
        continue;
      }
      files := files[rel := EntryOf(hash, FileAt(world, rel))];
      hashed := hashed + 1;
    }
    assert candidates[..|candidates|] == candidates;
  }

  lemma SnapshotGrows<C, D>(hash: C -> D, world: World<C>, candidates: seq<string>, n: nat)
    requires n < |candidates|
    ensures var before := SnapshotOf(hash, world, candidates[..n]);
            SnapshotOf(hash, world, candidates[..n + 1]) ==
            if CanRecord(world, candidates[n])
            then before[candidates[n] := EntryOf(hash, FileAt(world, candidates[n]))] else before
  {
    hide EntryOf, CanRecord;
    assert candidates[..n + 1] == candidates[..n] + [candidates[n]];
  }

  // ---- Replaying ----

  /** What a replay leaves alone: everything but mtimes. */
  ghost predicate SameButMtimes<C(!new)>(before: World<C>, after: World<C>) {
    before.reach == after.reach && before.clock == after.clock && before.files.Keys == after.files.Keys &&
    forall f :: f in before.files ==>
      after.files[f] == before.files[f] ||
      (before.files[f].File? && after.files[f].File? &&
       after.files[f] == before.files[f].(mtime := after.files[f].mtime))
  }

  lemma TouchKeepsRest<C(!new)>(world: World<C>, before: World<C>, rel: string, mtime: int)
    requires SameButMtimes(world, before) && IsFileAt(before, rel)
    ensures SameButMtimes(world, Touched(before, rel, mtime))
  {
  }

  /** No outcome depends on an mtime. */
  lemma SameOutcomes<C(!new), D>(hash: C -> D, before: World<C>, after: World<C>, rel: string, entry: Entry<D>)
    requires SameButMtimes(before, after)
    ensures OutcomeAt(hash, after, rel, entry) == OutcomeAt(hash, before, rel, entry)
  {
  }

  lemma {:induction false} ReplayKeepsRest<C(!new), D>(hash: C -> D, world: World<C>, snapshot: Snapshot<D>, order: seq<string>)
    ensures SameButMtimes(world, Replayed(hash, world, snapshot, order))
  {
    hide SameButMtimes, Touched, IsFileAt;
    if order == [] {
      SameAsItself(world);
    } else {
      ReplayKeepsRest(hash, world, snapshot, order[..|order| - 1]);
      var before := Replayed(hash, world, snapshot, order[..|order| - 1]);
      var rel := order[|order| - 1];
      if Applies(hash, before, snapshot, rel) {
        TouchKeepsRest(world, before, rel, snapshot[rel].mtime);
      }
    }
  }

  lemma SameAsItself<C(!new)>(world: World<C>)
    ensures SameButMtimes(world, world)
  {
  }

  class Workspace<Content(!new)> {
    var world: World<Content>

    constructor (world: World<Content>)
      ensures this.world == world
    {
      this.world := world;
    }

    /** One entry: check size, then hash, then set the mtime. */
    method ReplayEntry<D(==)>(hash: Content -> D, rel: string, entry: Entry<D>) returns (outcome: Outcome)
      modifies this
      ensures outcome == OutcomeAt(hash, old(world), rel, entry)
      ensures world == if outcome.Applied? then Touched(old(world), rel, entry.mtime) else old(world)
    {
      if !IsFileAt(world, rel) { return Missing; }
      var node := FileAt(world, rel);
      if node.size != entry.size { return SizeMismatch; }
      if !node.readable { return Modified; }
      if hash(node.content) != entry.hash { return Modified; }
      if !node.settable { return Modified; }
      world := Touched(world, rel, entry.mtime);
      return Applied;
    }

    /** `order` is the order in which the snapshot lists its entries. */
    method ReplaySourceMtimes<D(==)>(hash: Content -> D, snapshot: Snapshot<D>, order: seq<string>)
      returns (counters: Counters, total: nat)
      requires IsOrder(snapshot, order)
      modifies this
      ensures world == Replayed(hash, old(world), snapshot, order)
      ensures counters == CountersOf(hash, old(world), snapshot, snapshot.Keys)
      ensures total == |snapshot| == Sum(counters)
    {
      hide CountersOf, OutcomeAt, Sum, Touched;
      total := |snapshot|;
      counters := Counters(0, 0, 0, 0);
      ghost var done: set<string> := {};
      NothingCounted(hash, world, snapshot);
      for n := 0 to |order|
        invariant done == NamesIn(order[..n])
        invariant done <= snapshot.Keys
        invariant world == Replayed(hash, old(world), snapshot, order[..n])
        invariant counters == CountersOf(hash, old(world), snapshot, done)
      {
        var rel := order[n];
        DoneGrows(order, n);
        ReplayStep(hash, old(world), snapshot, order, n);
        CountersInsert(hash, old(world), snapshot, done, rel);
        var outcome := ReplayEntry(hash, rel, snapshot[rel]);
        counters := Bump(counters, outcome);
        done := done + {rel};
      }
      assert order[..|order|] == order;
      assert done == snapshot.Keys;
      CountersSumToTotal(hash, old(world), snapshot, done);
    }
  }

  ghost function NamesIn(order: seq<string>): set<string> { set rel | rel in order }

  lemma DoneGrows(order: seq<string>, n: nat)
    requires n < |order| && StableSort.AllDistinct(order)
    ensures order[n] !in NamesIn(order[..n]) && NamesIn(order[..n + 1]) == NamesIn(order[..n]) + {order[n]}
  {
    assert order[..n + 1] == order[..n] + [order[n]];
  }

  lemma ReplayStep<C(!new), D>(hash: C -> D, world: World<C>, snapshot: Snapshot<D>, order: seq<string>, n: nat)
    requires n < |order| && order[n] in snapshot
    ensures var before := Replayed(hash, world, snapshot, order[..n]);
            var rel := order[n];
            OutcomeAt(hash, before, rel, snapshot[rel]) == OutcomeAt(hash, world, rel, snapshot[rel]) &&
            Replayed(hash, world, snapshot, order[..n + 1]) ==
            if OutcomeAt(hash, world, rel, snapshot[rel]).Applied? then Touched(before, rel, snapshot[rel].mtime) else before
  {
    assert order[..n + 1][..n] == order[..n];
    ReplayKeepsRest(hash, world, snapshot, order[..n]);
    SameOutcomes(hash, world, Replayed(hash, world, snapshot, order[..n]), order[n], snapshot[order[n]]);
    hide SameButMtimes, OutcomeAt, Touched;
  }

  // ---- Which mtime a file ends with ----

  /** The entry applies and its name reaches this file. */
  predicate AppliesTo<C, D(==)>(hash: C -> D, world: World<C>, snapshot: Snapshot<D>, rel: string, file: string) {
    Applies(hash, world, snapshot, rel) && world.reach[rel] == file
  }

  /** The mtime of the last entry of the order that applies to the file, else its own. */
  function MtimeAfter<C, D(==)>(hash: C -> D, world: World<C>, snapshot: Snapshot<D>, order: seq<string>, file: string): real
    requires file in world.files && world.files[file].File?
  {
    if order == [] then world.files[file].mtime
    else
      var rel := order[|order| - 1];
      if AppliesTo(hash, world, snapshot, rel, file) then world.clock(snapshot[rel].mtime)
      else MtimeAfter(hash, world, snapshot, order[..|order| - 1], file)
  }

  lemma {:induction false} ReplaySetsLast<C(!new), D>(hash: C -> D, world: World<C>, snapshot: Snapshot<D>,
                                                     order: seq<string>, file: string)
    requires file in world.files && world.files[file].File?
    ensures var after := Replayed(hash, world, snapshot, order);
            file in after.files &&
            after.files[file] == world.files[file].(mtime := MtimeAfter(hash, world, snapshot, order, file))
  {
    if order != [] {
      var front, rel := order[..|order| - 1], order[|order| - 1];
      ReplaySetsLast(hash, world, snapshot, front, file);
      ReplayKeepsRest(hash, world, snapshot, front);
      var before := Replayed(hash, world, snapshot, front);
      if rel in snapshot {
        SameOutcomes(hash, world, before, rel, snapshot[rel]);
      }
      hide OutcomeAt;
    }
  }

  /** Only an mtime ever changes, and only to one recorded for a name of the file whose size and hash it has. */
  lemma {:induction false} ReplayChangesOnlyMatchingMtimes<C(!new), D>(hash: C -> D, world: World<C>, snapshot: Snapshot<D>,
                                                                       order: seq<string>, file: string)
    requires file in world.files
    ensures var after := Replayed(hash, world, snapshot, order);
            SameButMtimes(world, after) && file in after.files &&
            (after.files[file] != world.files[file] ==>
               world.files[file].File? &&
               exists rel :: rel in order && rel in snapshot && rel in world.reach && world.reach[rel] == file &&
                             world.files[file].size == snapshot[rel].size &&
                             hash(world.files[file].content) == snapshot[rel].hash &&
                             after.files[file] == world.files[file].(mtime := world.clock(snapshot[rel].mtime)))
  {
    ReplayKeepsRest(hash, world, snapshot, order);
    if world.files[file].File? {
      ReplaySetsLast(hash, world, snapshot, order, file);
      LastApplies(hash, world, snapshot, order, file);
    }
  }

  lemma {:induction false} LastApplies<C, D>(hash: C -> D, world: World<C>, snapshot: Snapshot<D>, order: seq<string>, file: string)
    requires file in world.files && world.files[file].File?
    ensures MtimeAfter(hash, world, snapshot, order, file) == world.files[file].mtime ||
            exists rel :: rel in order && AppliesTo(hash, world, snapshot, rel, file) &&
                          MtimeAfter(hash, world, snapshot, order, file) == world.clock(snapshot[rel].mtime)
    ensures (exists rel :: rel in order && AppliesTo(hash, world, snapshot, rel, file)) ==>
            exists rel :: rel in order && AppliesTo(hash, world, snapshot, rel, file) &&
                          MtimeAfter(hash, world, snapshot, order, file) == world.clock(snapshot[rel].mtime)
  {
    hide Applies;
    if order != [] {
      var front, rel := order[..|order| - 1], order[|order| - 1];
      assert order == front + [rel];
      LastApplies(hash, world, snapshot, front, file);
    }
  }

  // ---- When the order matters ----

  /** Two names of one file, both applied, recorded with mtimes that read back differently. */
  ghost predicate HasRivals<C, D>(hash: C -> D, world: World<C>, snapshot: Snapshot<D>) {
    exists a, b ::
      Applies(hash, world, snapshot, a) && Applies(hash, world, snapshot, b) && world.reach[a] == world.reach[b] &&
      world.clock(snapshot[a].mtime) != world.clock(snapshot[b].mtime)
  }

  lemma MtimeIsOrderFree<C(!new), D>(hash: C -> D, world: World<C>, snapshot: Snapshot<D>,
                                     order: seq<string>, other: seq<string>, file: string)
    requires !HasRivals(hash, world, snapshot) && file in world.files && world.files[file].File?
    requires forall rel :: rel in order <==> rel in other
    ensures MtimeAfter(hash, world, snapshot, order, file) == MtimeAfter(hash, world, snapshot, other, file)
  {
    hide OutcomeAt;
    LastApplies(hash, world, snapshot, order, file);
    LastApplies(hash, world, snapshot, other, file);
    if rel :| rel in order && AppliesTo(hash, world, snapshot, rel, file) {
      var a :| a in order && AppliesTo(hash, world, snapshot, a, file) &&
               MtimeAfter(hash, world, snapshot, order, file) == world.clock(snapshot[a].mtime);
      var b :| b in other && AppliesTo(hash, world, snapshot, b, file) &&
               MtimeAfter(hash, world, snapshot, other, file) == world.clock(snapshot[b].mtime);
      assert world.clock(snapshot[a].mtime) == world.clock(snapshot[b].mtime);
    } else {
      NoneApplies(hash, world, snapshot, order, file);
      NoneApplies(hash, world, snapshot, other, file);
    }
  }

  lemma {:induction false} NoneApplies<C, D>(hash: C -> D, world: World<C>, snapshot: Snapshot<D>, order: seq<string>, file: string)
    requires file in world.files && world.files[file].File?
    requires forall rel :: rel in order ==> !AppliesTo(hash, world, snapshot, rel, file)
    ensures MtimeAfter(hash, world, snapshot, order, file) == world.files[file].mtime
  {
    hide AppliesTo;
    if order != [] {
      var front, rel := order[..|order| - 1], order[|order| - 1];
      assert order == front + [rel];
      NoneApplies(hash, world, snapshot, front, file);
    }
  }

  lemma WithoutRivalsOrderFree<C(!new), D>(hash: C -> D, world: World<C>, snapshot: Snapshot<D>,
                                           order: seq<string>, other: seq<string>)
    requires !HasRivals(hash, world, snapshot) && forall rel :: rel in order <==> rel in other
    ensures Replayed(hash, world, snapshot, order) == Replayed(hash, world, snapshot, other)
  {
    ReplayKeepsRest(hash, world, snapshot, order);
    ReplayKeepsRest(hash, world, snapshot, other);
    var x, y := Replayed(hash, world, snapshot, order), Replayed(hash, world, snapshot, other);
    forall file | file in world.files
      ensures x.files[file] == y.files[file]
    {
      if world.files[file].File? {
        ReplaySetsLast(hash, world, snapshot, order, file);
        ReplaySetsLast(hash, world, snapshot, other, file);
        MtimeIsOrderFree(hash, world, snapshot, order, other, file);
      }
    }
    assert x.files == y.files;
  }

  /** Some order of the snapshot that ends with a given name. */
  lemma OrderEndingWith<D>(snapshot: Snapshot<D>, last: string) returns (order: seq<string>)
    requires last in snapshot
    ensures IsOrder(snapshot, order) && order != [] && order[|order| - 1] == last
  {
    var front := ListOf(snapshot.Keys - {last});
    order := front + [last];
  }

  lemma {:induction false} ListOf(names: set<string>) returns (list: seq<string>)
    ensures StableSort.AllDistinct(list) && forall name :: name in list <==> name in names
  {
    if names == {} {
      list := [];
    } else {
      var name :| name in names;
      var rest := ListOf(names - {name});
      list := [name] + rest;
    }
  }

  lemma LastSetsMtime<C(!new), D>(hash: C -> D, world: World<C>, snapshot: Snapshot<D>, order: seq<string>)
    requires order != [] && Applies(hash, world, snapshot, order[|order| - 1])
    ensures var rel := order[|order| - 1];
            var after := Replayed(hash, world, snapshot, order);
            world.reach[rel] in after.files && after.files[world.reach[rel]].File? &&
            after.files[world.reach[rel]].mtime == world.clock(snapshot[rel].mtime)
  {
    ReplaySetsLast(hash, world, snapshot, order, world.reach[order[|order| - 1]]);
  }

  /** The order of the entries is immaterial exactly when no two applied names of one file set different mtimes. */
  lemma OrderIsImmaterialIff<C(!new), D(!new)>(hash: C -> D, world: World<C>, snapshot: Snapshot<D>)
    ensures (forall order, other :: IsOrder(snapshot, order) && IsOrder(snapshot, other) ==>
               Replayed(hash, world, snapshot, order) == Replayed(hash, world, snapshot, other)) <==>
            !HasRivals(hash, world, snapshot)
  {
    hide Replayed;
    if HasRivals(hash, world, snapshot) {
      var a, b :|
        Applies(hash, world, snapshot, a) && Applies(hash, world, snapshot, b) && world.reach[a] == world.reach[b] &&
        world.clock(snapshot[a].mtime) != world.clock(snapshot[b].mtime);
      var order := OrderEndingWith(snapshot, a);
      var other := OrderEndingWith(snapshot, b);
      hide Applies;
      LastSetsMtime(hash, world, snapshot, order);
      LastSetsMtime(hash, world, snapshot, other);
      assert Replayed(hash, world, snapshot, order) != Replayed(hash, world, snapshot, other);
    } else {
      forall order, other | IsOrder(snapshot, order) && IsOrder(snapshot, other)
        ensures Replayed(hash, world, snapshot, order) == Replayed(hash, world, snapshot, other)
      {
        WithoutRivalsOrderFree(hash, world, snapshot, order, other);
      }
    }
  }

  // ---- What replay guarantees ----

  lemma {:induction false} SecondMtime<C(!new), D>(hash: C -> D, world: World<C>, once: World<C>, snapshot: Snapshot<D>,
                                                   order: seq<string>, file: string)
    requires SameButMtimes(world, once) && file in world.files && world.files[file].File? && once.files[file].File?
    ensures MtimeAfter(hash, once, snapshot, order, file) ==
            if exists rel :: rel in order && AppliesTo(hash, world, snapshot, rel, file)
            then MtimeAfter(hash, world, snapshot, order, file) else once.files[file].mtime
  {
    if order != [] {
      var front, rel := order[..|order| - 1], order[|order| - 1];
      assert order == front + [rel];
      SecondMtime(hash, world, once, snapshot, front, file);
      if rel in snapshot {
        SameOutcomes(hash, world, once, rel, snapshot[rel]);
      }
      assert once.reach == world.reach;
      hide OutcomeAt, SameButMtimes;
      assert AppliesTo(hash, once, snapshot, rel, file) == AppliesTo(hash, world, snapshot, rel, file);
      hide AppliesTo;
      if AppliesTo(hash, world, snapshot, rel, file) {
        assert rel in order;
      }
    }
  }

  /** Replaying a second time in the same order changes nothing. */
  lemma ReplayIsIdempotent<C(!new), D>(hash: C -> D, world: World<C>, snapshot: Snapshot<D>, order: seq<string>)
    ensures var once := Replayed(hash, world, snapshot, order); Replayed(hash, once, snapshot, order) == once
  {
    var once := Replayed(hash, world, snapshot, order);
    var twice := Replayed(hash, once, snapshot, order);
    ReplayKeepsRest(hash, world, snapshot, order);
    ReplayKeepsRest(hash, once, snapshot, order);
    forall file | file in once.files
      ensures twice.files[file] == once.files[file]
    {
      if once.files[file].File? {
        assert world.files[file].File?;
        ReplaySetsLast(hash, world, snapshot, order, file);
        ReplaySetsLast(hash, once, snapshot, order, file);
        SecondMtime(hash, world, once, snapshot, order, file);
      }
    }
    assert twice.files == once.files;
  }

  /** The later checkout has the same bytes at a path, readable and settable. */
  ghost predicate SameContentAt<C(!new)>(cold: World<C>, warm: World<C>, rel: string) {
    IsFileAt(cold, rel) && IsFileAt(warm, rel) &&
    FileAt(warm, rel).content == FileAt(cold, rel).content && FileAt(warm, rel).size == FileAt(cold, rel).size &&
    FileAt(warm, rel).readable && FileAt(warm, rel).settable
  }

  /** Recorded names that reach one file in the later checkout had one mtime, as names of one file have. */
  ghost predicate NamesKeepMtimes<C(!new)>(cold: World<C>, warm: World<C>, candidates: seq<string>) {
    forall a, b ::
      a in candidates && b in candidates && CanRecord(cold, a) && CanRecord(cold, b) &&
      IsFileAt(warm, a) && IsFileAt(warm, b) && warm.reach[a] == warm.reach[b] ==>
      FileAt(cold, a).mtime.Floor == FileAt(cold, b).mtime.Floor
  }

  /** On unchanged content, in whatever order, the recorded whole milliseconds are set again. */
  lemma ReplayRestores<C(!new), D>(hash: C -> D, cold: World<C>, warm: World<C>, candidates: seq<string>,
                                   order: seq<string>, rel: string)
    requires rel in candidates && CanRecord(cold, rel) && SameContentAt(cold, warm, rel)
    requires NamesKeepMtimes(cold, warm, candidates)
    requires IsOrder(SnapshotOf(hash, cold, candidates), order)
    ensures var after := Replayed(hash, warm, SnapshotOf(hash, cold, candidates), order);
            IsFileAt(after, rel) && after.reach == warm.reach &&
            FileAt(after, rel) == FileAt(warm, rel).(mtime := warm.clock(FileAt(cold, rel).mtime.Floor))
  {
    var snapshot, file := SnapshotOf(hash, cold, candidates), warm.reach[rel];
    assert AppliesTo(hash, warm, snapshot, rel, file) && rel in order;
    ReplaySetsLast(hash, warm, snapshot, order, file);
    ReplayKeepsRest(hash, warm, snapshot, order);
    LastApplies(hash, warm, snapshot, order, file);
    var last :| last in order && AppliesTo(hash, warm, snapshot, last, file) &&
                MtimeAfter(hash, warm, snapshot, order, file) == warm.clock(snapshot[last].mtime);
    assert last in candidates && CanRecord(cold, last);
  }

  /** Setting a recorded mtime and reading it again gives the same whole milliseconds. */
  ghost predicate ClockKeeps<C(!new)>(cold: World<C>, warm: World<C>, candidates: seq<string>) {
    forall rel :: rel in candidates && CanRecord(cold, rel) ==>
      warm.clock(FileAt(cold, rel).mtime.Floor).Floor == FileAt(cold, rel).mtime.Floor
  }

  /** Recording again after the replay gives the first snapshot back, exactly when the clock keeps the recorded mtimes. */
  lemma SnapshotSurvivesReplay<C(!new), D>(hash: C -> D, cold: World<C>, warm: World<C>, candidates: seq<string>,
                                           order: seq<string>)
    requires forall rel :: rel in candidates ==>
               if CanRecord(cold, rel) then SameContentAt(cold, warm, rel) else !CanRecord(warm, rel)
    requires NamesKeepMtimes(cold, warm, candidates)
    requires IsOrder(SnapshotOf(hash, cold, candidates), order)
    ensures var first := SnapshotOf(hash, cold, candidates);
            SnapshotOf(hash, Replayed(hash, warm, first, order), candidates) == first <==>
            ClockKeeps(cold, warm, candidates)
  {
    var snapshot := SnapshotOf(hash, cold, candidates);
    var after := Replayed(hash, warm, snapshot, order);
    var again := SnapshotOf(hash, after, candidates);
    ReplayKeepsRest(hash, warm, snapshot, order);
    forall rel | rel in candidates
      ensures rel in again <==> rel in snapshot
      ensures CanRecord(cold, rel) ==>
                (again[rel] == snapshot[rel] <==>
                 warm.clock(FileAt(cold, rel).mtime.Floor).Floor == FileAt(cold, rel).mtime.Floor)
    {
      if CanRecord(cold, rel) {
        ReplayRestores(hash, cold, warm, candidates, order, rel);
      }
    }
    assert again.Keys == snapshot.Keys;
  }
}
