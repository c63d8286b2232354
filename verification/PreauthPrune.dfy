/** Pruning pre-auth keys while clients spend them. A single-use key is spent by
    creating its marker; the record is deleted afterwards, and a prune deletes
    expired records and the markers no consumable record needs. Every store call is
    one step, so prunes, mints, revocations and consumers interleave freely. */
module PreauthPrune {
  import opened Wrappers

  type Id = string

  datatype Key = Key(singleUse: bool, expiresAt: Option<int>)

  predicate IsExpired(key: Key, now: int) {
    key.expiresAt.Some? && key.expiresAt.value < now
  }

  // ---- What a prune deletes ------------------------------------------------

  datatype Targets = Targets(expired: seq<Id>, orphaned: seq<Id>)

  function ExpiredIds(keys: seq<(Id, bool)>): seq<Id> {
    if keys == [] then [] else (if keys[0].1 then [keys[0].0] else []) + ExpiredIds(keys[1..])
  }

  function HeldIds(keys: seq<(Id, bool)>): set<Id> {
    set k | k in keys && !k.1 :: k.0
  }

  function NotHeld(markers: seq<Id>, held: set<Id>): seq<Id> {
    if markers == [] then []
    else (if markers[0] in held then [] else [markers[0]]) + NotHeld(markers[1..], held)
  }

  function TargetsOf(keys: seq<(Id, bool)>, markers: seq<Id>): Targets {
    Targets(ExpiredIds(keys), NotHeld(markers, HeldIds(keys)))
  }

  /** A record goes exactly when it has expired; a marker exactly when no listed
      record of its key is still consumable. */
  lemma {:induction false} TargetsExact(keys: seq<(Id, bool)>, markers: seq<Id>, id: Id)
    ensures id in TargetsOf(keys, markers).expired <==> (id, true) in keys
    ensures id in TargetsOf(keys, markers).orphaned <==> id in markers && (id, false) !in keys
  {
    ExpiredExact(keys, id);
    NotHeldExact(markers, HeldIds(keys), id);
    assert id in HeldIds(keys) <==> (id, false) in keys;
  }

  lemma {:induction false} ExpiredExact(keys: seq<(Id, bool)>, id: Id)
    ensures id in ExpiredIds(keys) <==> (id, true) in keys
  {
    if keys != [] {
      ExpiredExact(keys[1..], id);
      assert keys == [keys[0]] + keys[1..];
    }
  }

  lemma {:induction false} NotHeldExact(markers: seq<Id>, held: set<Id>, id: Id)
    ensures id in NotHeld(markers, held) <==> id in markers && id !in held
  {
    if markers != [] {
      NotHeldExact(markers[1..], held, id);
      assert markers == [markers[0]] + markers[1..];
    }
  }

  // ---- The store and its users ---------------------------------------------

  /** A prune lists records at its clock reading, then markers, then deletes. It is told
      apart by the ids that had been minted when it listed the records. */
  datatype Prune =
    | Listed(keys: seq<(Id, bool)>, minted: set<Id>)
    | Deleting(expired: set<Id>, orphaned: set<Id>, minted: set<Id>)

  /** A consumer holds a loaded key, then has claimed it and owes the record's deletion. */
  datatype Consumer = Loaded(id: Id) | Claimed(id: Id)

  datatype State = State(
    now: int,
    used: set<Id>,                // every id ever minted
    records: map<Id, Key>,
    markers: set<Id>,
    prunes: map<nat, Prune>,
    consumers: map<nat, Consumer>,
    granted: multiset<Id>,        // each single-use grant
    taken: multiset<Id>,          // each marker a prune took
    early: multiset<Id>,          // those of keys minted after that prune listed the records
    raced: set<Id>)               // keys a consumer held loaded when their marker was taken

  datatype Step =
    | Tick(time: int)
    | Mint(id: Id, key: Key)
    | Revoke(id: Id)
    | ListRecords(p: nat, at: int, listing: seq<(Id, bool)>)
    | ListMarkers(p: nat, found: seq<Id>)
    | DeleteExpired(p: nat, id: Id)
    | DeleteMarker(p: nat, id: Id)
    | StopPrune(p: nat)
    | Load(c: nat, id: Id)
    | Claim(c: nat)
    | DeleteSpent(c: nat)
    | StopConsumer(c: nat)

  const START: State := State(0, {}, map[], {}, map[], map[], multiset{}, multiset{}, multiset{}, {})

  /** A listing names each record, with whether it had expired at the prune's clock reading. */
  predicate ListsRecords(listing: seq<(Id, bool)>, at: int, s: State) {
    && (forall k <- listing :: k.0 in s.records && k.1 == IsExpired(s.records[k.0], at))
    && (forall id <- s.records :: (id, IsExpired(s.records[id], at)) in listing)
  }

  predicate Enabled(s: State, step: Step) {
    match step
    case Tick(time) => time >= s.now
    case Mint(id, _) => id !in s.used
    case Revoke(_) => true
    case ListRecords(p, at, listing) => p !in s.prunes && at <= s.now && ListsRecords(listing, at, s)
    case ListMarkers(p, found) => p in s.prunes && s.prunes[p].Listed? && (set id | id in found) == s.markers
    case DeleteExpired(p, id) => p in s.prunes && s.prunes[p].Deleting? && id in s.prunes[p].expired
    case DeleteMarker(p, id) =>
      p in s.prunes && s.prunes[p].Deleting? && s.prunes[p].expired == {} && id in s.prunes[p].orphaned
    case StopPrune(p) => p in s.prunes
    case Load(c, id) => c !in s.consumers && Loadable(s, id)
    case Claim(c) => c in s.consumers && s.consumers[c].Loaded?
    case DeleteSpent(c) => c in s.consumers && s.consumers[c].Claimed?
    case StopConsumer(c) => c in s.consumers
  }

  /** The record is there and has not expired. */
  predicate Consumable(s: State, id: Id) {
    id in s.records && !IsExpired(s.records[id], s.now)
  }

  predicate Loadable(s: State, id: Id) {
    Consumable(s, id) && s.records[id].singleUse
  }

  predicate SomeoneHolds(s: State, id: Id) {
    exists c <- s.consumers :: s.consumers[c] == Loaded(id)
  }

  function Apply(s: State, step: Step): State
    requires Enabled(s, step)
  {
    match step
    case Tick(time) => s.(now := time)
    case Mint(id, key) => s.(used := s.used + {id}, records := s.records[id := key])
    case Revoke(id) => s.(records := s.records - {id})
    case ListRecords(p, _, listing) => s.(prunes := s.prunes[p := Listed(listing, s.used)])
    case ListMarkers(p, found) =>
      var t := TargetsOf(s.prunes[p].keys, found);
      s.(prunes := s.prunes[p :=
           Deleting((set id | id in t.expired), (set id | id in t.orphaned), s.prunes[p].minted)])
    case DeleteExpired(p, id) =>
      s.(records := s.records - {id},
         prunes := s.prunes[p := s.prunes[p].(expired := s.prunes[p].expired - {id})])
    case DeleteMarker(p, id) =>
      TakeMarker(s.(prunes := s.prunes[p := s.prunes[p].(orphaned := s.prunes[p].orphaned - {id})]),
                 id, id !in s.prunes[p].minted)
    case StopPrune(p) => s.(prunes := s.prunes - {p})
    case Load(c, id) => s.(consumers := s.consumers[c := Loaded(id)])
    case Claim(c) =>
      var id := s.consumers[c].id;
      if id in s.markers then s.(consumers := s.consumers - {c})
      else s.(markers := s.markers + {id}, granted := s.granted + multiset{id},
              consumers := s.consumers[c := Claimed(id)])
    case DeleteSpent(c) => s.(records := s.records - {s.consumers[c].id}, consumers := s.consumers - {c})
    case StopConsumer(c) => s.(consumers := s.consumers - {c})
  }

  /** Deletes a marker; one already gone is no loss. */
  function TakeMarker(s: State, id: Id, isEarly: bool): State {
    if id !in s.markers then s
    else
      s.(markers := s.markers - {id},
         taken := s.taken + multiset{id},
         early := if isEarly then s.early + multiset{id} else s.early,
         raced := if SomeoneHolds(s, id) then s.raced + {id} else s.raced)
  }

  /** The steps can happen, one after another, from the state. */
  predicate IsRun(s: State, steps: seq<Step>)
    decreases |steps|
  {
    steps == [] || (Enabled(s, steps[0]) && IsRun(Apply(s, steps[0]), steps[1..]))
  }

  function After(s: State, steps: seq<Step>): State
    requires IsRun(s, steps)
    decreases |steps|
  {
    if steps == [] then s else After(Apply(s, steps[0]), steps[1..])
  }

  // ---- The invariant -------------------------------------------------------

  /** Nothing names an id that was never minted. */
  predicate Known(s: State) {
    && s.records.Keys <= s.used && s.markers <= s.used
    && (forall id <- s.granted :: id in s.used)
    && (forall c <- s.consumers :: s.consumers[c].id in s.used)
  }

  /** A prune has listed every consumable key minted by then, and no later one; what it
      may still delete is beyond use, unless minted later. */
  predicate PruneSound(s: State, prune: Prune) {
    prune.minted <= s.used &&
    match prune
    case Listed(keys, minted) =>
      && (forall id <- minted :: Consumable(s, id) ==> (id, false) in keys)
      && (forall k <- keys :: k.0 in minted)
    case Deleting(_, orphaned, minted) =>
      forall id <- orphaned :: id in s.used && (Consumable(s, id) ==> id !in minted)
  }

  predicate PrunesSound(s: State) {
    forall p <- s.prunes :: PruneSound(s, s.prunes[p])
  }

  /** A grant's marker is there until a prune takes it. */
  ghost predicate Conserved(s: State) {
    forall id: Id :: s.granted[id] == s.taken[id] + if id in s.markers then 1 else 0
  }

  /** Only a prune that came too early takes the marker of a key that can be loaded. */
  ghost predicate TakenEarly(s: State) {
    forall id: Id :: s.early[id] <= s.taken[id] && (Consumable(s, id) ==> s.early[id] == s.taken[id])
  }

  /** If the key was granted and its marker is gone, one of the two causes took it. */
  predicate Explained(s: State, id: Id) {
    id in s.granted && id !in s.markers ==> id in s.early || id in s.raced
  }

  /** A spent key without its marker is in nobody's hands. */
  predicate SpentAreNotHeld(s: State) {
    forall c <- s.consumers :: s.consumers[c].Loaded? ==> Explained(s, s.consumers[c].id)
  }

  /** No other key was granted twice. */
  ghost predicate GrantedOnce(s: State) {
    forall id: Id :: s.granted[id] <= 1 || id in s.early || id in s.raced
  }

  ghost predicate Inv(s: State) {
    Known(s) && PrunesSound(s) && Conserved(s) && TakenEarly(s) && SpentAreNotHeld(s) && GrantedOnce(s)
  }

  // ---- Every step keeps it -------------------------------------------------

  /** A key once out of reach stays so, and history only grows. */
  lemma KeysFade(s: State, step: Step)
    requires Enabled(s, step) && Known(s)
    ensures var t := Apply(s, step);
            && (forall id <- s.used :: Consumable(t, id) ==> Consumable(s, id) && t.records[id] == s.records[id])
            && s.used <= t.used && s.early <= t.early && s.raced <= t.raced
  {
  }

  lemma KnownStep(s: State, step: Step)
    requires Enabled(s, step) && Known(s)
    ensures Known(Apply(s, step))
  {
    match step
    case Claim(c) =>
      assert s.consumers[c].id in s.used;
    case _ =>
  }

  lemma PrunesStep(s: State, step: Step)
    requires Enabled(s, step) && Known(s) && PrunesSound(s)
    ensures PrunesSound(Apply(s, step))
  {
    var t := Apply(s, step);
    KeysFade(s, step);
    forall p | p in t.prunes
      ensures PruneSound(t, t.prunes[p])
    {
      if step.ListMarkers? && step.p == p {
        MarkersListed(s, p, step.found);
      } else if step.ListRecords? && step.p == p {
        forall id | id in t.used && Consumable(t, id)
          ensures (id, false) in step.listing
        {
          assert (id, IsExpired(s.records[id], step.at)) in step.listing;
        }
      } else {
        assert PruneSound(s, s.prunes[p]);
      }
    }
  }

  lemma MarkersListed(s: State, p: nat, found: seq<Id>)
    requires Known(s) && PrunesSound(s) && Enabled(s, ListMarkers(p, found))
    ensures var t := Apply(s, ListMarkers(p, found)); PruneSound(t, t.prunes[p])
  {
    var t := Apply(s, ListMarkers(p, found));
    assert PruneSound(s, s.prunes[p]);
    forall id | id in t.prunes[p].orphaned
      ensures id in t.used && (Consumable(t, id) ==> id !in t.prunes[p].minted)
    {
      TargetsExact(s.prunes[p].keys, found, id);
    }
  }

  lemma ConservedStep(s: State, step: Step)
    requires Enabled(s, step) && Conserved(s)
    ensures Conserved(Apply(s, step))
  {
  }

  lemma TakenEarlyStep(s: State, step: Step)
    requires Enabled(s, step) && Known(s) && PrunesSound(s) && Conserved(s) && TakenEarly(s)
    ensures TakenEarly(Apply(s, step))
  {
    var t := Apply(s, step);
    KeysFade(s, step);
    forall id: Id
      ensures t.early[id] <= t.taken[id] && (Consumable(t, id) ==> t.early[id] == t.taken[id])
    {
      assert s.early[id] <= s.taken[id] <= s.granted[id];
      if step.DeleteMarker? {
        assert PruneSound(s, s.prunes[step.p]);
      } else if id !in s.used {
        assert s.granted[id] == 0;
      }
    }
  }

  lemma HeldStaysExplained(s: State, step: Step, id: Id)
    requires Enabled(s, step) && Known(s) && SomeoneHolds(s, id) && Explained(s, id)
    ensures Explained(Apply(s, step), id)
  {
    KeysFade(s, step);
  }

  lemma LoadedIsExplained(s: State, id: Id)
    requires Conserved(s) && TakenEarly(s) && Consumable(s, id)
    ensures Explained(s, id)
  {
    assert s.granted[id] == s.taken[id] + if id in s.markers then 1 else 0;
    assert s.early[id] == s.taken[id];
  }

  lemma NotHeldStep(s: State, step: Step)
    requires Enabled(s, step) && Known(s) && Conserved(s) && TakenEarly(s) && SpentAreNotHeld(s)
    ensures SpentAreNotHeld(Apply(s, step))
  {
    var t := Apply(s, step);
    forall c | c in t.consumers && t.consumers[c].Loaded?
      ensures Explained(t, t.consumers[c].id)
    {
      var id := t.consumers[c].id;
      if step.Load? && step.c == c {
        LoadedIsExplained(s, id);
      } else {
        assert c in s.consumers && s.consumers[c] == Loaded(id);
        HeldStaysExplained(s, step, id);
      }
    }
  }

  lemma OnceStep(s: State, step: Step)
    requires Enabled(s, step) && Known(s) && SpentAreNotHeld(s) && GrantedOnce(s)
    ensures GrantedOnce(Apply(s, step))
  {
    KeysFade(s, step);
  }

  lemma {:induction false} RunKeepsInv(s: State, steps: seq<Step>)
    requires Inv(s) && IsRun(s, steps)
    ensures Inv(After(s, steps))
    decreases |steps|
  {
    if steps != [] {
      StepKeepsInv(s, steps[0]);
      RunKeepsInv(Apply(s, steps[0]), steps[1..]);
    }
  }

  lemma StepKeepsInv(s: State, step: Step)
    requires Inv(s) && Enabled(s, step)
    ensures Inv(Apply(s, step))
  {
    KnownStep(s, step);
    PrunesStep(s, step);
    ConservedStep(s, step);
    TakenEarlyStep(s, step);
    NotHeldStep(s, step);
    OnceStep(s, step);
  }

  // ---- Runs ----------------------------------------------------------------

  /** Some run of steps leads from one state to the other. */
  ghost predicate Leads(s: State, t: State) {
    exists steps :: IsRun(s, steps) && After(s, steps) == t
  }

  ghost predicate Reached(s: State) {
    Leads(START, s)
  }

  lemma {:induction false} ExtendRun(s: State, steps: seq<Step>, step: Step)
    requires IsRun(s, steps) && Enabled(After(s, steps), step)
    ensures IsRun(s, steps + [step]) && After(s, steps + [step]) == Apply(After(s, steps), step)
    decreases |steps|
  {
    if steps == [] {
      assert steps + [step] == [step];
      assert [step][1..] == [];
    } else {
      assert (steps + [step])[1..] == steps[1..] + [step];
      ExtendRun(Apply(s, steps[0]), steps[1..], step);
    }
  }

  lemma Nowhere(s: State)
    ensures Leads(s, s)
  {
    assert IsRun(s, []) && After(s, []) == s;
  }

  lemma Take(r: State, s: State, step: Step, t: State)
    requires Leads(r, s) && Enabled(s, step) && Apply(s, step) == t
    ensures Leads(r, t)
  {
    var steps :| IsRun(r, steps) && After(r, steps) == s;
    ExtendRun(r, steps, step);
  }

  lemma ReachedKeepsInv(s: State)
    requires Reached(s)
    ensures Inv(s)
  {
    var steps :| IsRun(START, steps) && After(START, steps) == s;
    RunKeepsInv(START, steps);
  }

  // ---- Which markers a prune takes -----------------------------------------

  /** Of the marked keys that can still be loaded, the markers a prune takes are exactly
      those of the keys minted after it listed the records. */
  lemma OrphanedIff(s: State, p: nat, found: seq<Id>, id: Id)
    requires Reached(s) && Enabled(s, ListMarkers(p, found)) && id in s.markers && Consumable(s, id)
    ensures id in Apply(s, ListMarkers(p, found)).prunes[p].orphaned <==> id !in s.prunes[p].minted
  {
    ReachedKeepsInv(s);
    assert PruneSound(s, s.prunes[p]);
    TargetsExact(s.prunes[p].keys, found, id);
    assert id in found <==> id in s.markers;
    if (id, false) in s.prunes[p].keys {
      assert (id, false).0 in s.prunes[p].minted;
    }
  }

  /** The same over a run: a prune lists the records, anything happens, and while it still
      has that listing it lists the markers. */
  lemma MarkerTakenIff(s0: State, p: nat, at: int, listing: seq<(Id, bool)>, s: State, found: seq<Id>, id: Id)
    requires Reached(s0) && Enabled(s0, ListRecords(p, at, listing))
    requires Leads(Apply(s0, ListRecords(p, at, listing)), s) && Enabled(s, ListMarkers(p, found))
    requires s.prunes[p] == Apply(s0, ListRecords(p, at, listing)).prunes[p]
    requires id in s.markers && Consumable(s, id)
    ensures id in Apply(s, ListMarkers(p, found)).prunes[p].orphaned <==> id !in s0.used
  {
    var s1 := Apply(s0, ListRecords(p, at, listing));
    Take(START, s0, ListRecords(p, at, listing), s1);
    Chain(START, s1, s);
    OrphanedIff(s, p, found, id);
  }

  lemma {:induction false} Follow(r: State, s: State, steps: seq<Step>)
    requires Leads(r, s) && IsRun(s, steps)
    ensures Leads(r, After(s, steps))
    decreases |steps|
  {
    if steps != [] {
      Take(r, s, steps[0], Apply(s, steps[0]));
      Follow(r, Apply(s, steps[0]), steps[1..]);
    }
  }

  lemma Chain(r: State, s: State, t: State)
    requires Leads(r, s) && Leads(s, t)
    ensures Leads(r, t)
  {
    var steps :| IsRun(s, steps) && After(s, steps) == t;
    Follow(r, s, steps);
  }

  // ---- Safety over every run -----------------------------------------------

  /** Of a key that can still be loaded, every grant's marker is there but those that
      prunes took too early: so it is unmarked after a grant exactly when as many were
      taken as were granted, and never without such a prune. */
  lemma SpentKeysStaySpent(s: State, id: Id)
    requires Reached(s) && Consumable(s, id) && id in s.granted
    ensures id !in s.markers <==> s.granted[id] == s.early[id]
    ensures id !in s.early ==> id in s.markers
  {
    ReachedKeepsInv(s);
    assert s.granted[id] == s.taken[id] + if id in s.markers then 1 else 0;
    assert s.early[id] == s.taken[id];
  }

  /** No run grants a single-use key more often than prunes took its marker, and once;
      nor twice, unless a prune took it too early or while a consumer that had loaded the
      key was yet to claim it. */
  lemma SingleUseIsGrantedOnce(s: State, id: Id)
    requires Reached(s)
    ensures s.granted[id] == s.taken[id] + if id in s.markers then 1 else 0
    ensures s.granted[id] <= 1 || id in s.early || id in s.raced
  {
    ReachedKeepsInv(s);
  }
}
