/** What runs of the pre-auth store can and cannot reach: when a key can be granted
    again, what is never loaded or spent, and the runs in which a promise fails. */
module PreauthRuns {
  import opened Wrappers
  import opened Sorting
  import opened PreauthPrune

  // ---- When a key can be granted again -------------------------------------

  /** Some run from here grants the key. */
  ghost predicate Grantable(s: State, id: Id) {
    exists t :: Leads(s, t) && t.granted[id] > s.granted[id]
  }

  predicate OutOfReach(s: State, id: Id) {
    id in s.used && !SomeoneHolds(s, id) && !Loadable(s, id)
  }

  lemma OutOfReachStays(s: State, step: Step, id: Id)
    requires Enabled(s, step) && Known(s) && OutOfReach(s, id)
    ensures OutOfReach(Apply(s, step), id) && Apply(s, step).granted[id] == s.granted[id]
  {
    KeysFade(s, step);
  }

  lemma {:induction false} OutOfReachRun(s: State, steps: seq<Step>, id: Id)
    requires IsRun(s, steps) && Known(s) && OutOfReach(s, id)
    ensures After(s, steps).granted[id] == s.granted[id]
    decreases |steps|
  {
    if steps != [] {
      OutOfReachStays(s, steps[0], id);
      KnownStep(s, steps[0]);
      OutOfReachRun(Apply(s, steps[0]), steps[1..], id);
    }
  }

  lemma FreshNumber(taken: set<nat>) returns (n: nat)
    ensures n !in taken
  {
    n := 0;
    ghost var rest := taken;
    while n in taken
      invariant rest <= taken && forall m: nat :: m in taken && m !in rest ==> m < n
      decreases rest
    {
      assert n in rest;
      rest := rest - {n};
      n := n + 1;
    }
  }

  /** A time before every expiry. */
  lemma EarlyTime(records: map<Id, Key>, now: int) returns (at: int)
    ensures at <= now && forall id <- records :: !IsExpired(records[id], at)
  {
    at := now;
    ghost var rest := records.Keys;
    while rest != {}
      invariant rest <= records.Keys && at <= now
      invariant forall id <- records.Keys - rest :: !IsExpired(records[id], at)
      decreases rest
    {
      var id :| id in rest;
      rest := rest - {id};
      var expiry := records[id].expiresAt;
      at := if expiry.Some? && expiry.value < at then expiry.value else at;
    }
  }

  /** The listing of records none of which has expired. */
  ghost function Unexpired(ids: seq<Id>): seq<(Id, bool)> {
    seq(|ids|, i requires 0 <= i < |ids| => (ids[i], false))
  }

  lemma UnexpiredMembers(ids: seq<Id>, id: Id)
    ensures (id, false) in Unexpired(ids) <==> id in ids
    ensures (id, true) !in Unexpired(ids)
  {
    if id in ids {
      var i :| 0 <= i < |ids| && ids[i] == id;
      assert Unexpired(ids)[i] == (id, false);
    }
  }

  lemma ListsUnexpired(s: State, at: int)
    requires forall id <- s.records :: !IsExpired(s.records[id], at)
    ensures ListsRecords(Unexpired(Elements(s.records.Keys)), at, s)
  {
    var ids := Elements(s.records.Keys);
    forall id | id in s.records
      ensures (id, IsExpired(s.records[id], at)) in Unexpired(ids)
    {
      UnexpiredMembers(ids, id);
    }
    forall k | k in Unexpired(ids)
      ensures k.0 in s.records && k.1 == IsExpired(s.records[k.0], at)
    {
      assert k.0 in ids;
    }
  }

  /** A prune may take the marker of a key whose record is gone, whoever holds it. */
  lemma MarkerCanGo(r: State, s: State, id: Id) returns (t: State)
    requires Leads(r, s) && id in s.markers && id !in s.records
    ensures Leads(r, t) && id !in t.markers && t.consumers == s.consumers && t.granted == s.granted
  {
    var p := FreshNumber(s.prunes.Keys);
    var at := EarlyTime(s.records, s.now);
    var ids, found := Elements(s.records.Keys), Elements(s.markers);
    ListsUnexpired(s, at);
    var s1 := Apply(s, ListRecords(p, at, Unexpired(ids)));
    Take(r, s, ListRecords(p, at, Unexpired(ids)), s1);
    assert (set m | m in found) == s1.markers;
    var s2 := Apply(s1, ListMarkers(p, found));
    Take(r, s1, ListMarkers(p, found), s2);
    TargetsExact(Unexpired(ids), found, id);
    UnexpiredMembers(ids, id);
    NothingExpired(ids, found);
    t := Apply(s2, DeleteMarker(p, id));
    Take(r, s2, DeleteMarker(p, id), t);
  }

  lemma NothingExpired(ids: seq<Id>, found: seq<Id>)
    ensures (set id | id in TargetsOf(Unexpired(ids), found).expired) == {}
  {
    forall id
      ensures id !in TargetsOf(Unexpired(ids), found).expired
    {
      TargetsExact(Unexpired(ids), found, id);
      UnexpiredMembers(ids, id);
    }
  }

  lemma HeldIsGrantable(r: State, s: State, id: Id)
    requires Leads(r, s) && SomeoneHolds(s, id) && s.granted == r.granted
    ensures Grantable(r, id)
  {
    var c :| c in s.consumers && s.consumers[c] == Loaded(id);
    var t := s;
    if id in s.markers {
      var gone := Apply(s, Revoke(id));
      Take(r, s, Revoke(id), gone);
      t := MarkerCanGo(r, gone, id);
    }
    var granted := Apply(t, Claim(c));
    Take(r, t, Claim(c), granted);
    assert granted.granted == r.granted + multiset{id};
  }

  /** Exactly when a minted key can be granted, or granted again: a consumer holds it
      loaded, or its record can be loaded; its marker does not decide. */
  lemma GrantableIff(s: State, id: Id)
    requires Reached(s) && id in s.used
    ensures Grantable(s, id) <==> SomeoneHolds(s, id) || Loadable(s, id)
  {
    ReachedKeepsInv(s);
    Nowhere(s);
    if SomeoneHolds(s, id) {
      HeldIsGrantable(s, s, id);
    } else if Loadable(s, id) {
      var c := FreshNumber(s.consumers.Keys);
      var t := Apply(s, Load(c, id));
      Take(s, s, Load(c, id), t);
      assert t.consumers[c] == Loaded(id);
      HeldIsGrantable(s, t, id);
    } else if Grantable(s, id) {
      var t :| Leads(s, t) && t.granted[id] > s.granted[id];
      var steps :| IsRun(s, steps) && After(s, steps) == t;
      OutOfReachRun(s, steps, id);
      assert false;
    }
  }

  /** A key whose expiry has passed is loaded by nobody, now or after any run. */
  lemma ExpiredIsNeverLoaded(s: State, t: State, id: Id, c: nat)
    requires Reached(s) && Leads(s, t) && id in s.records
    requires s.records[id].expiresAt.Some? && s.records[id].expiresAt.value < s.now
    ensures !Enabled(t, Load(c, id))
  {
    ReachedKeepsInv(s);
    var steps :| IsRun(s, steps) && After(s, steps) == t;
    GoneStaysGone(s, steps, id);
  }

  lemma {:induction false} GoneStaysGone(s: State, steps: seq<Step>, id: Id)
    requires IsRun(s, steps) && Known(s) && id in s.used && !Consumable(s, id)
    ensures !Consumable(After(s, steps), id)
    decreases |steps|
  {
    if steps != [] {
      KeysFade(s, steps[0]);
      KnownStep(s, steps[0]);
      GoneStaysGone(Apply(s, steps[0]), steps[1..], id);
    }
  }

  /** A single-use key whose expiry has not passed can be loaded. */
  lemma UnexpiredIsLoadable(s: State, id: Id, c: nat)
    requires id in s.records && s.records[id].singleUse && c !in s.consumers
    requires s.records[id].expiresAt.Some? ==> s.now <= s.records[id].expiresAt.value
    ensures Enabled(s, Load(c, id))
  {
  }

  /** A prune lists each record there was, and keeps what expired until it deletes it. */
  predicate RecordsPending(s: State, prune: Prune) {
    match prune
    case Listed(keys, minted) =>
      forall id <- minted :: id in s.records ==> (id, false) in keys || (id, true) in keys
    case Deleting(expired, orphaned, minted) =>
      forall id <- orphaned :: id in minted && id in s.records ==> id in expired
  }

  predicate PrunesPending(s: State) {
    forall p <- s.prunes :: s.prunes[p].minted <= s.used && RecordsPending(s, s.prunes[p])
  }

  lemma PendingStep(s: State, step: Step)
    requires Enabled(s, step) && Known(s) && PrunesPending(s)
    ensures PrunesPending(Apply(s, step))
  {
    var t := Apply(s, step);
    forall p | p in t.prunes
      ensures t.prunes[p].minted <= t.used && RecordsPending(t, t.prunes[p])
    {
      if step.ListMarkers? && step.p == p {
        assert RecordsPending(s, s.prunes[p]);
        forall id | id in t.prunes[p].orphaned && id in t.prunes[p].minted && id in t.records
          ensures id in t.prunes[p].expired
        {
          TargetsExact(s.prunes[p].keys, step.found, id);
        }
      } else if step.ListRecords? && step.p == p {
        assert forall id <- s.records :: (id, IsExpired(s.records[id], step.at)) in step.listing;
      } else {
        assert RecordsPending(s, s.prunes[p]);
      }
    }
  }

  lemma {:induction false} PendingRun(s: State, steps: seq<Step>)
    requires IsRun(s, steps) && Known(s) && PrunesPending(s)
    ensures PrunesPending(After(s, steps))
    decreases |steps|
  {
    if steps != [] {
      PendingStep(s, steps[0]);
      KnownStep(s, steps[0]);
      PendingRun(Apply(s, steps[0]), steps[1..]);
    }
  }

  /** A prune takes a marker only once the key's record is gone, unless the key was minted
      after it listed the records. */
  lemma RecordsGoFirst(s: State, p: nat, id: Id)
    requires Reached(s) && Enabled(s, DeleteMarker(p, id)) && id in s.prunes[p].minted
    ensures id !in s.records
  {
    var steps :| IsRun(START, steps) && After(START, steps) == s;
    PendingRun(START, steps);
    assert RecordsPending(s, s.prunes[p]);
  }

  /** No multi-use key is held, granted or marked. */
  predicate MultiUseUntouched(s: State) {
    forall id <- s.records ::
      !s.records[id].singleUse ==> id !in s.markers && id !in s.granted && !SomeoneHolds(s, id)
  }

  lemma UntouchedStep(s: State, step: Step)
    requires Enabled(s, step) && Known(s) && MultiUseUntouched(s)
    ensures MultiUseUntouched(Apply(s, step))
  {
    KeysFade(s, step);
  }

  lemma {:induction false} UntouchedRun(s: State, steps: seq<Step>)
    requires IsRun(s, steps) && Known(s) && MultiUseUntouched(s)
    ensures MultiUseUntouched(After(s, steps))
    decreases |steps|
  {
    if steps != [] {
      UntouchedStep(s, steps[0]);
      KnownStep(s, steps[0]);
      UntouchedRun(Apply(s, steps[0]), steps[1..]);
    }
  }

  /** No run holds, grants or marks a multi-use key. */
  lemma MultiUseIsNeverSpent(s: State)
    requires Reached(s)
    ensures MultiUseUntouched(s)
  {
    var steps :| IsRun(START, steps) && After(START, steps) == s;
    UntouchedRun(START, steps);
  }

  /** What a claim that grants a key again shows of its history. */
  lemma SecondGrantHasCause(s: State, c: nat)
    requires Reached(s) && Enabled(s, Claim(c)) && s.consumers[c].id in s.granted && s.consumers[c].id !in s.markers
    ensures s.consumers[c].id in s.early || s.consumers[c].id in s.raced
  {
    ReachedKeepsInv(s);
  }

  // ---- Both failures happen ------------------------------------------------

  /** A prune that listed no consumable record takes the only marker. */
  lemma OnlyMarker(id: Id, found: seq<Id>)
    requires found == [id]
    ensures (set m | m in TargetsOf([], found).orphaned) == {id}
    ensures (set m | m in TargetsOf([], found).expired) == {}
  {
    forall m
      ensures m in TargetsOf([], found).orphaned <==> m == id
    {
      TargetsExact([], found, m);
    }
  }

  /** A key minted and spent between the two listings: its marker is listed, its record
      was not, and the prune takes the marker from a key that can still be loaded. */
  lemma WindowMintLosesMarker(id: Id, key: Key) returns (s: State)
    requires key.singleUse && key.expiresAt.None?
    ensures Reached(s) && id in s.granted && Consumable(s, id) && id !in s.markers && s.raced == {}
  {
    var s1 := START.(prunes := map[0 := Listed([], {})]);
    Nowhere(START);
    Take(START, START, ListRecords(0, 0, []), s1);
    var s2 := s1.(used := {id}, records := map[id := key]);
    Take(START, s1, Mint(id, key), s2);
    var s3 := s2.(consumers := map[0 := Loaded(id)]);
    Take(START, s2, Load(0, id), s3);
    var s4 := s3.(markers := {id}, granted := multiset{id}, consumers := map[0 := Claimed(id)]);
    Take(START, s3, Claim(0), s4);
    s := PruneTakesMarker(id, {}, s4);
  }

  /** A prune that listed no record takes the marker, early if the key was not minted yet. */
  lemma PruneTakesMarker(id: Id, minted: set<Id>, s4: State) returns (s: State)
    requires Reached(s4) && s4.markers == {id} && s4.prunes == map[0 := Listed([], minted)]
    requires s4.taken == s4.early == multiset{} && s4.raced == {}
    ensures Reached(s)
    ensures s == s4.(markers := {}, prunes := map[0 := Deleting({}, {}, minted)], taken := multiset{id},
                     early := if id in minted then multiset{} else multiset{id},
                     raced := if SomeoneHolds(s4, id) then {id} else {})
  {
    var s5 := s4.(prunes := map[0 := Deleting({}, {id}, minted)]);
    OnlyMarker(id, [id]);
    Take(START, s4, ListMarkers(0, [id]), s5);
    s := Apply(s5, DeleteMarker(0, id));
    assert {id} - {id} == {};
    assert SomeoneHolds(s5.(prunes := s.prunes), id) == SomeoneHolds(s4, id);
    Take(START, s5, DeleteMarker(0, id), s);
  }

  /** A consumer that loads before another spends, and claims after the prune. */
  lemma RacedClaimGrantsTwice(id: Id, key: Key) returns (s: State)
    requires key.singleUse && key.expiresAt.None?
    ensures Reached(s) && s.granted[id] == 2 && s.early == multiset{}
  {
    var s1 := START.(used := {id}, records := map[id := key]);
    Nowhere(START);
    Take(START, START, Mint(id, key), s1);
    var s2 := s1.(consumers := map[0 := Loaded(id)]);
    Take(START, s1, Load(0, id), s2);
    var s3 := s1.(consumers := map[0 := Loaded(id), 1 := Loaded(id)]);
    Take(START, s2, Load(1, id), s3);
    s := FromTwoHolders(id, key, s3);
  }

  lemma FromTwoHolders(id: Id, key: Key, s3: State) returns (s: State)
    requires Reached(s3) && s3 == START.(used := {id}, records := map[id := key], consumers := s3.consumers)
    requires s3.consumers == map[0 := Loaded(id), 1 := Loaded(id)]
    ensures Reached(s) && s.granted[id] == 2 && s.early == multiset{}
  {
    var s4 := s3.(markers := {id}, granted := multiset{id}, consumers := map[0 := Claimed(id), 1 := Loaded(id)]);
    Take(START, s3, Claim(0), s4);
    var s5 := s4.(records := map[], consumers := map[1 := Loaded(id)]);
    Take(START, s4, DeleteSpent(0), s5);
    s := FromSpentRecord(id, s5);
  }

  lemma FromSpentRecord(id: Id, s5: State) returns (s: State)
    requires Reached(s5) && s5.now == 0 && s5.used == {id} && s5.records == map[] && s5.markers == {id}
    requires s5.prunes == map[] && s5.consumers == map[1 := Loaded(id)] && s5.granted == multiset{id}
    requires s5.taken == s5.early == multiset{} && s5.raced == {}
    ensures Reached(s) && s.granted[id] == 2 && s.early == multiset{}
  {
    var s6 := s5.(prunes := map[0 := Listed([], {id})]);
    Take(START, s5, ListRecords(0, 0, []), s6);
    var s7 := PruneTakesMarker(id, {id}, s6);
    s := Apply(s7, Claim(1));
    Take(START, s7, Claim(1), s);
  }
}
