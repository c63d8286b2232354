/** Who holds a plan's jobs: a listing of leases that may name a job twice, collapsed
    to one holder per job and split on its deadline. */
module PlanLeases {
  import opened Wrappers
  import opened Text
  import opened Sorting

  datatype Lease = Lease(jobId: string, expiresAt: Option<int>, clientId: string, leaseExpiry: int)

  datatype Report = Report(live: seq<Lease>, lapsed: seq<Lease>, unparseableKeys: nat, readAt: int)

  /** By client id, then job id. */
  predicate HolderLe(a: Lease, b: Lease) {
    if a.clientId == b.clientId then Le(a.jobId, b.jobId) else Le(a.clientId, b.clientId)
  }

  /** The listing's lease on its job with the latest deadline, the earliest listed of those. */
  predicate HoldsAt(leases: seq<Lease>, i: int) {
    && 0 <= i < |leases|
    && (forall j :: 0 <= j < |leases| && leases[j].jobId == leases[i].jobId ==>
          leases[j].leaseExpiry <= leases[i].leaseExpiry)
    && (forall j :: 0 <= j < i && leases[j].jobId == leases[i].jobId ==>
          leases[j].leaseExpiry < leases[i].leaseExpiry)
  }

  ghost predicate IsHolder(leases: seq<Lease>, lease: Lease) {
    exists i :: HoldsAt(leases, i) && leases[i] == lease
  }

  predicate DistinctJobs(leases: seq<Lease>) {
    forall i, j :: 0 <= i < j < |leases| ==> leases[i].jobId != leases[j].jobId
  }

  predicate IsLive(lease: Lease, now: int) {
    lease.leaseExpiry > now
  }

  /** A list of exactly the holders on one side of the deadline, one per job, in holder order. */
  ghost predicate ListsHolders(list: seq<Lease>, leases: seq<Lease>, now: int, live: bool) {
    && DistinctJobs(list) && Sorted(list, HolderLe)
    && forall lease :: lease in list <==> IsHolder(leases, lease) && IsLive(lease, now) == live
  }

  ghost predicate IsReport(r: Report, leases: seq<Lease>) {
    && ListsHolders(r.live, leases, r.readAt, true)
    && ListsHolders(r.lapsed, leases, r.readAt, false)
  }

  // ---- Collapsing ----------------------------------------------------------

  /** The map holds, for each job listed so far, the lease that holds it. */
  ghost predicate Collapsed(latest: map<string, Lease>, leases: seq<Lease>) {
    && (forall i :: 0 <= i < |leases| ==> leases[i].jobId in latest)
    && (forall job <- latest :: latest[job].jobId == job && IsHolder(leases, latest[job]))
  }

  /** One more lease: the holder changes only for a strictly later deadline. */
  lemma CollapseStep(latest: map<string, Lease>, seen: seq<Lease>, lease: Lease)
    requires Collapsed(latest, seen)
    ensures var keeps := lease.jobId in latest && latest[lease.jobId].leaseExpiry >= lease.leaseExpiry;
            Collapsed(if keeps then latest else latest[lease.jobId := lease], seen + [lease])
  {
    var all := seen + [lease];
    var keeps := lease.jobId in latest && latest[lease.jobId].leaseExpiry >= lease.leaseExpiry;
    var next := if keeps then latest else latest[lease.jobId := lease];
    forall job | job in next
      ensures next[job].jobId == job && IsHolder(all, next[job])
    {
      if job == lease.jobId && !keeps {
        LaterLeaseHolds(latest, seen, lease);
      } else {
        HolderStays(seen, latest[job], lease);
      }
    }
  }

  lemma HolderStays(seen: seq<Lease>, holder: Lease, lease: Lease)
    requires IsHolder(seen, holder)
    requires lease.jobId == holder.jobId ==> lease.leaseExpiry <= holder.leaseExpiry
    ensures IsHolder(seen + [lease], holder)
  {
    var i :| HoldsAt(seen, i) && seen[i] == holder;
    assert HoldsAt(seen + [lease], i);
  }

  lemma LaterLeaseHolds(latest: map<string, Lease>, seen: seq<Lease>, lease: Lease)
    requires Collapsed(latest, seen)
    requires lease.jobId in latest ==> latest[lease.jobId].leaseExpiry < lease.leaseExpiry
    ensures IsHolder(seen + [lease], lease)
  {
    var all := seen + [lease];
    forall j | 0 <= j < |seen| && seen[j].jobId == lease.jobId
      ensures seen[j].leaseExpiry < lease.leaseExpiry
    {
      var i :| HoldsAt(seen, i) && seen[i] == latest[lease.jobId];
    }
    assert HoldsAt(all, |seen|);
  }

  /** A job has one holder. */
  lemma HolderIsUnique(leases: seq<Lease>, a: Lease, b: Lease)
    requires IsHolder(leases, a) && IsHolder(leases, b) && a.jobId == b.jobId
    ensures a == b
  {
    var i :| HoldsAt(leases, i) && leases[i] == a;
    var j :| HoldsAt(leases, j) && leases[j] == b;
    assert i == j;
  }

  // ---- Order ---------------------------------------------------------------

  lemma HolderLeIsOrder()
    ensures IsOrder(HolderLe)
  {
    forall a, b
      ensures HolderLe(a, b) || HolderLe(b, a)
    {
      LeTotal(a.clientId, b.clientId);
      LeTotal(a.jobId, b.jobId);
    }
    forall a, b, c | HolderLe(a, b) && HolderLe(b, c)
      ensures HolderLe(a, c)
    {
      HolderLeTransitive(a, b, c);
    }
  }

  lemma HolderLeTransitive(a: Lease, b: Lease, c: Lease)
    requires HolderLe(a, b) && HolderLe(b, c)
    ensures HolderLe(a, c)
  {
    if a.clientId == b.clientId == c.clientId {
      LeTransitive(a.jobId, b.jobId, c.jobId);
    } else if a.clientId == c.clientId {
      LeAntisymmetric(a.clientId, b.clientId);
    } else if a.clientId != b.clientId && b.clientId != c.clientId {
      LeTransitive(a.clientId, b.clientId, c.clientId);
    }
  }

  lemma DistinctJobsDoNotTie(list: seq<Lease>)
    requires DistinctJobs(list)
    ensures NoTies(list, HolderLe)
    ensures forall i, j :: 0 <= i < j < |list| ==> list[i] != list[j]
  {
    forall a, b | a in list && b in list && HolderLe(a, b) && HolderLe(b, a)
      ensures a == b
    {
      if a.clientId != b.clientId {
        LeAntisymmetric(a.clientId, b.clientId);
      } else {
        LeAntisymmetric(a.jobId, b.jobId);
      }
    }
  }

  /** Sorting the holders of some jobs lists them. */
  lemma {:induction false} SortLists(list: seq<Lease>, leases: seq<Lease>, now: int, live: bool)
    requires DistinctJobs(list)
    requires forall lease :: lease in list <==> IsHolder(leases, lease) && IsLive(lease, now) == live
    ensures ListsHolders(Sort(list, HolderLe), leases, now, live)
  {
    var sorted := Sort(list, HolderLe);
    HolderLeIsOrder();
    SortSorts(list, HolderLe);
    SortPermutes(list, HolderLe);
    DistinctJobsDoNotTie(list);
    SortDistinct(list, HolderLe);
    forall lease
      ensures lease in sorted <==> lease in list
    {
      assert lease in multiset(sorted) <==> lease in multiset(list);
    }
    forall i, j | 0 <= i < j < |sorted|
      ensures sorted[i].jobId != sorted[j].jobId
    {
      assert sorted[i] in list && sorted[j] in list && sorted[i] != sorted[j];
    }
  }

  // ---- The report ----------------------------------------------------------

  method NewReport(leases: seq<Lease>, unparseableKeys: nat, now: int) returns (r: Report)
    ensures IsReport(r, leases)
    ensures r.unparseableKeys == unparseableKeys && r.readAt == now
  {
    var latest := Collapse(leases);
    var live, lapsed := Partition(latest, now);
    PartitionLists(live, latest, leases, now, true);
    PartitionLists(lapsed, latest, leases, now, false);
    r := Report(Sort(live, HolderLe), Sort(lapsed, HolderLe), unparseableKeys, now);
  }

  method Collapse(leases: seq<Lease>) returns (latest: map<string, Lease>)
    ensures Collapsed(latest, leases)
  {
    latest := map[];
    for i := 0 to |leases|
      invariant Collapsed(latest, leases[..i])
    {
      var lease := leases[i];
      CollapseStep(latest, leases[..i], lease);
      assert leases[..i + 1] == leases[..i] + [lease];
      if !(lease.jobId in latest && latest[lease.jobId].leaseExpiry >= lease.leaseExpiry) {
        latest := latest[lease.jobId := lease];
      }
    }
    assert leases[..|leases|] == leases;
  }

  /** The order the map is walked in does not reach the report: both lists are sorted. */
  method Partition(latest: map<string, Lease>, now: int) returns (live: seq<Lease>, lapsed: seq<Lease>)
    requires forall job <- latest :: latest[job].jobId == job
    ensures Partitioned(live, latest, latest.Keys, now, true)
    ensures Partitioned(lapsed, latest, latest.Keys, now, false)
  {
    live, lapsed := [], [];
    var rest := latest.Keys;
    while rest != {}
      invariant rest <= latest.Keys
      invariant Partitioned(live, latest, latest.Keys - rest, now, true)
      invariant Partitioned(lapsed, latest, latest.Keys - rest, now, false)
      decreases rest
    {
      var job :| job in rest;
      PartitionStep(live, latest, latest.Keys - rest, job, now, true);
      PartitionStep(lapsed, latest, latest.Keys - rest, job, now, false);
      assert latest.Keys - (rest - {job}) == (latest.Keys - rest) + {job};
      rest := rest - {job};
      if IsLive(latest[job], now) {
        live := live + [latest[job]];
      } else {
        lapsed := lapsed + [latest[job]];
      }
    }
    assert latest.Keys - rest == latest.Keys;
  }

  lemma PartitionStep(
    list: seq<Lease>, latest: map<string, Lease>, jobs: set<string>, job: string, now: int, live: bool)
    requires jobs <= latest.Keys && job in latest && job !in jobs && latest[job].jobId == job
    requires Partitioned(list, latest, jobs, now, live)
    ensures var next := if IsLive(latest[job], now) == live then list + [latest[job]] else list;
            Partitioned(next, latest, jobs + {job}, now, live)
  {
    var next := if IsLive(latest[job], now) == live then list + [latest[job]] else list;
    forall other | other in jobs + {job} && IsLive(latest[other], now) == live
      ensures latest[other] in next
    {
      if other == job {
        assert next[|list|] == latest[job];
      }
    }
  }

  /** The list holds the map's leases on these jobs on one side of the deadline, one per job. */
  ghost predicate Partitioned(list: seq<Lease>, latest: map<string, Lease>, jobs: set<string>, now: int, live: bool)
    requires jobs <= latest.Keys
  {
    && DistinctJobs(list)
    && (forall i :: 0 <= i < |list| ==> list[i].jobId in jobs && latest[list[i].jobId] == list[i])
    && (forall i :: 0 <= i < |list| ==> IsLive(list[i], now) == live)
    && (forall job <- jobs :: IsLive(latest[job], now) == live ==> latest[job] in list)
  }

  lemma {:induction false} PartitionLists(
    list: seq<Lease>, latest: map<string, Lease>, leases: seq<Lease>, now: int, live: bool)
    requires Collapsed(latest, leases) && Partitioned(list, latest, latest.Keys, now, live)
    ensures ListsHolders(Sort(list, HolderLe), leases, now, live)
  {
    forall lease
      ensures lease in list <==> IsHolder(leases, lease) && IsLive(lease, now) == live
    {
      if IsHolder(leases, lease) {
        assert lease.jobId in latest;
        HolderIsUnique(leases, lease, latest[lease.jobId]);
      }
    }
    SortLists(list, leases, now, live);
  }

  // ---- What the report means -----------------------------------------------

  ghost function LatestOf(leases: seq<Lease>): (latest: map<string, Lease>)
    ensures Collapsed(latest, leases)
  {
    if leases == [] then map[]
    else
      var seen, lease := leases[..|leases| - 1], leases[|leases| - 1];
      var latest := LatestOf(seen);
      CollapseStep(latest, seen, lease);
      assert leases == seen + [lease];
      if lease.jobId in latest && latest[lease.jobId].leaseExpiry >= lease.leaseExpiry then latest
      else latest[lease.jobId := lease]
  }

  predicate NamesJob(list: seq<Lease>, job: string) {
    exists i :: 0 <= i < |list| && list[i].jobId == job
  }

  /** Each listed job has an entry in one of the two lists and not the other, and no
      other job has any; it reads live exactly when some lease on it is past the
      deadline, so a job with a live lease never reads as stranded. */
  lemma ReportPlacesJobs(r: Report, leases: seq<Lease>, job: string)
    requires IsReport(r, leases)
    ensures NamesJob(leases, job) <==> NamesJob(r.live, job) || NamesJob(r.lapsed, job)
    ensures !(NamesJob(r.live, job) && NamesJob(r.lapsed, job))
    ensures NamesJob(r.live, job)
       <==> exists i :: 0 <= i < |leases| && leases[i].jobId == job && leases[i].leaseExpiry > r.readAt
  {
    if k :| 0 <= k < |leases| && leases[k].jobId == job {
      var holder := LatestOf(leases)[job];
      assert holder in r.live || holder in r.lapsed;
    }
    if i :| 0 <= i < |r.live| && r.live[i].jobId == job {
      assert r.live[i] in r.live;
      var k :| HoldsAt(leases, k) && leases[k] == r.live[i];
    }
    if i :| 0 <= i < |r.lapsed| && r.lapsed[i].jobId == job {
      assert r.lapsed[i] in r.lapsed;
      var k :| HoldsAt(leases, k) && leases[k] == r.lapsed[i];
    }
  }

  /** An entry is a lease of the listing with its job's latest deadline. */
  lemma EntryIsLatest(r: Report, leases: seq<Lease>, entry: Lease, other: Lease)
    requires IsReport(r, leases) && (entry in r.live || entry in r.lapsed)
    ensures entry in leases
    ensures other in leases && other.jobId == entry.jobId ==> other.leaseExpiry <= entry.leaseExpiry
  {
    var i :| HoldsAt(leases, i) && leases[i] == entry;
  }

  /** Each list is in the order of the clients' ids, and one client's leases in that of
      their jobs'. */
  lemma ReportIsOrdered(list: seq<Lease>, leases: seq<Lease>, now: int, live: bool, i: nat, j: nat)
    requires ListsHolders(list, leases, now, live) && i < j < |list|
    ensures Le(list[i].clientId, list[j].clientId)
    ensures list[i].clientId == list[j].clientId ==>
              Le(list[i].jobId, list[j].jobId) && list[i].jobId != list[j].jobId
  {
    assert HolderLe(list[i], list[j]);
    LeReflexive(list[i].clientId);
  }

  // ---- Order independence --------------------------------------------------

  /** The lease is listed, and no lease on its job has a later deadline. */
  predicate IsLatest(leases: seq<Lease>, lease: Lease) {
    lease in leases && forall other <- leases :: other.jobId == lease.jobId ==> other.leaseExpiry <= lease.leaseExpiry
  }

  /** No two different leases on one job both carry its latest deadline; ties below it
      are allowed. */
  predicate NoTiedLatest(leases: seq<Lease>) {
    forall a <- leases, b <- leases :: a.jobId == b.jobId && IsLatest(leases, a) && IsLatest(leases, b) ==> a == b
  }

  lemma HolderIsLatest(leases: seq<Lease>, lease: Lease)
    ensures IsHolder(leases, lease) ==> IsLatest(leases, lease)
    ensures IsLatest(leases, lease) && NoTiedLatest(leases) ==> IsHolder(leases, lease)
  {
    if IsHolder(leases, lease) {
      var i :| HoldsAt(leases, i) && leases[i] == lease;
    } else if IsLatest(leases, lease) {
      var holder := LatestOf(leases)[lease.jobId];
      var i :| HoldsAt(leases, i) && leases[i] == holder;
      assert IsLatest(leases, holder);
    }
  }

  /** Without a tie at the latest deadline, listings of the same leases, in any order
      and with any repeats, give one report. */
  lemma ReportForgetsOrder(a: seq<Lease>, b: seq<Lease>, ra: Report, rb: Report)
    requires IsReport(ra, a) && IsReport(rb, b) && ra.readAt == rb.readAt
    requires NoTiedLatest(a) && forall lease :: lease in a <==> lease in b
    ensures ra.live == rb.live && ra.lapsed == rb.lapsed
  {
    forall lease
      ensures IsLatest(a, lease) <==> IsLatest(b, lease)
    {
    }
    forall lease
      ensures IsHolder(a, lease) <==> IsHolder(b, lease)
    {
      HolderIsLatest(a, lease);
      HolderIsLatest(b, lease);
    }
    ListIsDetermined(ra.live, rb.live);
    ListIsDetermined(ra.lapsed, rb.lapsed);
  }

  lemma ListIsDetermined(a: seq<Lease>, b: seq<Lease>)
    requires DistinctJobs(a) && DistinctJobs(b) && Sorted(a, HolderLe) && Sorted(b, HolderLe)
    requires forall lease :: lease in a <==> lease in b
    ensures a == b
  {
    DistinctJobsDoNotTie(a);
    DistinctJobsDoNotTie(b);
    HolderLeIsOrder();
    SameMembersSameCounts(a, b);
    SortedIsUnique(a, b, HolderLe);
  }

  /** The same leases with one of them listed first. */
  function MovedToFront(leases: seq<Lease>, i: nat): seq<Lease>
    requires i < |leases|
  {
    [leases[i]] + leases[..i] + leases[i + 1..]
  }

  lemma MovingPermutes(leases: seq<Lease>, i: nat)
    requires i < |leases|
    ensures multiset(MovedToFront(leases, i)) == multiset(leases)
  {
    assert leases == leases[..i] + [leases[i]] + leases[i + 1..];
  }

  lemma SameMembers(a: seq<Lease>, b: seq<Lease>)
    requires multiset(a) == multiset(b)
    ensures forall lease :: lease in a <==> lease in b
  {
    forall lease
      ensures lease in a <==> lease in b
    {
      assert lease in multiset(a) <==> lease in multiset(b);
    }
  }

  /** Listed first, a lease with its job's latest deadline holds the job. */
  lemma FirstLatestHolds(leases: seq<Lease>, i: nat)
    requires i < |leases| && IsLatest(leases, leases[i])
    ensures IsHolder(MovedToFront(leases, i), leases[i])
  {
    var moved := MovedToFront(leases, i);
    MovingPermutes(leases, i);
    SameMembers(moved, leases);
    forall j | 0 <= j < |moved| && moved[j].jobId == moved[0].jobId
      ensures moved[j].leaseExpiry <= moved[0].leaseExpiry
    {
      assert moved[j] in moved;
    }
    assert HoldsAt(moved, 0);
  }

  /** The smallest case: of two tied leases, whichever is listed first holds. */
  lemma TiedLeasesShowOrder(a: Lease, b: Lease)
    requires a != b && a.jobId == b.jobId && a.leaseExpiry == b.leaseExpiry
    ensures IsHolder([a, b], a) && !IsHolder([a, b], b) && IsHolder([b, a], b)
  {
    assert HoldsAt([a, b], 0) && HoldsAt([b, a], 0);
    if IsHolder([a, b], b) {
      HolderIsUnique([a, b], a, b);
      assert false;
    }
  }

  /** Two unequal leases tied at their job's latest deadline: the one that does not hold
      the job holds it in a listing of the same leases, and every report shows which. */
  lemma TiedLatestShows(leases: seq<Lease>) returns (other: seq<Lease>, lease: Lease)
    requires !NoTiedLatest(leases)
    ensures multiset(leases) == multiset(other)
    ensures IsHolder(other, lease) && !IsHolder(leases, lease)
  {
    var a, b :| a in leases && b in leases && a.jobId == b.jobId && a != b
      && IsLatest(leases, a) && IsLatest(leases, b);
    if IsHolder(leases, a) && IsHolder(leases, b) {
      HolderIsUnique(leases, a, b);
      assert false;
    }
    lease := if IsHolder(leases, a) then b else a;
    var i :| 0 <= i < |leases| && leases[i] == lease;
    other := MovedToFront(leases, i);
    MovingPermutes(leases, i);
    FirstLatestHolds(leases, i);
  }

  /** Reports that agree show the same holders. */
  lemma ReportsShowHolders(a: seq<Lease>, b: seq<Lease>, ra: Report, rb: Report, lease: Lease)
    requires IsReport(ra, a) && IsReport(rb, b) && ra.readAt == rb.readAt
    requires ra.live == rb.live && ra.lapsed == rb.lapsed
    ensures IsHolder(a, lease) <==> IsHolder(b, lease)
  {
    assert IsHolder(a, lease) <==> lease in ra.live || lease in ra.lapsed;
    assert IsHolder(b, lease) <==> lease in rb.live || lease in rb.lapsed;
  }

  /** Every permutation of the listing gives the report this listing gives. */
  ghost predicate OrderNeverShows(leases: seq<Lease>, r: Report) {
    forall other, q :: multiset(leases) == multiset(other) && IsReport(q, other) && q.readAt == r.readAt ==>
      q.live == r.live && q.lapsed == r.lapsed
  }

  /** Exactly when repeated readings of the same leases print the same report. */
  lemma OrderNeverShowsIff(leases: seq<Lease>, r: Report)
    requires IsReport(r, leases)
    ensures OrderNeverShows(leases, r) <==> NoTiedLatest(leases)
  {
    if NoTiedLatest(leases) {
      forall other, q | multiset(leases) == multiset(other) && IsReport(q, other) && q.readAt == r.readAt
        ensures q.live == r.live && q.lapsed == r.lapsed
      {
        SameMembers(leases, other);
        ReportForgetsOrder(leases, other, r, q);
      }
    } else {
      var other, lease := TiedLatestShows(leases);
      var q := ReportExists(other, r.readAt);
      if OrderNeverShows(leases, r) {
        ReportsShowHolders(leases, other, r, q, lease);
        assert false;
      }
    }
  }

  /** Every listing has a report. */
  lemma ReportExists(leases: seq<Lease>, now: int) returns (r: Report)
    ensures IsReport(r, leases) && r.readAt == now
  {
    var live := SideExists(leases, now, true);
    var lapsed := SideExists(leases, now, false);
    r := Report(live, lapsed, 0, now);
  }

  lemma SideExists(leases: seq<Lease>, now: int, live: bool) returns (list: seq<Lease>)
    ensures ListsHolders(list, leases, now, live)
  {
    var latest := LatestOf(leases);
    var side := set job | job in latest && IsLive(latest[job], now) == live :: latest[job];
    forall lease
      ensures lease in side <==> IsHolder(leases, lease) && IsLive(lease, now) == live
    {
      if IsHolder(leases, lease) {
        HolderIsUnique(leases, lease, latest[lease.jobId]);
      }
    }
    list := SortedSide(side, leases, now, live);
  }

  lemma SortedSide(side: set<Lease>, leases: seq<Lease>, now: int, live: bool) returns (list: seq<Lease>)
    requires forall lease :: lease in side <==> IsHolder(leases, lease) && IsLive(lease, now) == live
    ensures ListsHolders(list, leases, now, live)
  {
    var some := Elements(side);
    forall i, j | 0 <= i < j < |some|
      ensures some[i].jobId != some[j].jobId
    {
      assert some[i] in some && some[j] in some && some[i] != some[j];
      if some[i].jobId == some[j].jobId {
        HolderIsUnique(leases, some[i], some[j]);
      }
    }
    SortLists(some, leases, now, live);
    list := Sort(some, HolderLe);
  }
}
