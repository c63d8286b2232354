/** How a job's roster stands against the fleet, gate by gate, for a job that only
    its roster can admit. */
module RosterStanding {
  import opened Json
  import opened Matching
  import opened Narrowing

  type Permissions = map<string, set<string>>

  predicate HoldsPerformWork(rights: Permissions, id: string) {
    id in rights && "perform_work" in rights[id]
  }

  datatype Standing = Standing(listed: nat, registered: nat, approved: nat, working: nat, eligible: nat)

  /** The fleet by id; of two clients with one id the later stands. */
  function ById(fleet: seq<Client>): map<string, Client> {
    if fleet == [] then map[]
    else ById(fleet[..|fleet| - 1])[fleet[|fleet| - 1].id := fleet[|fleet| - 1]]
  }

  function Registered(lists: ClauseLists, fleet: seq<Client>): set<string> {
    set id | id in SetOf(lists.clients) && id in ById(fleet)
  }

  function Approved(lists: ClauseLists, fleet: seq<Client>): set<string> {
    set id | id in Registered(lists, fleet) && ById(fleet)[id].approved
  }

  function Working(lists: ClauseLists, fleet: seq<Client>, rights: Permissions): set<string> {
    set id | id in Approved(lists, fleet) && HoldsPerformWork(rights, ById(fleet)[id].id)
  }

  /** The body the working clients are asked about: no requires and no any_of. */
  function RosterBody(lists: ClauseLists): Value {
    Body(lists.(required := [], anyOf := []))
  }

  function Eligible(lists: ClauseLists, fleet: seq<Client>, rights: Permissions, tags: FleetTags): set<string> {
    set id | id in Working(lists, fleet, rights) && JobMatchesClient(RosterBody(lists), ById(fleet)[id], tags)
  }

  function StandingOf(lists: ClauseLists, fleet: seq<Client>, rights: Permissions, tags: FleetTags): Standing {
    Standing(|SetOf(lists.clients)|, |Registered(lists, fleet)|, |Approved(lists, fleet)|,
             |Working(lists, fleet, rights)|, |Eligible(lists, fleet, rights, tags)|)
  }

  // ---- Each gate narrows ---------------------------------------------------

  lemma SubsetIsSmaller(a: set<string>, b: set<string>)
    requires a <= b
    ensures |a| <= |b|
  {
    assert b == a + (b - a);
  }

  lemma StandingNarrows(lists: ClauseLists, fleet: seq<Client>, rights: Permissions, tags: FleetTags)
    ensures var s := StandingOf(lists, fleet, rights, tags);
            s.listed >= s.registered >= s.approved >= s.working >= s.eligible
  {
    SubsetIsSmaller(Registered(lists, fleet), SetOf(lists.clients));
    SubsetIsSmaller(Approved(lists, fleet), Registered(lists, fleet));
    SubsetIsSmaller(Working(lists, fleet, rights), Approved(lists, fleet));
    SubsetIsSmaller(Eligible(lists, fleet, rights, tags), Working(lists, fleet, rights));
  }

  // ---- The last count is the scheduler's -----------------------------------

  predicate DistinctIds(fleet: seq<Client>) {
    forall i, j :: 0 <= i < j < |fleet| ==> fleet[i].id != fleet[j].id
  }

  lemma {:induction false} ByIdFindsClients(fleet: seq<Client>)
    ensures forall id <- ById(fleet) :: ById(fleet)[id] in fleet && ById(fleet)[id].id == id
    ensures forall client <- fleet :: client.id in ById(fleet)
    ensures DistinctIds(fleet) ==> forall client <- fleet :: ById(fleet)[client.id] == client
  {
    if fleet != [] {
      var rest, last := fleet[..|fleet| - 1], fleet[|fleet| - 1];
      ByIdFindsClients(rest);
      assert fleet == rest + [last];
      forall client | client in rest && DistinctIds(fleet)
        ensures client.id != last.id
      {
        var i :| 0 <= i < |rest| && rest[i] == client;
        assert fleet[i] == client;
      }
    }
  }

  /** Of several clients with one id, the last of the fleet stands for it. */
  lemma {:induction false} ByIdIsLast(fleet: seq<Client>, i: nat)
    requires i < |fleet| && forall j :: i < j < |fleet| ==> fleet[j].id != fleet[i].id
    ensures fleet[i].id in ById(fleet) && ById(fleet)[fleet[i].id] == fleet[i]
    decreases |fleet|
  {
    if i < |fleet| - 1 {
      ByIdIsLast(fleet[..|fleet| - 1], i);
    }
  }

  function IdsOf(fleet: seq<Client>, keep: Client -> bool): set<string> {
    set client | client in fleet && keep(client) :: client.id
  }

  /** Counting clients of distinct ids counts ids. */
  lemma {:induction false} CountIsIds(fleet: seq<Client>, keep: Client -> bool)
    requires DistinctIds(fleet)
    ensures Count(fleet, keep) == |IdsOf(fleet, keep)|
  {
    if fleet != [] {
      CountIsIds(fleet[1..], keep);
      IdsSplit(fleet, keep);
    }
  }

  lemma IdsSplit(fleet: seq<Client>, keep: Client -> bool)
    requires DistinctIds(fleet) && fleet != []
    ensures fleet[0].id !in IdsOf(fleet[1..], keep)
    ensures IdsOf(fleet, keep) == IdsOf(fleet[1..], keep) + (if keep(fleet[0]) then {fleet[0].id} else {})
  {
    assert fleet == [fleet[0]] + fleet[1..];
  }

  // ---- What each gate counts -----------------------------------------------

  predicate IsListed(lists: ClauseLists, client: Client) {
    client.id in lists.clients
  }

  /** On the roster, approved, and granted the right to perform work. */
  predicate IsWorking(lists: ClauseLists, rights: Permissions, client: Client) {
    && IsListed(lists, client) && client.approved
    && client.id in rights && "perform_work" in rights[client.id]
  }

  /** Over a fleet of distinct ids, each gate counts the fleet's clients that pass it and
      those above: listed, then approved, then permitted; the first counts distinct ids. */
  lemma {:induction false} StandingCounts(lists: ClauseLists, fleet: seq<Client>, rights: Permissions, tags: FleetTags)
    requires DistinctIds(fleet)
    ensures var s := StandingOf(lists, fleet, rights, tags);
            && s.listed == |set id | id in lists.clients|
            && s.registered == Count(fleet, (client: Client) => IsListed(lists, client))
            && s.approved == Count(fleet, (client: Client) => IsListed(lists, client) && client.approved)
            && s.working == Count(fleet, (client: Client) => IsWorking(lists, rights, client))
  {
    ByIdFindsClients(fleet);
    var registered := (client: Client) => IsListed(lists, client);
    var approved := (client: Client) => IsListed(lists, client) && client.approved;
    var working := (client: Client) => IsWorking(lists, rights, client);
    CountIsIds(fleet, registered);
    CountIsIds(fleet, approved);
    CountIsIds(fleet, working);
    assert Registered(lists, fleet) == IdsOf(fleet, registered);
    assert Approved(lists, fleet) == IdsOf(fleet, approved);
    assert Working(lists, fleet, rights) == IdsOf(fleet, working);
  }

  /** Without requires, the full body asks no more than the roster body. */
  lemma RosterBodyAgrees(lists: ClauseLists, client: Client, tags: FleetTags)
    requires lists.required == []
    ensures JobMatchesClient(Body(lists), client, tags) == JobMatchesClient(RosterBody(lists), client, tags)
    ensures JobMatchesClient(Body(lists), client, tags) ==> client.id in lists.clients
  {
    BodyParses(lists);
    BodyParses(lists.(required := [], anyOf := []));
    var c, r := ClausesOf(lists), ClausesOf(lists.(required := [], anyOf := []));
    assert c.required == {} == r.required;
  }

  /** A client the matcher may offer work to, that the whole body admits. */
  predicate Offered(lists: ClauseLists, rights: Permissions, tags: FleetTags, client: Client) {
    client.approved && HoldsPerformWork(rights, client.id) && JobMatchesClient(Body(lists), client, tags)
  }

  /** For every job without requires, over a fleet of distinct ids, the eligible count
      is the number of working clients the whole body admits. */
  lemma {:induction false} EligibleIsTheMatch(
    lists: ClauseLists, fleet: seq<Client>, rights: Permissions, tags: FleetTags)
    requires lists.required == [] && DistinctIds(fleet)
    ensures StandingOf(lists, fleet, rights, tags).eligible
         == Count(fleet, client => Offered(lists, rights, tags, client))
  {
    var keep := client => Offered(lists, rights, tags, client);
    ByIdFindsClients(fleet);
    CountIsIds(fleet, keep);
    forall client
      ensures JobMatchesClient(Body(lists), client, tags) == JobMatchesClient(RosterBody(lists), client, tags)
      ensures JobMatchesClient(Body(lists), client, tags) ==> client.id in lists.clients
    {
      RosterBodyAgrees(lists, client, tags);
    }
    assert Eligible(lists, fleet, rights, tags) == IdsOf(fleet, keep);
  }
}
