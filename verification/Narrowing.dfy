/** The narrowing ladder: the fleet counted after each eligibility clause in turn. */
module Narrowing {
  import opened Matching

  datatype Kind = ExcludeClients | Requires | Excludes | AnyOf | NotAllOf

  datatype Rung = Rung(clause: Kind, surviving: nat)

  function Count(clients: seq<Client>, keep: Client -> bool): nat {
    if clients == [] then 0
    else (if keep(clients[0]) then 1 else 0) + Count(clients[1..], keep)
  }

  // ---- The ladder, clause by clause ----------------------------------------

  /** What one clause alone asks of a client. */
  predicate Passes(kind: Kind, lists: ClauseLists, tags: FleetTags, client: Client) {
    var flags := CapabilitiesOf(tags, client);
    match kind
    case ExcludeClients => client.id !in lists.excludeClients
    case Requires => lists.required != [] && forall f <- lists.required :: f in flags
    case Excludes => forall f <- lists.excludes :: f !in flags
    case AnyOf => forall group <- lists.anyOf :: exists f <- group :: f in flags
    case NotAllOf => forall group <- lists.notAllOf :: exists f <- group :: f !in flags
  }

  predicate PassesAll(kinds: set<Kind>, lists: ClauseLists, tags: FleetTags, client: Client) {
    forall kind <- kinds :: Passes(kind, lists, tags, client)
  }

  function Survivors(kinds: set<Kind>, lists: ClauseLists, clients: seq<Client>, tags: FleetTags): nat {
    Count(clients, client => PassesAll(kinds, lists, tags, client))
  }

  function AppendIf(kinds: seq<Kind>, present: bool, kind: Kind): seq<Kind> {
    if present then kinds + [kind] else kinds
  }

  /** The clauses a ladder has a rung for, in its order. */
  function KindsOf(lists: ClauseLists): seq<Kind> {
    var led := AppendIf([], lists.excludeClients != [], ExcludeClients) + [Requires];
    var negative := AppendIf(led, lists.excludes != [], Excludes);
    AppendIf(AppendIf(negative, lists.anyOf != [], AnyOf), lists.notAllOf != [], NotAllOf)
  }

  function SetOfKinds(kinds: seq<Kind>): set<Kind> {
    set kind | kind in kinds
  }

  /** Each rung names its clause and counts the clients every clause so far passes. */
  ghost predicate IsLadder(
    rungs: seq<Rung>, kinds: seq<Kind>, lists: ClauseLists, clients: seq<Client>, tags: FleetTags)
  {
    && |rungs| == |kinds|
    && forall i :: 0 <= i < |rungs| ==>
         rungs[i] == Rung(kinds[i], Survivors(SetOfKinds(kinds[..i + 1]), lists, clients, tags))
  }

  // ---- Clauses as bodies ---------------------------------------------------

  const NO_CLAUSES: ClauseLists := ClauseLists([], [], [], [], [], [])

  /** One more clause in a synthetic body. */
  function AddClause(prefix: ClauseLists, lists: ClauseLists, kind: Kind): ClauseLists {
    match kind
    case ExcludeClients => prefix.(excludeClients := lists.excludeClients)
    case Requires => prefix.(required := lists.required)
    case Excludes => prefix.(excludes := lists.excludes)
    case AnyOf => prefix.(anyOf := lists.anyOf)
    case NotAllOf => prefix.(notAllOf := lists.notAllOf)
  }

  function Build(lists: ClauseLists, order: seq<Kind>): ClauseLists {
    if order == [] then NO_CLAUSES
    else AddClause(Build(lists, order[..|order| - 1]), lists, order[|order| - 1])
  }

  /** The lists with every clause outside the kinds, and the roster, left empty. */
  function Restrict(lists: ClauseLists, kinds: set<Kind>): ClauseLists {
    ClauseLists(
      [],
      if ExcludeClients in kinds then lists.excludeClients else [],
      if Requires in kinds then lists.required else [],
      if Excludes in kinds then lists.excludes else [],
      if AnyOf in kinds then lists.anyOf else [],
      if NotAllOf in kinds then lists.notAllOf else [])
  }

  lemma AddToRestrict(lists: ClauseLists, kinds: set<Kind>, kind: Kind)
    ensures AddClause(Restrict(lists, kinds), lists, kind) == Restrict(lists, kinds + {kind})
  {
  }

  lemma SetOfKindsSplit(order: seq<Kind>)
    requires order != []
    ensures SetOfKinds(order) == SetOfKinds(order[..|order| - 1]) + {order[|order| - 1]}
  {
  }

  lemma {:induction false} BuildIsRestrict(lists: ClauseLists, order: seq<Kind>)
    ensures Build(lists, order) == Restrict(lists, SetOfKinds(order))
  {
    if order != [] {
      var rest := order[..|order| - 1];
      BuildIsRestrict(lists, rest);
      SetOfKindsSplit(order);
      AddToRestrict(lists, SetOfKinds(rest), order[|order| - 1]);
    }
  }

  /** Only an empty clause lacks a rung, and an empty clause constrains nothing. */
  lemma KindsCoverClauses(lists: ClauseLists)
    ensures Requires in KindsOf(lists)
    ensures Restrict(lists, SetOfKinds(KindsOf(lists))) == lists.(clients := [])
  {
    var kinds := KindsOf(lists);
    forall kind: Kind
      ensures kind in kinds <==> match kind
                                 case ExcludeClients => lists.excludeClients != []
                                 case Requires => true
                                 case Excludes => lists.excludes != []
                                 case AnyOf => lists.anyOf != []
                                 case NotAllOf => lists.notAllOf != []
    {
    }
  }

  /** The matcher, asked about a synthetic body, answers the clauses one by one. */
  lemma BodyAsksEachClause(lists: ClauseLists, kinds: set<Kind>, tags: FleetTags, client: Client)
    requires Requires in kinds
    ensures JobMatchesClient(Body(Restrict(lists, kinds)), client, tags) <==> PassesAll(kinds, lists, tags, client)
  {
    var part := Restrict(lists, kinds);
    var c, flags := ClausesOf(part), CapabilitiesOf(tags, client);
    BodyParses(part);
    assert c.required != {} <==> part.required != [] by {
      if part.required != [] {
        assert part.required[0] in c.required;
      }
    }
    GroupsAgree(part.anyOf, part.notAllOf, flags);
    SetsMeet(part.excludes, flags);
    assert JobMatchesClient(Body(part), client, tags) <==>
        Passes(ExcludeClients, part, tags, client) && Passes(Requires, part, tags, client)
        && Passes(Excludes, part, tags, client) && Passes(AnyOf, part, tags, client)
        && Passes(NotAllOf, part, tags, client);
  }

  lemma SetsMeet(list: seq<string>, flags: Flags)
    ensures Meets(SetOf(list), flags) <==> exists f <- list :: f in flags
  {
    if f :| f in list && f in flags {
      assert f in SetOf(list) * flags;
    }
  }

  lemma GroupsAgree(anyOf: seq<seq<string>>, notAllOf: seq<seq<string>>, flags: Flags)
    ensures (forall g <- SetsOf(anyOf) :: Meets(g, flags)) <==> forall group <- anyOf :: exists f <- group :: f in flags
    ensures (exists g <- SetsOf(notAllOf) :: g <= flags)
       <==> !forall group <- notAllOf :: exists f <- group :: f !in flags
  {
    forall group: seq<string>
      ensures Meets(SetOf(group), flags) <==> exists f <- group :: f in flags
      ensures SetOf(group) <= flags <==> !exists f <- group :: f !in flags
    {
      SetsMeet(group, flags);
    }
    MapMembers(anyOf);
    MapMembers(notAllOf);
  }

  lemma MapMembers(groups: seq<seq<string>>)
    ensures forall group <- groups :: SetOf(group) in SetsOf(groups)
    ensures forall g <- SetsOf(groups) :: exists group <- groups :: SetOf(group) == g
  {
    forall group | group in groups
      ensures SetOf(group) in SetsOf(groups)
    {
      var i :| 0 <= i < |groups| && groups[i] == group;
      assert SetsOf(groups)[i] == SetOf(group);
    }
    forall g | g in SetsOf(groups)
      ensures exists group <- groups :: SetOf(group) == g
    {
      var i :| 0 <= i < |groups| && SetsOf(groups)[i] == g;
      assert groups[i] in groups;
    }
  }

  lemma {:induction false} CountAgrees(clients: seq<Client>, p: Client -> bool, q: Client -> bool)
    requires forall client <- clients :: p(client) == q(client)
    ensures Count(clients, p) == Count(clients, q)
  {
    if clients != [] {
      CountAgrees(clients[1..], p, q);
    }
  }

  lemma {:induction false} CountShrinks(clients: seq<Client>, p: Client -> bool, q: Client -> bool)
    requires forall client <- clients :: p(client) ==> q(client)
    ensures Count(clients, p) <= Count(clients, q)
  {
    if clients != [] {
      CountShrinks(clients[1..], p, q);
    }
  }

  /** A body built clause by clause, in any order, counts the clients all of its
      clauses pass. */
  lemma {:induction false} BodyCounts(lists: ClauseLists, order: seq<Kind>, clients: seq<Client>, tags: FleetTags)
    requires Requires in order
    ensures Count(clients, client => JobMatchesClient(Body(Build(lists, order)), client, tags))
         == Survivors(SetOfKinds(order), lists, clients, tags)
  {
    BuildIsRestrict(lists, order);
    forall client
      ensures JobMatchesClient(Body(Build(lists, order)), client, tags)
          <==> PassesAll(SetOfKinds(order), lists, tags, client)
    {
      BodyAsksEachClause(lists, SetOfKinds(order), tags, client);
    }
    CountAgrees(clients, client => JobMatchesClient(Body(Build(lists, order)), client, tags),
                client => PassesAll(SetOfKinds(order), lists, tags, client));
  }

  // ---- The ladder's promises -----------------------------------------------

  /** A rung never counts more clients than the one above it. */
  lemma LadderNeverIncreases(
    rungs: seq<Rung>, kinds: seq<Kind>, lists: ClauseLists, clients: seq<Client>, tags: FleetTags, i: nat, j: nat)
    requires IsLadder(rungs, kinds, lists, clients, tags) && i <= j < |rungs|
    ensures rungs[j].surviving <= rungs[i].surviving
  {
    var few, many := SetOfKinds(kinds[..i + 1]), SetOfKinds(kinds[..j + 1]);
    assert kinds[..i + 1] == kinds[..j + 1][..i + 1];
    assert few <= many;
    CountShrinks(
      clients, client => PassesAll(many, lists, tags, client), client => PassesAll(few, lists, tags, client));
  }

  /** The last rung counts the clients the job itself admits through capabilities,
      and adding its clauses in any other order ends on the same count. */
  lemma {:induction false} LastRungIsTheMatch(
    rungs: seq<Rung>, lists: ClauseLists, clients: seq<Client>, tags: FleetTags, order: seq<Kind>)
    requires IsLadder(rungs, KindsOf(lists), lists, clients, tags)
    requires SetOfKinds(order) == SetOfKinds(KindsOf(lists))
    ensures rungs != []
    ensures rungs[|rungs| - 1].surviving == Surviving(lists.(clients := []), clients, tags)
    ensures rungs[|rungs| - 1].surviving == Surviving(Build(lists, order), clients, tags)
  {
    KindsCoverClauses(lists);
    LastRung(rungs, KindsOf(lists), lists, clients, tags, order);
  }

  lemma {:induction false} LastRung(
    rungs: seq<Rung>, kinds: seq<Kind>, lists: ClauseLists, clients: seq<Client>, tags: FleetTags, order: seq<Kind>)
    requires IsLadder(rungs, kinds, lists, clients, tags) && Requires in kinds
    requires SetOfKinds(order) == SetOfKinds(kinds)
    ensures rungs != []
    ensures rungs[|rungs| - 1].surviving == Surviving(Restrict(lists, SetOfKinds(kinds)), clients, tags)
    ensures rungs[|rungs| - 1].surviving == Surviving(Build(lists, order), clients, tags)
  {
    assert kinds[..|kinds|] == kinds;
    assert Requires in SetOfKinds(order);
    BodyCounts(lists, kinds, clients, tags);
    BodyCounts(lists, order, clients, tags);
    BuildIsRestrict(lists, kinds);
  }

  // ---- The ladder itself ---------------------------------------------------

  function Surviving(prefix: ClauseLists, clients: seq<Client>, tags: FleetTags): nat {
    Count(clients, client => JobMatchesClient(Body(prefix), client, tags))
  }

  /** One push keeps the ladder, when the prefix carries every clause so far. */
  lemma {:induction false} PushKeepsLadder(
    rungs: seq<Rung>, kinds: seq<Kind>, kind: Kind, lists: ClauseLists, clients: seq<Client>, tags: FleetTags,
    prefix: ClauseLists)
    requires IsLadder(rungs, kinds, lists, clients, tags)
    requires Requires in kinds + [kind] && prefix == Build(lists, kinds + [kind])
    ensures IsLadder(rungs + [Rung(kind, Surviving(prefix, clients, tags))], kinds + [kind], lists, clients, tags)
  {
    BodyCounts(lists, kinds + [kind], clients, tags);
    ExtendLadder(rungs, kinds, kind, lists, clients, tags, Surviving(prefix, clients, tags));
  }

  lemma ExtendLadder(
    rungs: seq<Rung>, kinds: seq<Kind>, kind: Kind, lists: ClauseLists, clients: seq<Client>, tags: FleetTags, n: nat)
    requires IsLadder(rungs, kinds, lists, clients, tags)
    requires n == Survivors(SetOfKinds(kinds + [kind]), lists, clients, tags)
    ensures IsLadder(rungs + [Rung(kind, n)], kinds + [kind], lists, clients, tags)
  {
    var all := kinds + [kind];
    assert all[..|all|] == all;
    forall i | 0 <= i < |rungs|
      ensures rungs[i] == Rung(all[i], Survivors(SetOfKinds(all[..i + 1]), lists, clients, tags))
    {
      assert all[..i + 1] == kinds[..i + 1];
    }
  }

  lemma {:induction false} BuildNext(lists: ClauseLists, kinds: seq<Kind>, kind: Kind)
    ensures Build(lists, kinds + [kind]) == AddClause(Build(lists, kinds), lists, kind)
  {
    assert (kinds + [kind])[..|kinds|] == kinds;
  }

  /** Widens the prefix by a clause the job has, and counts what survives it. */
  method Widen(
    rungs: seq<Rung>, ghost kinds: seq<Kind>, prefix: ClauseLists, kind: Kind, present: bool,
    lists: ClauseLists, clients: seq<Client>, tags: FleetTags)
    returns (next: seq<Rung>, wider: ClauseLists)
    requires IsLadder(rungs, kinds, lists, clients, tags)
    requires Requires in kinds && prefix == Build(lists, kinds)
    ensures IsLadder(next, AppendIf(kinds, present, kind), lists, clients, tags)
    ensures wider == Build(lists, AppendIf(kinds, present, kind))
  {
    next, wider := rungs, prefix;
    if present {
      BuildNext(lists, kinds, kind);
      wider := AddClause(prefix, lists, kind);
      PushKeepsLadder(rungs, kinds, kind, lists, clients, tags, wider);
      next := next + [Rung(kind, Surviving(wider, clients, tags))];
    }
  }

  method NarrowFleet(lists: ClauseLists, clients: seq<Client>, tags: FleetTags) returns (rungs: seq<Rung>)
    ensures lists.required == [] ==> rungs == []
    ensures lists.required != [] ==> IsLadder(rungs, KindsOf(lists), lists, clients, tags)
  {
    rungs := [];
    if lists.required == [] {
      return;
    }
    ghost var led := AppendIf([], lists.excludeClients != [], ExcludeClients);
    var prefix := NO_CLAUSES.(excludeClients := lists.excludeClients, required := lists.required);
    if lists.excludeClients != [] {
      // The one rung that is a set difference: no body expresses "the fleet minus these ids".
      ExcludeRung(lists, clients, tags);
      rungs := [Rung(ExcludeClients, Count(clients, (client: Client) => client.id !in SetOf(lists.excludeClients)))];
    }
    RequiresPrefix(lists, led);
    PushKeepsLadder(rungs, led, Requires, lists, clients, tags, prefix);
    rungs := rungs + [Rung(Requires, Surviving(prefix, clients, tags))];

    ghost var required := led + [Requires];
    rungs, prefix := Widen(rungs, required, prefix, Excludes, lists.excludes != [], lists, clients, tags);
    ghost var negative := AppendIf(required, lists.excludes != [], Excludes);
    rungs, prefix := Widen(rungs, negative, prefix, AnyOf, lists.anyOf != [], lists, clients, tags);
    ghost var positive := AppendIf(negative, lists.anyOf != [], AnyOf);
    rungs, prefix := Widen(rungs, positive, prefix, NotAllOf, lists.notAllOf != [], lists, clients, tags);
  }

  lemma {:induction false} RequiresPrefix(lists: ClauseLists, kinds: seq<Kind>)
    requires kinds == if lists.excludeClients != [] then [ExcludeClients] else []
    ensures Build(lists, kinds + [Requires])
         == NO_CLAUSES.(excludeClients := lists.excludeClients, required := lists.required)
  {
    BuildNext(lists, kinds, Requires);
    if kinds != [] {
      BuildNext(lists, [], ExcludeClients);
      assert [] + [ExcludeClients] == kinds;
    }
  }

  lemma ExcludeRung(lists: ClauseLists, clients: seq<Client>, tags: FleetTags)
    ensures var spared := Count(clients, (client: Client) => client.id !in SetOf(lists.excludeClients));
            IsLadder([Rung(ExcludeClients, spared)], [ExcludeClients], lists, clients, tags)
  {
    assert [ExcludeClients][..1] == [ExcludeClients];
    assert SetOfKinds([ExcludeClients]) == {ExcludeClients};
    CountAgrees(clients, (client: Client) => client.id !in SetOf(lists.excludeClients),
                client => PassesAll(SetOfKinds([ExcludeClients]), lists, tags, client));
  }
}
