/** The static proof that no possible client matches a job: sound for every body,
    and complete exactly when one flag can be picked per any_of group. */
module Unmatchable {
  import opened Wrappers
  import opened Json
  import opened Matching

  datatype RosterFault = NotAnIdArray | EmptyOrExcluded

  datatype BranchFault =
    | RequiresEmpty
    | RequiresExcluded
    | NotAllOfWithinRequires
    | AnyOfEmpty
    | AnyOfExcluded

  datatype Reason = EmptyNotAllOf | DeadBranches(roster: RosterFault, branch: BranchFault)

  function DeadRosterReason(body: Value): RosterFault {
    var v := Get(body, "clients");
    if v.None? then EmptyOrExcluded
    else if !v.value.Array? then NotAnIdArray
    else if v.value.items != [] && forall id <- v.value.items :: !id.String? then NotAnIdArray
    else EmptyOrExcluded
  }

  function CapabilityBranchReason(c: Clauses): Option<BranchFault> {
    if c.required == {} then Some(RequiresEmpty)
    else if Meets(c.required, c.excludes) then Some(RequiresExcluded)
    else if exists group <- c.notAllOf :: group <= c.required then Some(NotAllOfWithinRequires)
    else if {} in c.anyOf then Some(AnyOfEmpty)
    else if exists group <- c.anyOf :: group <= c.excludes then Some(AnyOfExcluded)
    else None
  }

  function UnmatchableReason(body: Value): Option<Reason> {
    var parsed := Parse(body);
    if parsed.None? then None
    else
      var c := parsed.value;
      if {} in c.notAllOf then Some(EmptyNotAllOf)
      else if EffectiveRoster(c, body) != [] then None
      else
        var branch := CapabilityBranchReason(c);
        if branch.None? then None else Some(DeadBranches(DeadRosterReason(body), branch.value))
  }

  // ---- What each fault says ------------------------------------------------

  /** The roster is faulted for its shape exactly when it is there and lists no string,
      unless it is the empty array. */
  lemma RosterFaultMeans(body: Value)
    ensures DeadRosterReason(body) == NotAnIdArray <==>
              && Get(body, "clients").Some? && Get(body, "clients").value != Array([])
              && forall id :: !Names(body, "clients", id)
  {
    var v := Get(body, "clients");
    if v.Some? && v.value.Array? {
      if id :| id in v.value.items && id.String? {
        assert Names(body, "clients", id.text);
      }
    }
  }

  /** The fault of the capability path holds of the clauses. */
  ghost predicate Says(fault: BranchFault, c: Clauses) {
    match fault
    case RequiresEmpty => forall f :: f !in c.required
    case RequiresExcluded => exists f <- c.required :: f in c.excludes
    case NotAllOfWithinRequires => exists g <- c.notAllOf :: forall f <- g :: f in c.required
    case AnyOfEmpty => exists g <- c.anyOf :: forall f :: f !in g
    case AnyOfExcluded => exists g <- c.anyOf :: forall f <- g :: f in c.excludes
  }

  function Rank(fault: BranchFault): nat {
    match fault
    case RequiresEmpty => 0
    case RequiresExcluded => 1
    case NotAllOfWithinRequires => 2
    case AnyOfEmpty => 3
    case AnyOfExcluded => 4
  }

  /** The reason given is the first fault, in the order of the rules, that holds; and
      there is none exactly when none holds. */
  lemma BranchFaultMeans(c: Clauses)
    ensures var reason := CapabilityBranchReason(c);
            && (reason.None? <==> forall fault :: !Says(fault, c))
            && (reason.Some? ==> Says(reason.value, c)
                                 && forall fault :: Says(fault, c) ==> Rank(reason.value) <= Rank(fault))
  {
    forall fault
      ensures Says(fault, c) <==>
                match fault
                case RequiresEmpty => c.required == {}
                case RequiresExcluded => Meets(c.required, c.excludes)
                case NotAllOfWithinRequires => exists g <- c.notAllOf :: g <= c.required
                case AnyOfEmpty => {} in c.anyOf
                case AnyOfExcluded => exists g <- c.anyOf :: g <= c.excludes
    {
      FaultMeans(fault, c);
    }
    assert Says(RequiresEmpty, c) || Says(RequiresExcluded, c) || Says(NotAllOfWithinRequires, c)
      || Says(AnyOfEmpty, c) || Says(AnyOfExcluded, c) || CapabilityBranchReason(c).None?;
  }

  lemma FaultMeans(fault: BranchFault, c: Clauses)
    ensures Says(fault, c) <==>
              match fault
              case RequiresEmpty => c.required == {}
              case RequiresExcluded => Meets(c.required, c.excludes)
              case NotAllOfWithinRequires => exists g <- c.notAllOf :: g <= c.required
              case AnyOfEmpty => {} in c.anyOf
              case AnyOfExcluded => exists g <- c.anyOf :: g <= c.excludes
  {
    if f :| f in c.required && f in c.excludes {
      assert f in c.required * c.excludes;
    }
    if g :| g in c.anyOf && forall f :: f !in g {
      assert g == {};
    }
  }

  // ---- Soundness -----------------------------------------------------------

  /** A reason proves that no id and no set of flags is ever admitted. */
  lemma ReasonIsSound(body: Value, id: string, flags: Flags)
    requires UnmatchableReason(body).Some?
    ensures !Matches(body, id, flags)
  {
    var c := Parse(body).value;
    EffectiveRosterMembers(c, body, id);
    if {} in c.notAllOf {
      assert {} <= flags;
    } else {
      BranchReasonIsSound(c, flags);
      var branch := CapabilityBranchReason(c).value;
    }
  }

  /** A dead capability path: whatever meets the positive clauses is excluded. */
  lemma BranchReasonIsSound(c: Clauses, flags: Flags)
    requires CapabilityBranchReason(c).Some?
    ensures CapabilitiesSatisfy(c.required, c.anyOf, flags) ==> !Open(c, flags)
  {
    if CapabilitiesSatisfy(c.required, c.anyOf, flags) {
      if Meets(c.required, c.excludes) {
        var f :| f in c.required * c.excludes;
        assert f in c.excludes * flags;
      } else if group :| group in c.notAllOf && group <= c.required {
        assert group <= flags;
      } else {
        var group :| group in c.anyOf && group <= c.excludes;
        var f :| f in group * flags;
        assert f in c.excludes * flags;
      }
    }
  }

  /** No negative clause reads these flags as excluded. */
  predicate Open(c: Clauses, flags: Flags) {
    !Meets(c.excludes, flags) && forall group <- c.notAllOf :: !(group <= flags)
  }

  // ---- Exact completeness --------------------------------------------------

  /** One flag picked from each any_of group. */
  predicate Picks(c: Clauses, pick: seq<string>) {
    |pick| == |c.anyOf| && forall i :: 0 <= i < |pick| ==> pick[i] in c.anyOf[i]
  }

  function PickedFlags(c: Clauses, pick: seq<string>): Flags {
    c.required + set f | f in pick
  }

  /** Whether some choice of one flag per any_of group escapes every exclusion:
      satisfiability of the clauses, which the static rules only approximate. */
  ghost predicate Satisfiable(c: Clauses) {
    c.required != {} && exists pick :: Picks(c, pick) && Open(c, PickedFlags(c, pick))
  }

  ghost function Pick(s: Flags): string
    requires s != {}
  {
    var f :| f in s; f
  }

  /** The capability path admits someone exactly when the clauses are satisfiable:
      it never needs a flag its own positive clauses do not name. */
  lemma PathOpenIffSatisfiable(c: Clauses)
    ensures (exists flags :: CapabilitiesSatisfy(c.required, c.anyOf, flags) && Open(c, flags)) <==> Satisfiable(c)
  {
    if flags :| CapabilitiesSatisfy(c.required, c.anyOf, flags) && Open(c, flags) {
      forall i | 0 <= i < |c.anyOf|
        ensures c.anyOf[i] * flags != {}
      {
        assert Meets(c.anyOf[i], flags);
      }
      var pick := seq(|c.anyOf|, i requires 0 <= i < |c.anyOf| => Pick(c.anyOf[i] * flags));
      assert Picks(c, pick);
      assert PickedFlags(c, pick) <= flags;
      OpenShrinks(c, PickedFlags(c, pick), flags);
    }
    if Satisfiable(c) {
      var pick :| Picks(c, pick) && Open(c, PickedFlags(c, pick));
      PickedFlagsSatisfy(c, pick);
    }
  }

  lemma OpenShrinks(c: Clauses, fewer: Flags, flags: Flags)
    requires fewer <= flags && Open(c, flags)
    ensures Open(c, fewer)
  {
    assert c.excludes * fewer <= c.excludes * flags;
  }

  lemma PickedFlagsSatisfy(c: Clauses, pick: seq<string>)
    requires c.required != {} && Picks(c, pick)
    ensures CapabilitiesSatisfy(c.required, c.anyOf, PickedFlags(c, pick))
  {
    forall group | group in c.anyOf
      ensures Meets(group, PickedFlags(c, pick))
    {
      var i :| 0 <= i < |c.anyOf| && c.anyOf[i] == group;
      assert pick[i] in group * PickedFlags(c, pick);
    }
  }

  /** Some client could match: exactly when no empty group shuts out everyone and
      the roster is live or the clauses are satisfiable. */
  lemma MatchableIff(body: Value)
    requires Parse(body).Some?
    ensures var c := Parse(body).value;
            (exists id, flags :: Matches(body, id, flags))
            <==> {} !in c.notAllOf && (EffectiveRoster(c, body) != [] || Satisfiable(c))
  {
    var c := Parse(body).value;
    PathOpenIffSatisfiable(c);
    if id, flags :| Matches(body, id, flags) {
      assert {} <= flags;
      EffectiveRosterMembers(c, body, id);
    }
    if {} !in c.notAllOf && EffectiveRoster(c, body) != [] {
      var id := EffectiveRoster(c, body)[0];
      EffectiveRosterMembers(c, body, id);
      NoFlagsExcluded(c, id);
      assert Matches(body, id, {});
    } else if {} !in c.notAllOf && Satisfiable(c) {
      var flags :| CapabilitiesSatisfy(c.required, c.anyOf, flags) && Open(c, flags);
      var id := FreshId(c.excludeClients);
      assert Matches(body, id, flags);
    }
  }

  /** An id outside any finite set. */
  lemma FreshId(taken: set<string>) returns (id: string)
    ensures id !in taken
  {
    var n := LongerThanAll(taken);
    id := seq(n, _ => 'a');
  }

  lemma {:induction false} LongerThanAll(taken: set<string>) returns (n: nat)
    ensures forall id <- taken :: |id| < n
    decreases taken
  {
    if taken == {} {
      n := 0;
    } else {
      var x :| x in taken;
      n := LongerThanAll(taken - {x});
      n := if n > |x| then n else |x| + 1;
    }
  }

  /** The static rules miss exactly this: a live-looking capability path, with a dead
      roster, whose any_of groups admit no joint choice. */
  lemma IncompleteIff(body: Value)
    requires Parse(body).Some?
    ensures var c := Parse(body).value;
            (UnmatchableReason(body).None? && !exists id, flags :: Matches(body, id, flags))
            <==> {} !in c.notAllOf && EffectiveRoster(c, body) == []
                 && CapabilityBranchReason(c).None? && !Satisfiable(c)
  {
    MatchableIff(body);
  }

  /** A member of each any_of group that no exclusion and no not_all_of group names. */
  predicate EachGroupHasFreeFlag(c: Clauses) {
    forall group <- c.anyOf :: exists f <- group :: IsFree(c, f)
  }

  predicate IsFree(c: Clauses, f: string) {
    f !in c.excludes && (f in c.required || forall g <- c.notAllOf :: f !in g)
  }

  ghost function FreeFlag(c: Clauses, group: Flags): string
    requires exists f <- group :: IsFree(c, f)
  {
    var f :| f in group && IsFree(c, f); f
  }

  /** No reason and a free flag in each any_of group: a client is constructible. */
  lemma CompleteWithFreeFlags(body: Value)
    requires Parse(body).Some? && EachGroupHasFreeFlag(Parse(body).value)
    requires UnmatchableReason(body).None?
    ensures exists id, flags :: Matches(body, id, flags)
  {
    var c := Parse(body).value;
    MatchableIff(body);
    if EffectiveRoster(c, body) == [] {
      forall i | 0 <= i < |c.anyOf|
        ensures exists f <- c.anyOf[i] :: IsFree(c, f)
      {
        assert c.anyOf[i] in c.anyOf;
      }
      var pick := seq(|c.anyOf|, i requires 0 <= i < |c.anyOf| => FreeFlag(c, c.anyOf[i]));
      assert Picks(c, pick);
      FreePicksAreOpen(c, pick);
    }
  }

  lemma FreePicksAreOpen(c: Clauses, pick: seq<string>)
    requires CapabilityBranchReason(c).None?
    requires forall f <- pick :: IsFree(c, f)
    ensures Open(c, PickedFlags(c, pick))
  {
    var flags := PickedFlags(c, pick);
    assert c.excludes * flags == c.excludes * c.required;
    assert c.required * c.excludes == c.excludes * c.required;
    forall group | group in c.notAllOf
      ensures !(group <= flags)
    {
      var f :| f in group && f !in c.required;
    }
  }

  /** Without any_of groups, or without not_all_of groups, the static rules decide. */
  lemma CompleteWithoutGroups(body: Value)
    requires Parse(body).Some?
    requires Parse(body).value.anyOf == [] || Parse(body).value.notAllOf == []
    ensures UnmatchableReason(body).None? <==> exists id, flags :: Matches(body, id, flags)
  {
    var c := Parse(body).value;
    if UnmatchableReason(body).Some? {
      forall id, flags
        ensures !Matches(body, id, flags)
      {
        ReasonIsSound(body, id, flags);
      }
    } else if EffectiveRoster(c, body) != [] {
      MatchableIff(body);
    } else {
      forall group | group in c.anyOf
        ensures exists f <- group :: IsFree(c, f)
      {
        var f :| f in group && f !in c.excludes;
        assert IsFree(c, f);
      }
      CompleteWithFreeFlags(body);
    }
  }

  // ---- A gap ---------------------------------------------------------------

  /** Requires r, any of x, not both r and x: nobody matches, and no rule says so. */
  const GAP: ClauseLists := ClauseLists([], [], ["r"], [], [["x"]], [["r", "x"]])

  lemma GapClauses()
    ensures ClausesOf(GAP) == Clauses({"r"}, {}, {}, [{"x"}], [{"r", "x"}])
  {
    assert SetOf(["r"]) == {"r"} && SetOf(["x"]) == {"x"} && SetOf(["r", "x"]) == {"r", "x"};
    assert SetsOf([["x"]]) == [{"x"}] && SetsOf([["r", "x"]]) == [{"r", "x"}];
  }

  lemma GapPath(c: Clauses, flags: Flags)
    requires c == Clauses({"r"}, {}, {}, [{"x"}], [{"r", "x"}])
    ensures CapabilityBranchReason(c).None? && {} !in c.notAllOf
    ensures CapabilitiesSatisfy(c.required, c.anyOf, flags) ==> !Open(c, flags)
  {
    var r, x := "r", "x";
    assert r != x && r in c.required && x in c.anyOf[0] && x in c.notAllOf[0];
    if CapabilitiesSatisfy(c.required, c.anyOf, flags) {
      assert Meets(c.anyOf[0], flags);
      assert c.notAllOf[0] <= flags;
    }
  }

  lemma StaticRulesAreIncomplete(id: string, flags: Flags)
    ensures UnmatchableReason(Body(GAP)).None? && !Matches(Body(GAP), id, flags)
  {
    var body, c := Body(GAP), ClausesOf(GAP);
    BodyParses(GAP);
    GapClauses();
    GapPath(c, flags);
    EffectiveRosterMembers(c, body, id);
    assert Open(c, flags) || ExcludesClient(c, id, flags);
  }

  // ---- Every body is somebody's to answer ----------------------------------

  /** A body is malformed, asks for capabilities, is closed, or is provably dead; and
      where it asks for none, the static rules settle whether anyone can match. */
  lemma BodiesAreClassified(body: Value)
    ensures || Parse(body).None?
            || Parse(body).value.required != {}
            || ClientsOnlyRoster(body).Some?
            || UnmatchableReason(body).Some?
    ensures Parse(body).Some? && Parse(body).value.required == {} ==>
              ((exists id, flags :: Matches(body, id, flags)) <==> UnmatchableReason(body).None?)
  {
    if Parse(body).Some? {
      MatchableIff(body);
    }
  }
}
