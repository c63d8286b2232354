/** Whether a finished run, made under one body's clauses, still answers an edited
    body's: routing flags and rosters aside, and failing closed. */
module RunAnswers {
  import opened Wrappers
  import opened Json
  import opened Matching

  function RequiredFlags(body: Value): Option<Flags> {
    FlagClause(body, "required_flags")
  }

  /** A job's clauses on what its run measures. */
  datatype Measured = Measured(required: Flags, excludes: Flags, anyOf: set<Flags>, notAllOf: set<Flags>)

  /** A flag that only routes: a tag or a build the plan did not mark required. */
  predicate Routes(flag: string, marked: Flags) {
    IsRoutingFlag(flag) && flag !in marked
  }

  function MeasuredFlags(flags: Flags, marked: Flags): Flags {
    set f | f in flags && !Routes(f, marked)
  }

  /** An all-routing group says nothing of the run; an empty or mixed one stays whole. */
  function MeasuredGroups(groups: seq<Flags>, marked: Flags): set<Flags> {
    set group | group in groups && (group == {} || exists f <- group :: !Routes(f, marked))
  }

  function MeasuredOf(c: Clauses, marked: Flags): Measured {
    Measured(MeasuredFlags(c.required, marked), MeasuredFlags(c.excludes, marked),
             MeasuredGroups(c.anyOf, marked), MeasuredGroups(c.notAllOf, marked))
  }

  predicate MetBy(m: Measured, flags: Flags) {
    m.required <= flags && forall group <- m.anyOf :: Meets(group, flags)
  }

  function PositiveFlags(m: Measured): Flags {
    m.required + set group, f | group in m.anyOf && f in group :: f
  }

  predicate Recorded(flag: string) {
    IsReservedCapability(flag) || IsVersionFlag(flag)
  }

  predicate Answers(before: Value, after: Value, run: Flags) {
    var wasParsed, nowParsed := Parse(before), Parse(after);
    var wasMarked, nowMarked := RequiredFlags(before), RequiredFlags(after);
    if wasParsed.None? || nowParsed.None? || wasMarked.None? || nowMarked.None? then false
    else
      AnswersMeasured(before, wasParsed.value, MeasuredOf(wasParsed.value, wasMarked.value),
                      MeasuredOf(nowParsed.value, nowMarked.value), run)
  }

  predicate AnswersMeasured(before: Value, wasClauses: Clauses, was: Measured, now: Measured, run: Flags) {
    // A run through the roster need not have held what its body required.
    var rosterRun := EffectiveRoster(wasClauses, before) != [];
    if was == now && !rosterRun then true
    else if !(now.excludes <= was.excludes) || !(now.notAllOf <= was.notAllOf) then false
    else
      var held := if rosterRun then {} else wasClauses.required;
      && (forall flag <- PositiveFlags(now) :: Recorded(flag) || flag in held)
      && MetBy(now, run + held)
  }

  // ---- What an answer guarantees -------------------------------------------

  /** A client of these flags meets the measured clauses, positive and negative. */
  predicate Honours(m: Measured, flags: Flags) {
    MetBy(m, flags) && !Meets(m.excludes, flags) && forall group <- m.notAllOf :: !(group <= flags)
  }

  function MeasuredBody(body: Value): Measured
    requires Parse(body).Some? && RequiredFlags(body).Some?
  {
    MeasuredOf(Parse(body).value, RequiredFlags(body).value)
  }

  /** Carrying a run over is sound: the client that ran it, whatever it truly holds
      beyond the record, honours every measured clause of the edited body. */
  lemma AnswerIsSound(before: Value, after: Value, run: Flags, id: string, held: Flags)
    requires Matches(before, id, held) && run <= held && Answers(before, after, run)
    ensures Honours(MeasuredBody(after), held)
  {
    var c := Parse(before).value;
    var was, now := MeasuredBody(before), MeasuredBody(after);
    EffectiveRosterMembers(c, before, id);
    NegativesHold(c, RequiredFlags(before).value, id, held);
    if EffectiveRoster(c, before) == [] {
      assert !ClientListed(before, id);
      PositivesHold(c, RequiredFlags(before).value, held);
    }
    if was == now && EffectiveRoster(c, before) == [] {
    } else {
      var known := if EffectiveRoster(c, before) != [] then {} else c.required;
      assert run + known <= held;
      MetByGrows(now, run + known, held);
      assert now.excludes * held <= was.excludes * held;
    }
  }

  lemma NegativesHold(c: Clauses, marked: Flags, id: string, held: Flags)
    requires !ExcludesClient(c, id, held)
    ensures var m := MeasuredOf(c, marked);
            !Meets(m.excludes, held) && forall group <- m.notAllOf :: !(group <= held)
  {
    assert MeasuredFlags(c.excludes, marked) * held <= c.excludes * held;
  }

  lemma PositivesHold(c: Clauses, marked: Flags, held: Flags)
    requires CapabilitiesSatisfy(c.required, c.anyOf, held)
    ensures MetBy(MeasuredOf(c, marked), held)
  {
  }

  lemma MetByGrows(m: Measured, fewer: Flags, flags: Flags)
    requires fewer <= flags && MetBy(m, fewer)
    ensures MetBy(m, flags)
  {
    forall group | group in m.anyOf
      ensures Meets(group, flags)
    {
      assert group * fewer <= group * flags;
    }
  }

  /** A body none of whose clauses only routes. */
  predicate WhollyMeasured(c: Clauses, marked: Flags) {
    && (forall f <- c.required + c.excludes :: !Routes(f, marked))
    && (forall group <- c.anyOf + c.notAllOf :: group == {} || exists f <- group :: !Routes(f, marked))
  }

  /** Where nothing only routes, an answered run is one the edited job would itself
      have offered that client, if it asks for capabilities and does not bar its id. */
  lemma AnsweredRunWouldMatch(before: Value, after: Value, run: Flags, id: string, held: Flags)
    requires Matches(before, id, held) && run <= held && Answers(before, after, run)
    requires WhollyMeasured(Parse(after).value, RequiredFlags(after).value)
    requires Parse(after).value.required != {} && id !in Parse(after).value.excludeClients
    ensures Matches(after, id, held)
  {
    AnswerIsSound(before, after, run, id, held);
    var c, marked := Parse(after).value, RequiredFlags(after).value;
    assert MeasuredFlags(c.required, marked) == c.required;
    assert MeasuredFlags(c.excludes, marked) == c.excludes;
    assert forall group <- c.anyOf :: group in c.anyOf + c.notAllOf;
    assert forall group <- c.notAllOf :: group in c.anyOf + c.notAllOf;
  }

  /** A longer record never loses an answer. */
  lemma AnswerGrowsWithRecord(before: Value, after: Value, run: Flags, longer: Flags)
    requires run <= longer && Answers(before, after, run)
    ensures Answers(before, after, longer)
  {
    var c := Parse(before).value;
    var known := if EffectiveRoster(c, before) != [] then {} else c.required;
    if MetBy(MeasuredBody(after), run + known) {
      MetByGrows(MeasuredBody(after), run + known, longer + known);
    }
  }

  /** The clauses agree but for flags that only route, and groups of nothing else. */
  ghost predicate DifferInRouting(c: Clauses, edited: Clauses, marked: Flags) {
    && (forall f :: !Routes(f, marked) ==> (f in c.required <==> f in edited.required))
    && (forall f :: !Routes(f, marked) ==> (f in c.excludes <==> f in edited.excludes))
    && (forall g: Flags :: g == {} || (exists f <- g :: !Routes(f, marked)) ==>
          (g in c.anyOf <==> g in edited.anyOf) && (g in c.notAllOf <==> g in edited.notAllOf))
  }

  /** Edits that touch only routing flags are invisible: clauses that add or drop
      unmarked routing flags, and whole groups of them, measure the same. */
  lemma RoutingEditsAreInvisible(c: Clauses, edited: Clauses, marked: Flags)
    requires DifferInRouting(c, edited, marked)
    ensures MeasuredOf(c, marked) == MeasuredOf(edited, marked)
  {
    assert MeasuredGroups(c.anyOf, marked) == MeasuredGroups(edited.anyOf, marked);
    assert MeasuredGroups(c.notAllOf, marked) == MeasuredGroups(edited.notAllOf, marked);
  }

  /** Remark: by construction, the answer reads the edited body only through its measured form. */
  lemma AnswerReadsMeasured(before: Value, after: Value, edited: Value, run: Flags)
    requires Parse(after).Some? && RequiredFlags(after).Some?
    requires Parse(edited).Some? && RequiredFlags(edited).Some?
    requires MeasuredBody(after) == MeasuredBody(edited)
    ensures Answers(before, after, run) == Answers(before, edited, run)
  {
  }

  /** So a body edited only in its routing is answered by the same runs. */
  lemma RoutingEditsKeepAnswers(before: Value, after: Value, edited: Value, run: Flags)
    requires Parse(after).Some? && Parse(edited).Some? && RequiredFlags(after).Some?
    requires RequiredFlags(edited) == RequiredFlags(after)
    requires DifferInRouting(Parse(after).value, Parse(edited).value, RequiredFlags(after).value)
    ensures Answers(before, after, run) == Answers(before, edited, run)
  {
    RoutingEditsAreInvisible(Parse(after).value, Parse(edited).value, RequiredFlags(after).value);
    AnswerReadsMeasured(before, after, edited, run);
  }

  // ---- Exactly when a run answers ------------------------------------------

  /** The flag is a tag or a build, and the body does not mark it required. */
  predicate OnlyRoutes(body: Value, f: string) {
    ("tag:" <= f || "client_version:" <= f) && !Names(body, "required_flags", f)
  }

  predicate OnlyRoutesGroup(body: Value, group: Flags) {
    group != {} && forall f <- group :: OnlyRoutes(body, f)
  }

  /** A client on the body's roster, and not excluded from it, may have made the run. */
  ghost predicate HasRoster(body: Value) {
    exists id :: Names(body, "clients", id) && !Names(body, "exclude_clients", id)
  }

  /** The bodies ask the same of what a run measures: their clauses differ in flags and
      groups that only route. */
  ghost predicate MeasureAlike(before: Value, was: Clauses, after: Value, now: Clauses) {
    && (forall f :: f in was.required && !OnlyRoutes(before, f) <==> f in now.required && !OnlyRoutes(after, f))
    && (forall f :: f in was.excludes && !OnlyRoutes(before, f) <==> f in now.excludes && !OnlyRoutes(after, f))
    && (forall g: Flags :: g in was.anyOf && !OnlyRoutesGroup(before, g)
                      <==> g in now.anyOf && !OnlyRoutesGroup(after, g))
    && (forall g: Flags :: g in was.notAllOf && !OnlyRoutesGroup(before, g)
                      <==> g in now.notAllOf && !OnlyRoutesGroup(after, g))
  }

  /** The old body vouches for the flag: it required it, and no roster let a run past that. */
  ghost predicate Vouched(before: Value, was: Clauses, f: string) {
    f in was.required && !HasRoster(before)
  }

  /** A record would show the flag if the run had it, or the old body vouches for it. */
  ghost predicate Known(before: Value, was: Clauses, f: string) {
    (exists namespace <- RESERVED_NAMESPACES :: namespace + ":" <= f) || "client_version:" <= f
    || Vouched(before, was, f)
  }

  /** The new body measures no exclusion that the old one did not. */
  ghost predicate NoNewExclusion(before: Value, was: Clauses, after: Value, now: Clauses) {
    && (forall f <- now.excludes :: OnlyRoutes(after, f) || (f in was.excludes && !OnlyRoutes(before, f)))
    && (forall g <- now.notAllOf ::
          OnlyRoutesGroup(after, g) || (g in was.notAllOf && !OnlyRoutesGroup(before, g)))
  }

  /** Each measured required flag is known and shown. */
  ghost predicate RequiredShown(before: Value, was: Clauses, after: Value, now: Clauses, run: Flags) {
    forall f <- now.required ::
      OnlyRoutes(after, f) || (Known(before, was, f) && (f in run || Vouched(before, was, f)))
  }

  /** Each measured any_of group is known, and one of its flags shown. */
  ghost predicate GroupsShown(before: Value, was: Clauses, after: Value, now: Clauses, run: Flags) {
    forall g <- now.anyOf ::
      || OnlyRoutesGroup(after, g)
      || (&& (forall f <- g :: Known(before, was, f))
          && exists f <- g :: f in run || Vouched(before, was, f))
  }

  ghost predicate ProvesMore(before: Value, was: Clauses, after: Value, now: Clauses, run: Flags) {
    && NoNewExclusion(before, was, after, now)
    && RequiredShown(before, was, after, now, run) && GroupsShown(before, was, after, now, run)
  }

  /** Exactly when a run answers the edited body, for every pair of bodies and record. */
  lemma AnswersIff(before: Value, after: Value, run: Flags)
    ensures Answers(before, after, run) <==>
              && Parse(before).Some? && AbsentOr(before, "required_flags", IsStringArray)
              && Parse(after).Some? && AbsentOr(after, "required_flags", IsStringArray)
              && var was, now := Parse(before).value, Parse(after).value;
                 || (MeasureAlike(before, was, after, now) && !HasRoster(before))
                 || ProvesMore(before, was, after, now, run)
  {
    FlagClauseMeans(before, "required_flags");
    FlagClauseMeans(after, "required_flags");
    if Parse(before).Some? && Parse(after).Some? && RequiredFlags(before).Some? && RequiredFlags(after).Some? {
      BranchesMean(before, after, run);
    }
  }

  lemma BranchesMean(before: Value, after: Value, run: Flags)
    requires Parse(before).Some? && Parse(after).Some?
    requires RequiredFlags(before).Some? && RequiredFlags(after).Some?
    ensures var was, now := Parse(before).value, Parse(after).value;
            AnswersMeasured(before, was, MeasuredBody(before), MeasuredBody(after), run) <==>
              || (MeasureAlike(before, was, after, now) && !HasRoster(before))
              || ProvesMore(before, was, after, now, run)
  {
    hide MeasureAlike, ProvesMore, HasRoster, MeasuredOf, KeepsMeasured, Parse, RequiredFlags;
    var was, now := Parse(before).value, Parse(after).value;
    var m, n := MeasuredBody(before), MeasuredBody(after);
    BodyIsMeasured(before);
    BodyIsMeasured(after);
    RosterMeans(before, was);
    AlikeMeans(before, was, m, after, now, n);
    ProofMeans(before, was, m, after, now, n, run, EffectiveRoster(was, before) != []);
  }

  lemma BodyIsMeasured(body: Value)
    requires Parse(body).Some? && RequiredFlags(body).Some?
    ensures KeepsMeasured(body, Parse(body).value, MeasuredBody(body))
    ensures forall id :: id in Parse(body).value.excludeClients <==> Names(body, "exclude_clients", id)
  {
    hide KeepsMeasured, MeasuredOf;
    ParseMeans(body);
    FlagClauseMeans(body, "required_flags");
    MeasuresMean(body, Parse(body).value, RequiredFlags(body).value);
  }

  /** The measured form keeps what does not only route. */
  ghost predicate KeepsMeasured(body: Value, c: Clauses, m: Measured) {
    && (forall f :: f in m.required <==> f in c.required && !OnlyRoutes(body, f))
    && (forall f :: f in m.excludes <==> f in c.excludes && !OnlyRoutes(body, f))
    && (forall g: Flags :: g in m.anyOf <==> g in c.anyOf && !OnlyRoutesGroup(body, g))
    && (forall g: Flags :: g in m.notAllOf <==> g in c.notAllOf && !OnlyRoutesGroup(body, g))
  }

  lemma MeasuresMean(body: Value, c: Clauses, marked: Flags)
    requires forall f :: f in marked <==> Names(body, "required_flags", f)
    ensures KeepsMeasured(body, c, MeasuredOf(c, marked))
  {
    forall f: string
      ensures Routes(f, marked) <==> OnlyRoutes(body, f)
    {
      FlagKinds(f);
    }
  }

  lemma RosterMeans(body: Value, c: Clauses)
    requires forall id :: id in c.excludeClients <==> Names(body, "exclude_clients", id)
    ensures EffectiveRoster(c, body) != [] <==> HasRoster(body)
  {
    if EffectiveRoster(c, body) != [] {
      EffectiveRosterMembers(c, body, EffectiveRoster(c, body)[0]);
    }
    if id :| Names(body, "clients", id) && !Names(body, "exclude_clients", id) {
      EffectiveRosterMembers(c, body, id);
    }
  }

  lemma AlikeMeans(before: Value, was: Clauses, m: Measured, after: Value, now: Clauses, n: Measured)
    requires KeepsMeasured(before, was, m) && KeepsMeasured(after, now, n)
    ensures m == n <==> MeasureAlike(before, was, after, now)
  {
    hide OnlyRoutes, OnlyRoutesGroup;
    if MeasureAlike(before, was, after, now) {
      assert m.required == n.required && m.excludes == n.excludes;
      assert m.anyOf == n.anyOf && m.notAllOf == n.notAllOf;
    }
  }

  /** The second branch of the answer, clause by clause. */
  lemma ProofMeans(
    before: Value, was: Clauses, m: Measured, after: Value, now: Clauses, n: Measured, run: Flags, rosterRun: bool)
    requires KeepsMeasured(before, was, m) && KeepsMeasured(after, now, n) && (rosterRun <==> HasRoster(before))
    ensures var held := if rosterRun then {} else was.required;
            (&& n.excludes <= m.excludes && n.notAllOf <= m.notAllOf
             && (forall f <- PositiveFlags(n) :: Recorded(f) || f in held) && MetBy(n, run + held))
            <==> ProvesMore(before, was, after, now, run)
  {
    hide OnlyRoutes, OnlyRoutesGroup, HasRoster, PositiveFlags, MetBy, Known, Vouched, Recorded, KeepsMeasured,
      NoNewExclusion, RequiredShown, GroupsShown;
    var held := if rosterRun then {} else was.required;
    HeldMeans(before, was, rosterRun);
    NegativesMean(before, was, m, after, now, n);
    PositivesMean(before, was, after, now, run, n, held);
  }

  lemma HeldMeans(before: Value, was: Clauses, rosterRun: bool)
    requires rosterRun <==> HasRoster(before)
    ensures var held := if rosterRun then {} else was.required;
            && (forall f :: f in held <==> Vouched(before, was, f))
            && (forall f :: Recorded(f) || f in held <==> Known(before, was, f))
  {
    hide HasRoster, IsReservedCapability, IsVersionFlag;
    var held := if rosterRun then {} else was.required;
    forall f: string
      ensures f in held <==> Vouched(before, was, f)
      ensures Recorded(f) || f in held <==> Known(before, was, f)
    {
      FlagKinds(f);
    }
  }

  lemma NegativesMean(before: Value, was: Clauses, m: Measured, after: Value, now: Clauses, n: Measured)
    requires KeepsMeasured(before, was, m) && KeepsMeasured(after, now, n)
    ensures n.excludes <= m.excludes && n.notAllOf <= m.notAllOf <==> NoNewExclusion(before, was, after, now)
  {
    hide OnlyRoutes, OnlyRoutesGroup;
  }

  lemma PositivesMean(
    before: Value, was: Clauses, after: Value, now: Clauses, run: Flags, n: Measured, held: Flags)
    requires KeepsMeasured(after, now, n)
    requires forall f :: f in held <==> Vouched(before, was, f)
    requires forall f :: Recorded(f) || f in held <==> Known(before, was, f)
    ensures (forall f <- PositiveFlags(n) :: Recorded(f) || f in held) && MetBy(n, run + held)
       <==> RequiredShown(before, was, after, now, run) && GroupsShown(before, was, after, now, run)
  {
    hide RequiredShown, GroupsShown, KeepsMeasured, Known, Vouched, Recorded;
    RequiredMeans(before, was, after, now, run, n, held);
    GroupsMeasuredMean(before, was, after, now, run, n, held);
    assert forall f :: f in PositiveFlags(n) <==> f in n.required || exists g <- n.anyOf :: f in g;
  }

  lemma RequiredMeans(
    before: Value, was: Clauses, after: Value, now: Clauses, run: Flags, n: Measured, held: Flags)
    requires KeepsMeasured(after, now, n)
    requires forall f :: f in held <==> Vouched(before, was, f)
    requires forall f :: Recorded(f) || f in held <==> Known(before, was, f)
    ensures (forall f <- n.required :: Recorded(f) || f in held) && n.required <= run + held
       <==> RequiredShown(before, was, after, now, run)
  {
    hide OnlyRoutes, OnlyRoutesGroup, Known, Vouched, Recorded;
  }

  lemma GroupsMeasuredMean(
    before: Value, was: Clauses, after: Value, now: Clauses, run: Flags, n: Measured, held: Flags)
    requires KeepsMeasured(after, now, n)
    requires forall f :: f in held <==> Vouched(before, was, f)
    requires forall f :: Recorded(f) || f in held <==> Known(before, was, f)
    ensures (forall g <- n.anyOf :: (forall f <- g :: Recorded(f) || f in held) && Meets(g, run + held))
       <==> GroupsShown(before, was, after, now, run)
  {
    hide OnlyRoutes, OnlyRoutesGroup, Known, Vouched, Recorded;
    forall g: Flags
      ensures Meets(g, run + held) <==> exists f <- g :: f in run || Vouched(before, was, f)
    {
      if f :| f in g && (f in run || Vouched(before, was, f)) {
        assert f in g * (run + held);
      }
      if Meets(g, run + held) {
        var f :| f in g * (run + held);
      }
    }
  }

  /** A run made under no roster answers every body that measures the same, whatever its
      record shows; an unchanged body in particular. */
  lemma UnchangedIsAnswered(before: Value, after: Value, run: Flags)
    requires Parse(before).Some? && AbsentOr(before, "required_flags", IsStringArray)
    requires Parse(after).Some? && AbsentOr(after, "required_flags", IsStringArray)
    requires !HasRoster(before) && MeasureAlike(before, Parse(before).value, after, Parse(after).value)
    ensures Answers(before, after, run)
  {
    AnswersIff(before, after, run);
  }

  /** Failing closed: a measured positive flag that no record would show, and that the old
      body does not vouch for, leaves no answer unless the bodies measure alike. */
  lemma UnknownFlagIsNoAnswer(before: Value, after: Value, run: Flags, f: string)
    requires Parse(before).Some? && Parse(after).Some?
    requires !Known(before, Parse(before).value, f) && !OnlyRoutes(after, f)
    requires f in Parse(after).value.required || exists g <- Parse(after).value.anyOf :: f in g
    requires HasRoster(before) || !MeasureAlike(before, Parse(before).value, after, Parse(after).value)
    ensures !Answers(before, after, run)
  {
    AnswersIff(before, after, run);
  }
}
