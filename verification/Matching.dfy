/** Which client may run which job: the six eligibility clauses of a job body and
    the one evaluation every caller goes through. */
module Matching {
  import opened Wrappers
  import opened Text
  import opened Json

  type Flags = set<string>

  // ---- Flag namespaces -----------------------------------------------------

  const RESERVED_NAMESPACES: set<string> :=
    {"os", "os_version", "arch", "os_family", "device", "chip", "form_factor", "ram_bytes",
     "gpu", "gpu_vram_bytes", "npu", "npu_vram_bytes"}

  const TAG_NAMESPACE: string := "tag"
  const CLIENT_VERSION_NAMESPACE: string := "client_version"

  predicate IsReservedCapability(flag: string) {
    var split := SplitOnce(flag, ':');
    split.Some? && split.value.0 in RESERVED_NAMESPACES
  }

  predicate IsTagCapability(flag: string) {
    var split := SplitOnce(flag, ':');
    split.Some? && split.value.0 == TAG_NAMESPACE
  }

  function ClientVersionOf(flag: string): Option<string> {
    var split := SplitOnce(flag, ':');
    if split.Some? && split.value.0 == CLIENT_VERSION_NAMESPACE then Some(split.value.1) else None
  }

  predicate IsVersionFlag(flag: string) {
    ClientVersionOf(flag).Some?
  }

  predicate IsRoutingFlag(flag: string) {
    IsTagCapability(flag) || IsVersionFlag(flag)
  }

  function TagFlag(tag: string): string {
    TAG_NAMESPACE + [':'] + tag
  }

  // ---- Clients -------------------------------------------------------------

  datatype Client = Client(id: string, approved: bool, profileFlags: Flags, reported: Flags)

  type FleetTags = map<string, set<string>>

  /** A job's view of a client: a tag the client reported itself counts for nothing. */
  function CapabilitiesOf(tags: FleetTags, client: Client): Flags {
    var own := set flag | flag in client.profileFlags + client.reported && !IsTagCapability(flag);
    if client.id in tags then own + set tag | tag in tags[client.id] :: TagFlag(tag) else own
  }

  /** Tags are the operator's alone: a tag flag is held exactly when its tag is
      assigned, whatever the client reports; every other flag passes through. */
  lemma TagsAreAssigned(tags: FleetTags, client: Client, flag: string)
    ensures IsTagCapability(flag) ==>
              (flag in CapabilitiesOf(tags, client)
               <==> client.id in tags && exists tag <- tags[client.id] :: flag == TagFlag(tag))
    ensures !IsTagCapability(flag) ==>
              (flag in CapabilitiesOf(tags, client) <==> flag in client.profileFlags + client.reported)
  {
    forall tag: string
      ensures IsTagCapability(TagFlag(tag))
    {
      SplitJoined(TAG_NAMESPACE, ':', tag);
    }
  }

  // ---- Clauses -------------------------------------------------------------

  datatype Clauses = Clauses(
    required: Flags,
    excludes: Flags,
    excludeClients: set<string>,
    anyOf: seq<Flags>,
    notAllOf: seq<Flags>)

  function AsArray(v: Value): Option<seq<Value>> {
    if v.Array? then Some(v.items) else None
  }

  /** An array of flags as a set, or None if an element is not a string. */
  function FlagSet(items: seq<Value>): Option<Flags> {
    if forall v <- items :: v.String? then Some(set v | v in items && v.String? :: v.text) else None
  }

  function FlagArray(v: Value): Option<Flags> {
    var items := AsArray(v);
    if items.None? then None else FlagSet(items.value)
  }

  /** A clause that is empty when absent and None when malformed. */
  function FlagClause(body: Value, field: string): Option<Flags> {
    var v := Get(body, field);
    if v.None? then Some({}) else FlagArray(v.value)
  }

  function Groups(items: seq<Value>): Option<seq<Flags>> {
    if items == [] then Some([])
    else
      var first, rest := FlagArray(items[0]), Groups(items[1..]);
      if first.None? || rest.None? then None else Some([first.value] + rest.value)
  }

  function GroupClause(body: Value, field: string): Option<seq<Flags>> {
    var v := Get(body, field);
    if v.None? then Some([])
    else
      var items := AsArray(v.value);
      if items.None? then None else Groups(items.value)
  }

  /** The body's clauses, or None when one of them is malformed. */
  function Parse(body: Value): Option<Clauses> {
    var required := FlagClause(body, "requires");
    var excludes := FlagClause(body, "excludes");
    var excludeClients := FlagClause(body, "exclude_clients");
    var anyOf := GroupClause(body, "any_of");
    var notAllOf := GroupClause(body, "not_all_of");
    if required.None? || excludes.None? || excludeClients.None? || anyOf.None? || notAllOf.None? then None
    else Some(Clauses(required.value, excludes.value, excludeClients.value, anyOf.value, notAllOf.value))
  }

  /** The ids a roster names; a malformed roster, or entry, names nobody. */
  function Roster(body: Value): seq<string> {
    var v := Get(body, "clients");
    if v.None? || !v.value.Array? then [] else RosterIds(v.value.items)
  }

  function RosterIds(items: seq<Value>): seq<string> {
    if items == [] then []
    else (if items[0].String? then [items[0].text] else []) + RosterIds(items[1..])
  }

  predicate ClientListed(body: Value, id: string) {
    var v := Get(body, "clients");
    v.Some? && v.value.Array? && String(id) in v.value.items
  }

  function Without(ids: seq<string>, excluded: set<string>): seq<string> {
    if ids == [] then []
    else (if ids[0] in excluded then [] else [ids[0]]) + Without(ids[1..], excluded)
  }

  function EffectiveRoster(c: Clauses, body: Value): seq<string> {
    Without(Roster(body), c.excludeClients)
  }

  predicate Meets(group: Flags, flags: Flags) {
    group * flags != {}
  }

  predicate CapabilitiesSatisfy(required: Flags, anyOf: seq<Flags>, flags: Flags) {
    required != {} && required <= flags && forall group <- anyOf :: Meets(group, flags)
  }

  predicate ExcludesClient(c: Clauses, id: string, flags: Flags) {
    id in c.excludeClients || Meets(c.excludes, flags) || exists group <- c.notAllOf :: group <= flags
  }

  predicate Admit(c: Clauses, body: Value, id: string, flags: Flags) {
    !ExcludesClient(c, id, flags)
    && (ClientListed(body, id) || CapabilitiesSatisfy(c.required, c.anyOf, flags))
  }

  /** The decision: whether a client of this id and these flags may run the job. */
  predicate Matches(body: Value, id: string, flags: Flags) {
    var c := Parse(body);
    c.Some? && Admit(c.value, body, id, flags)
  }

  predicate JobMatchesClient(body: Value, client: Client, tags: FleetTags) {
    Matches(body, client.id, CapabilitiesOf(tags, client))
  }

  // ---- The decision, over the body itself ----------------------------------

  /** The field is an array that holds this string. */
  predicate Names(body: Value, field: string, text: string) {
    var v := Get(body, field);
    v.Some? && v.value.Array? && String(text) in v.value.items
  }

  /** The groups a field lists; none when it is absent. */
  function ListedGroups(body: Value, field: string): seq<Value> {
    var v := Get(body, field);
    if v.Some? && v.value.Array? then v.value.items else []
  }

  predicate InGroup(group: Value, flag: string) {
    group.Array? && String(flag) in group.items
  }

  predicate IsStringArray(v: Value) {
    v.Array? && forall item <- v.items :: item.String?
  }

  predicate IsGroupArray(v: Value) {
    v.Array? && forall group <- v.items :: IsStringArray(group)
  }

  predicate AbsentOr(body: Value, field: string, isShape: Value -> bool) {
    Get(body, field).Some? ==> isShape(Get(body, field).value)
  }

  /** Each clause but the roster is absent, or an array of the right shape. */
  predicate WellShaped(body: Value) {
    && AbsentOr(body, "requires", IsStringArray) && AbsentOr(body, "excludes", IsStringArray)
    && AbsentOr(body, "exclude_clients", IsStringArray)
    && AbsentOr(body, "any_of", IsGroupArray) && AbsentOr(body, "not_all_of", IsGroupArray)
  }

  lemma FlagClauseMeans(body: Value, field: string)
    ensures FlagClause(body, field).Some? <==> AbsentOr(body, field, IsStringArray)
    ensures FlagClause(body, field).Some? ==>
              forall flag :: flag in FlagClause(body, field).value <==> Names(body, field, flag)
  {
    var v := Get(body, field);
    if v.Some? && IsStringArray(v.value) {
      forall flag
        ensures flag in FlagClause(body, field).value <==> String(flag) in v.value.items
      {
      }
    }
  }

  /** A parsed group holds the strings of its array. */
  ghost predicate ReadsGroups(groups: seq<Flags>, items: seq<Value>) {
    |groups| == |items|
    && forall i, flag :: 0 <= i < |items| ==> (flag in groups[i] <==> InGroup(items[i], flag))
  }

  lemma {:induction false} GroupsMean(items: seq<Value>)
    ensures Groups(items).Some? <==> forall group <- items :: IsStringArray(group)
    ensures Groups(items).Some? ==> ReadsGroups(Groups(items).value, items)
  {
    if items != [] {
      GroupsMean(items[1..]);
      assert items == [items[0]] + items[1..];
      assert FlagArray(items[0]).Some? <==> IsStringArray(items[0]);
      if Groups(items).Some? {
        var groups := Groups(items).value;
        forall i, flag | 0 <= i < |items|
          ensures flag in groups[i] <==> InGroup(items[i], flag)
        {
          if i > 0 {
            assert groups[i] == Groups(items[1..]).value[i - 1] && items[i] == items[1..][i - 1];
          }
        }
      }
    }
  }

  lemma GroupClauseMeans(body: Value, field: string)
    ensures GroupClause(body, field).Some? <==> AbsentOr(body, field, IsGroupArray)
    ensures GroupClause(body, field).Some? ==>
              ReadsGroups(GroupClause(body, field).value, ListedGroups(body, field))
  {
    GroupsMean(ListedGroups(body, field));
  }

  /** For every body: it parses exactly when each clause is absent or well shaped; then a
      flag clause holds the strings its field names, none when it is absent, and the
      groups are those the field lists, in order. */
  lemma ParseMeans(body: Value)
    ensures Parse(body).Some? <==> WellShaped(body)
    ensures Parse(body).Some? ==>
              var c := Parse(body).value;
              && (forall f :: f in c.required <==> Names(body, "requires", f))
              && (forall f :: f in c.excludes <==> Names(body, "excludes", f))
              && (forall id :: id in c.excludeClients <==> Names(body, "exclude_clients", id))
              && ReadsGroups(c.anyOf, ListedGroups(body, "any_of"))
              && ReadsGroups(c.notAllOf, ListedGroups(body, "not_all_of"))
  {
    FlagClauseMeans(body, "requires");
    FlagClauseMeans(body, "excludes");
    FlagClauseMeans(body, "exclude_clients");
    GroupClauseMeans(body, "any_of");
    GroupClauseMeans(body, "not_all_of");
  }

  /** Some flag of the group is held. */
  ghost predicate HoldsSome(flags: Flags, group: Value) {
    exists f :: InGroup(group, f) && f in flags
  }

  ghost predicate HoldsAll(flags: Flags, group: Value) {
    forall f :: InGroup(group, f) ==> f in flags
  }

  /** No negative clause of the body names the client. */
  ghost predicate NotBarred(body: Value, id: string, flags: Flags) {
    && !Names(body, "exclude_clients", id)
    && (forall f :: Names(body, "excludes", f) ==> f !in flags)
    && (forall group <- ListedGroups(body, "not_all_of") :: !HoldsAll(flags, group))
  }

  /** Something is required, all of it is held, and so is a flag of each any_of group. */
  ghost predicate MeetsRequirements(body: Value, flags: Flags) {
    && (exists f :: Names(body, "requires", f))
    && (forall f :: Names(body, "requires", f) ==> f in flags)
    && (forall group <- ListedGroups(body, "any_of") :: HoldsSome(flags, group))
  }

  /** The decision for every body, id and flags, over the body's own fields. */
  lemma MatchesMeans(body: Value, id: string, flags: Flags)
    ensures Matches(body, id, flags) <==>
              && WellShaped(body) && NotBarred(body, id, flags)
              && (Names(body, "clients", id) || MeetsRequirements(body, flags))
  {
    ParseMeans(body);
    if WellShaped(body) {
      var c := Parse(body).value;
      BarredMeans(c, body, id, flags);
      RequirementsMean(c, body, flags);
    }
  }

  lemma BarredMeans(c: Clauses, body: Value, id: string, flags: Flags)
    requires forall f :: f in c.excludes <==> Names(body, "excludes", f)
    requires forall i :: i in c.excludeClients <==> Names(body, "exclude_clients", i)
    requires ReadsGroups(c.notAllOf, ListedGroups(body, "not_all_of"))
    ensures ExcludesClient(c, id, flags) <==> !NotBarred(body, id, flags)
  {
    var groups := ListedGroups(body, "not_all_of");
    forall i | 0 <= i < |groups|
      ensures c.notAllOf[i] <= flags <==> HoldsAll(flags, groups[i])
    {
      assert forall f :: f in c.notAllOf[i] <==> InGroup(groups[i], f);
    }
    if f :| Names(body, "excludes", f) && f in flags {
      assert f in c.excludes * flags;
    }
    if group :| group in c.notAllOf && group <= flags {
      var i :| 0 <= i < |groups| && c.notAllOf[i] == group;
      assert groups[i] in groups;
    }
  }

  lemma RequirementsMean(c: Clauses, body: Value, flags: Flags)
    requires forall f :: f in c.required <==> Names(body, "requires", f)
    requires ReadsGroups(c.anyOf, ListedGroups(body, "any_of"))
    ensures CapabilitiesSatisfy(c.required, c.anyOf, flags) <==> MeetsRequirements(body, flags)
  {
    var groups := ListedGroups(body, "any_of");
    forall i | 0 <= i < |groups|
      ensures Meets(c.anyOf[i], flags) <==> HoldsSome(flags, groups[i])
    {
      if f :| InGroup(groups[i], f) && f in flags {
        assert f in c.anyOf[i] * flags;
      }
      if Meets(c.anyOf[i], flags) {
        var f :| f in c.anyOf[i] * flags;
        assert InGroup(groups[i], f);
      }
    }
    if f :| Names(body, "requires", f) {
      assert f in c.required;
    }
  }

  // ---- Namespaces ----------------------------------------------------------

  /** A flag is in a namespace exactly when it starts with it and a colon. */
  lemma {:induction false} NamespaceMeans(flag: string, namespace: string)
    requires ':' !in namespace
    ensures (SplitOnce(flag, ':').Some? && SplitOnce(flag, ':').value.0 == namespace)
       <==> namespace + [':'] <= flag
  {
    if namespace + [':'] <= flag {
      var tail := flag[|namespace| + 1..];
      assert flag == namespace + [':'] + tail;
      SplitJoined(namespace, ':', tail);
    }
  }

  lemma FlagKinds(flag: string)
    ensures IsTagCapability(flag) <==> "tag:" <= flag
    ensures IsVersionFlag(flag) <==> "client_version:" <= flag
    ensures IsRoutingFlag(flag) <==> "tag:" <= flag || "client_version:" <= flag
    ensures IsReservedCapability(flag) <==> exists namespace <- RESERVED_NAMESPACES :: namespace + ":" <= flag
  {
    NamespaceMeans(flag, TAG_NAMESPACE);
    NamespaceMeans(flag, CLIENT_VERSION_NAMESPACE);
    assert TAG_NAMESPACE + [':'] == "tag:" && CLIENT_VERSION_NAMESPACE + [':'] == "client_version:";
    ReservedMeans(flag, RESERVED_NAMESPACES);
  }

  lemma {:induction false} ReservedMeans(flag: string, namespaces: set<string>)
    requires forall namespace <- namespaces :: ':' !in namespace
    ensures (SplitOnce(flag, ':').Some? && SplitOnce(flag, ':').value.0 in namespaces)
       <==> exists namespace <- namespaces :: namespace + ":" <= flag
  {
    forall namespace | namespace in namespaces
      ensures (SplitOnce(flag, ':').Some? && SplitOnce(flag, ':').value.0 == namespace)
         <==> namespace + ":" <= flag
    {
      NamespaceMeans(flag, namespace);
    }
  }

  // ---- Rosters -------------------------------------------------------------

  lemma {:induction false} RosterIdsMembers(items: seq<Value>, id: string)
    ensures id in RosterIds(items) <==> String(id) in items
  {
    if items != [] {
      RosterIdsMembers(items[1..], id);
      assert items == [items[0]] + items[1..];
    }
  }

  lemma {:induction false} WithoutMembers(ids: seq<string>, excluded: set<string>, id: string)
    ensures id in Without(ids, excluded) <==> id in ids && id !in excluded
  {
    if ids != [] {
      WithoutMembers(ids[1..], excluded, id);
      assert ids == [ids[0]] + ids[1..];
    }
  }

  /** The effective roster holds exactly the listed ids no exclusion names. */
  lemma EffectiveRosterMembers(c: Clauses, body: Value, id: string)
    ensures id in EffectiveRoster(c, body) <==> ClientListed(body, id) && id !in c.excludeClients
  {
    WithoutMembers(Roster(body), c.excludeClients, id);
    var v := Get(body, "clients");
    if v.Some? && v.value.Array? {
      RosterIdsMembers(v.value.items, id);
    }
  }

  /** With no flags at all, only an id exclusion or an empty not_all_of group excludes. */
  lemma NoFlagsExcluded(c: Clauses, id: string)
    ensures ExcludesClient(c, id, {}) <==> id in c.excludeClients || {} in c.notAllOf
  {
    forall group | group in c.notAllOf
      ensures group <= {} <==> group == {}
    {
    }
  }

  // ---- Closed rosters ------------------------------------------------------

  /** The effective roster of a job only its roster admits, or None. */
  function ClientsOnlyRoster(body: Value): Option<seq<string>> {
    var c := Parse(body);
    if c.None? then None
    else
      var roster := EffectiveRoster(c.value, body);
      if roster != [] && c.value.required == {} then Some(roster) else None
  }

  /** A job is closed exactly when it is well shaped, requires nothing and has a client on
      its roster that it does not exclude. */
  lemma ClosedIff(body: Value)
    ensures ClientsOnlyRoster(body).Some? <==>
              && WellShaped(body) && (forall f :: !Names(body, "requires", f))
              && exists id :: Names(body, "clients", id) && !Names(body, "exclude_clients", id)
  {
    ParseMeans(body);
    if WellShaped(body) {
      var c := Parse(body).value;
      var roster := EffectiveRoster(c, body);
      if roster != [] {
        EffectiveRosterMembers(c, body, roster[0]);
      }
      if id :| Names(body, "clients", id) && !Names(body, "exclude_clients", id) {
        EffectiveRosterMembers(c, body, id);
      }
      assert c.required == {} <==> forall f :: !Names(body, "requires", f);
    }
  }

  /** A closed job: whoever it admits, now or ever, is on the returned roster, so
      denying the whole roster leaves nobody. Each member is admitted with no flags
      unless an empty not_all_of group shuts out everyone. */
  lemma ClosedRoster(body: Value, id: string, flags: Flags)
    requires ClientsOnlyRoster(body).Some?
    ensures Matches(body, id, flags) ==> id in ClientsOnlyRoster(body).value
    ensures id in ClientsOnlyRoster(body).value && {} !in Parse(body).value.notAllOf ==> Matches(body, id, {})
  {
    EffectiveRosterMembers(Parse(body).value, body, id);
    NoFlagsExcluded(Parse(body).value, id);
  }

  // ---- Bodies built from clauses -------------------------------------------

  /** The six clauses as lists, as a job body stores them. */
  datatype ClauseLists = ClauseLists(
    clients: seq<string>,
    excludeClients: seq<string>,
    required: seq<string>,
    excludes: seq<string>,
    anyOf: seq<seq<string>>,
    notAllOf: seq<seq<string>>)

  function SetOf(flags: seq<string>): Flags {
    set f | f in flags
  }

  function Strings(flags: seq<string>): seq<Value> {
    seq(|flags|, i requires 0 <= i < |flags| => String(flags[i]))
  }

  function StringGroups(groups: seq<seq<string>>): seq<Value> {
    seq(|groups|, i requires 0 <= i < |groups| => Array(Strings(groups[i])))
  }

  function SetsOf(groups: seq<seq<string>>): seq<Flags> {
    seq(|groups|, i requires 0 <= i < |groups| => SetOf(groups[i]))
  }

  function Body(lists: ClauseLists): Value {
    Object([
      ("clients", Array(Strings(lists.clients))),
      ("exclude_clients", Array(Strings(lists.excludeClients))),
      ("requires", Array(Strings(lists.required))),
      ("any_of", Array(StringGroups(lists.anyOf))),
      ("excludes", Array(Strings(lists.excludes))),
      ("not_all_of", Array(StringGroups(lists.notAllOf)))])
  }

  function ClausesOf(lists: ClauseLists): Clauses {
    Clauses(SetOf(lists.required), SetOf(lists.excludes), SetOf(lists.excludeClients),
            SetsOf(lists.anyOf), SetsOf(lists.notAllOf))
  }

  lemma StringsMembers(flags: seq<string>, f: string)
    ensures String(f) in Strings(flags) <==> f in flags
  {
    if f in flags {
      var i :| 0 <= i < |flags| && flags[i] == f;
      assert Strings(flags)[i] == String(f);
    }
  }

  lemma FlagSetOfStrings(flags: seq<string>)
    ensures FlagSet(Strings(flags)) == Some(SetOf(flags))
  {
    forall f
      ensures String(f) in Strings(flags) <==> f in flags
    {
      StringsMembers(flags, f);
    }
    assert (set v | v in Strings(flags) && v.String? :: v.text) == SetOf(flags);
  }

  lemma {:induction false} GroupsOfStrings(groups: seq<seq<string>>)
    ensures Groups(StringGroups(groups)) == Some(SetsOf(groups))
  {
    if groups == [] {
    } else {
      FlagSetOfStrings(groups[0]);
      GroupsOfStrings(groups[1..]);
      assert StringGroups(groups)[1..] == StringGroups(groups[1..]);
      assert SetsOf(groups) == [SetOf(groups[0])] + SetsOf(groups[1..]);
    }
  }

  /** A body built from lists parses to those lists as sets, and its roster lists
      exactly the ids it was given. */
  lemma BodyParses(lists: ClauseLists)
    ensures Parse(Body(lists)) == Some(ClausesOf(lists))
    ensures forall id :: ClientListed(Body(lists), id) <==> id in lists.clients
  {
    BodyFields(lists);
    FlagSetOfStrings(lists.required);
    FlagSetOfStrings(lists.excludes);
    FlagSetOfStrings(lists.excludeClients);
    GroupsOfStrings(lists.anyOf);
    GroupsOfStrings(lists.notAllOf);
    forall id
      ensures ClientListed(Body(lists), id) <==> id in lists.clients
    {
      StringsMembers(lists.clients, id);
    }
  }

  lemma BodyFields(lists: ClauseLists)
    ensures var body := Body(lists);
            && Get(body, "clients") == Some(Array(Strings(lists.clients)))
            && Get(body, "exclude_clients") == Some(Array(Strings(lists.excludeClients)))
            && Get(body, "requires") == Some(Array(Strings(lists.required)))
            && Get(body, "any_of") == Some(Array(StringGroups(lists.anyOf)))
            && Get(body, "excludes") == Some(Array(Strings(lists.excludes)))
            && Get(body, "not_all_of") == Some(Array(StringGroups(lists.notAllOf)))
  {
    var e := Body(lists).entries;
    LookupNext(e, "exclude_clients");
    LookupNext(e, "requires");
    LookupNext(e[1..], "requires");
    LookupNext(e, "any_of");
    LookupNext(e[1..], "any_of");
    LookupNext(e[2..], "any_of");
    LookupNext(e, "excludes");
    LookupNext(e[1..], "excludes");
    LookupNext(e[2..], "excludes");
    LookupNext(e[3..], "excludes");
    LookupNext(e, "not_all_of");
    LookupNext(e[1..], "not_all_of");
    LookupNext(e[2..], "not_all_of");
    LookupNext(e[3..], "not_all_of");
    LookupNext(e[4..], "not_all_of");
  }

  lemma {:induction false} LookupNext(entries: seq<(string, Value)>, key: string)
    requires entries != [] && entries[0].0 != key
    ensures Lookup(entries, key) == Lookup(entries[1..], key)
  {
  }
}
