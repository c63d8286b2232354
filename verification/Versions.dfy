/** The builds a client may run a job on: each reported version the job admits when
    it is the client's only version flag. */
module Versions {
  import opened Wrappers
  import opened Text
  import opened Json
  import opened Matching
  import opened Sorting

  function VersionFlag(version: string): string {
    CLIENT_VERSION_NAMESPACE + [':'] + version
  }

  lemma VersionFlagReadsBack(flag: string, version: string)
    ensures ClientVersionOf(flag) == Some(version) <==> flag == VersionFlag(version)
  {
    SplitJoined(CLIENT_VERSION_NAMESPACE, ':', version);
  }

  function VersionFlags(flags: Flags): Flags {
    set f | f in flags && IsVersionFlag(f)
  }

  function OtherFlags(flags: Flags): Flags {
    set f | f in flags && !IsVersionFlag(f)
  }

  /** The non-empty versions of the flags that are admitted alone. */
  function Collect(versions: seq<string>, body: Value, id: string, others: Flags): seq<string> {
    if versions == [] then []
    else
      var version := ClientVersionOf(versions[0]);
      var listed := Matches(body, id, others + {versions[0]}) && version.Some? && version.value != "";
      (if listed then [version.value] else []) + Collect(versions[1..], body, id, others)
  }

  ghost function AdmittedClientVersions(body: Value, client: Client, tags: FleetTags): seq<string> {
    if Parse(body).None? then []
    else
      var flags := CapabilitiesOf(tags, client);
      Collect(Sort(Elements(VersionFlags(flags)), Le), body, client.id, OtherFlags(flags))
  }

  predicate Ascending(s: seq<string>) {
    forall i, j :: 0 <= i < j < |s| ==> Le(s[i], s[j]) && s[i] != s[j]
  }

  /** The version is reported, names a build, and is admitted as the only one. */
  predicate AdmittedAlone(body: Value, id: string, flags: Flags, version: string) {
    version != "" && VersionFlag(version) in flags && Matches(body, id, OtherFlags(flags) + {VersionFlag(version)})
  }

  lemma {:induction false} CollectMembers(
    versions: seq<string>, body: Value, id: string, others: Flags, version: string)
    ensures version in Collect(versions, body, id, others)
       <==> version != "" && VersionFlag(version) in versions && Matches(body, id, others + {VersionFlag(version)})
  {
    if versions != [] {
      CollectMembers(versions[1..], body, id, others, version);
      VersionFlagReadsBack(versions[0], version);
      assert versions == [versions[0]] + versions[1..];
    }
  }

  lemma {:induction false} CollectAscends(versions: seq<string>, body: Value, id: string, others: Flags)
    requires Ascending(versions)
    ensures Ascending(Collect(versions, body, id, others))
  {
    if versions != [] {
      var first, rest := ClientVersionOf(versions[0]), Collect(versions[1..], body, id, others);
      CollectAscends(versions[1..], body, id, others);
      if first.Some? {
        forall v | v in rest
          ensures Le(first.value, v) && first.value != v
        {
          CollectMembers(versions[1..], body, id, others, v);
          VersionsAscend(versions, first.value, v);
        }
        PrependAscends(first.value, rest);
      }
      assert [] + rest == rest;
    }
  }

  /** A version below the rest of an ascending list is below each version after it. */
  lemma {:induction false} VersionsAscend(versions: seq<string>, first: string, v: string)
    requires Ascending(versions) && versions != [] && ClientVersionOf(versions[0]) == Some(first)
    requires VersionFlag(v) in versions[1..]
    ensures Le(first, v) && first != v
  {
    VersionFlagReadsBack(versions[0], first);
    var j :| 1 <= j < |versions| && versions[j] == VersionFlag(v);
    LePrefixed(CLIENT_VERSION_NAMESPACE + [':'], first, v);
  }

  lemma {:induction false} PrependAscends(x: string, rest: seq<string>)
    requires Ascending(rest) && forall v <- rest :: Le(x, v) && x != v
    ensures Ascending([x] + rest)
  {
    var s := [x] + rest;
    forall i, j | 0 <= i < j < |s|
      ensures Le(s[i], s[j]) && s[i] != s[j]
    {
      assert s[j] == rest[j - 1];
      assert i > 0 ==> s[i] == rest[i - 1];
    }
  }

  /** The answer lists exactly the versions admitted alone, each once, ascending. */
  lemma AdmittedVersionsExact(body: Value, client: Client, tags: FleetTags, version: string)
    ensures Ascending(AdmittedClientVersions(body, client, tags))
    ensures version in AdmittedClientVersions(body, client, tags)
       <==> AdmittedAlone(body, client.id, CapabilitiesOf(tags, client), version)
  {
    var flags := CapabilitiesOf(tags, client);
    var some := Elements(VersionFlags(flags));
    var sorted := Sort(some, Le);
    LeIsOrder();
    SortSorts(some, Le);
    SortPermutes(some, Le);
    SortDistinct(some, Le);
    CollectAscends(sorted, body, client.id, OtherFlags(flags));
    CollectMembers(sorted, body, client.id, OtherFlags(flags), version);
    VersionFlagReadsBack(VersionFlag(version), version);
  }

  // ---- Exactly which builds are listed -------------------------------------

  /** A flag the client reports that names a build. */
  predicate IsBuild(flags: Flags, f: string) {
    f in flags && IsVersionFlag(f) && f != VersionFlag("")
  }

  /** The positive clauses ask for no other build: the roster lists the id, or every
      required version is this one and it is in each group the other flags miss. */
  predicate Suffices(c: Clauses, body: Value, id: string, flags: Flags, f: string) {
    || ClientListed(body, id)
    || (&& VersionFlags(c.required) <= {f}
        && forall group <- c.anyOf :: Meets(group, OtherFlags(flags)) || f in group)
  }

  /** The negative clauses spare the client when this is its only build. */
  predicate Spared(c: Clauses, id: string, flags: Flags, f: string) {
    !ExcludesClient(c, id, OtherFlags(flags) + {f})
  }

  /** What the client holds besides its builds does for the required flags. */
  predicate OthersSuffice(c: Clauses, body: Value, id: string, flags: Flags) {
    ClientListed(body, id) || (c.required != {} && OtherFlags(c.required) <= flags)
  }

  lemma AloneSatisfies(c: Clauses, flags: Flags, f: string)
    requires f in flags && IsVersionFlag(f)
    ensures CapabilitiesSatisfy(c.required, c.anyOf, OtherFlags(flags) + {f})
       <==> && c.required != {} && OtherFlags(c.required) <= flags && VersionFlags(c.required) <= {f}
            && forall group <- c.anyOf :: Meets(group, OtherFlags(flags)) || f in group
  {
    var alone := OtherFlags(flags) + {f};
    assert c.required == OtherFlags(c.required) + VersionFlags(c.required);
    assert c.required <= alone <==> OtherFlags(c.required) <= flags && VersionFlags(c.required) <= {f};
    forall group: Flags
      ensures Meets(group, alone) <==> Meets(group, OtherFlags(flags)) || f in group
    {
      assert group * alone == group * OtherFlags(flags) + (if f in group then {f} else {});
    }
  }

  /** A build is admitted alone exactly when it suffices and is spared. */
  lemma AdmittedAloneIff(body: Value, id: string, flags: Flags, version: string)
    requires Parse(body).Some?
    ensures var c, f := Parse(body).value, VersionFlag(version);
            AdmittedAlone(body, id, flags, version) <==>
              && IsBuild(flags, f) && Spared(c, id, flags, f) && Suffices(c, body, id, flags, f)
              && OthersSuffice(c, body, id, flags)
  {
    var c, f := Parse(body).value, VersionFlag(version);
    VersionFlagReadsBack(f, version);
    VersionFlagReadsBack(f, "");
    if f in flags {
      AloneSatisfies(c, flags, f);
    }
  }

  /** Some reported build meets the clauses by itself. */
  predicate SomeSuffices(c: Clauses, body: Value, id: string, flags: Flags) {
    exists f <- flags :: IsBuild(flags, f) && Suffices(c, body, id, flags, f)
  }

  predicate SomeSparedSuffices(c: Clauses, body: Value, id: string, flags: Flags) {
    exists f <- flags :: IsBuild(flags, f) && Suffices(c, body, id, flags, f) && Spared(c, id, flags, f)
  }

  /** Exactly when the list names any build, for every body and client. */
  lemma ListedIff(body: Value, client: Client, tags: FleetTags)
    requires Parse(body).Some?
    ensures var c, flags := Parse(body).value, CapabilitiesOf(tags, client);
            AdmittedClientVersions(body, client, tags) != [] <==>
              OthersSuffice(c, body, client.id, flags) && SomeSparedSuffices(c, body, client.id, flags)
  {
    var c, flags, list := Parse(body).value, CapabilitiesOf(tags, client), AdmittedClientVersions(body, client, tags);
    if list != [] {
      AdmittedVersionsExact(body, client, tags, list[0]);
      AdmittedAloneIff(body, client.id, flags, list[0]);
    }
    if f :| f in flags && IsBuild(flags, f) && Suffices(c, body, client.id, flags, f)
            && Spared(c, client.id, flags, f) && OthersSuffice(c, body, client.id, flags) {
      var version := ClientVersionOf(f).value;
      VersionFlagReadsBack(f, version);
      AdmittedAloneIff(body, client.id, flags, version);
      AdmittedVersionsExact(body, client, tags, version);
    }
  }

  // ---- When the list decides the match -------------------------------------

  /** Fewer flags are excluded by less and satisfy less. */
  lemma FewerFlags(c: Clauses, id: string, fewer: Flags, flags: Flags)
    requires fewer <= flags
    ensures ExcludesClient(c, id, fewer) ==> ExcludesClient(c, id, flags)
    ensures CapabilitiesSatisfy(c.required, c.anyOf, fewer) ==> CapabilitiesSatisfy(c.required, c.anyOf, flags)
  {
    forall group: Flags
      ensures Meets(group, fewer) ==> Meets(group, flags)
    {
      assert group * fewer <= group * flags;
    }
  }

  lemma OneVersionKept(flags: Flags, f: string)
    requires f in flags
    ensures OtherFlags(flags) + {f} <= flags
  {
  }

  /** A client that matches is missed by the list exactly when no build of it meets the
      positive clauses by itself. */
  lemma MatchIsMissedIff(body: Value, client: Client, tags: FleetTags)
    requires JobMatchesClient(body, client, tags)
    ensures AdmittedClientVersions(body, client, tags) == []
       <==> !SomeSuffices(Parse(body).value, body, client.id, CapabilitiesOf(tags, client))
  {
    var c, flags := Parse(body).value, CapabilitiesOf(tags, client);
    ListedIff(body, client, tags);
    forall f | f in flags
      ensures Spared(c, client.id, flags, f)
    {
      OneVersionKept(flags, f);
      FewerFlags(c, client.id, OtherFlags(flags) + {f}, flags);
    }
  }

  /** A client the list names builds for fails to match exactly when the negative clauses
      exclude it with all the builds it reports. */
  lemma ListOverstatesIff(body: Value, client: Client, tags: FleetTags)
    requires AdmittedClientVersions(body, client, tags) != []
    ensures !JobMatchesClient(body, client, tags)
       <==> ExcludesClient(Parse(body).value, client.id, CapabilitiesOf(tags, client))
  {
    var c, flags, list := Parse(body).value, CapabilitiesOf(tags, client), AdmittedClientVersions(body, client, tags);
    AdmittedVersionsExact(body, client, tags, list[0]);
    OneVersionKept(flags, VersionFlag(list[0]));
    FewerFlags(c, client.id, OtherFlags(flags) + {VersionFlag(list[0])}, flags);
  }

  /** Exactly when the list decides the match, for every body and client: a client that
      matches has a build that suffices, and one the negative clauses exclude has none
      that, alone, they would spare. */
  lemma ListDecidesIff(body: Value, client: Client, tags: FleetTags)
    requires Parse(body).Some?
    ensures var c, flags := Parse(body).value, CapabilitiesOf(tags, client);
            (AdmittedClientVersions(body, client, tags) != [] <==> JobMatchesClient(body, client, tags)) <==>
              if ExcludesClient(c, client.id, flags)
              then !(OthersSuffice(c, body, client.id, flags) && SomeSparedSuffices(c, body, client.id, flags))
              else JobMatchesClient(body, client, tags) ==> SomeSuffices(c, body, client.id, flags)
  {
    ListedIff(body, client, tags);
    if JobMatchesClient(body, client, tags) {
      MatchIsMissedIff(body, client, tags);
    } else if AdmittedClientVersions(body, client, tags) != [] {
      ListOverstatesIff(body, client, tags);
    }
  }

  // ---- Jobs whose exclusions name no build ---------------------------------

  predicate NamesVersion(group: Flags) {
    exists f <- group :: IsVersionFlag(f)
  }

  predicate ExclusionsNameNoVersion(c: Clauses) {
    !NamesVersion(c.excludes) && forall group <- c.notAllOf :: !NamesVersion(group)
  }

  lemma ExclusionsReadOthers(c: Clauses, id: string, flags: Flags, f: string)
    requires ExclusionsNameNoVersion(c) && IsVersionFlag(f)
    ensures ExcludesClient(c, id, OtherFlags(flags) + {f}) <==> ExcludesClient(c, id, flags)
  {
    forall group: Flags | !NamesVersion(group)
      ensures Meets(group, flags) <==> Meets(group, OtherFlags(flags) + {f})
      ensures group <= flags <==> group <= OtherFlags(flags) + {f}
    {
      assert forall g <- group :: g in flags <==> g in OtherFlags(flags) + {f};
      assert group * flags == group * (OtherFlags(flags) + {f});
    }
  }

  /** For such a job, a build is listed exactly when the client matches and one of its
      builds suffices. */
  lemma ListedIffMatchAndSuffices(body: Value, client: Client, tags: FleetTags)
    requires Parse(body).Some? && ExclusionsNameNoVersion(Parse(body).value)
    ensures AdmittedClientVersions(body, client, tags) != []
       <==> && JobMatchesClient(body, client, tags)
            && SomeSuffices(Parse(body).value, body, client.id, CapabilitiesOf(tags, client))
  {
    var c, flags, list := Parse(body).value, CapabilitiesOf(tags, client), AdmittedClientVersions(body, client, tags);
    if list != [] {
      AdmittedVersionsExact(body, client, tags, list[0]);
      VersionFlagReadsBack(VersionFlag(list[0]), list[0]);
      ExclusionsReadOthers(c, client.id, flags, VersionFlag(list[0]));
      ListOverstatesIff(body, client, tags);
    }
    if JobMatchesClient(body, client, tags) {
      MatchIsMissedIff(body, client, tags);
    }
  }

  // ---- The documented shape ------------------------------------------------

  /** Versions are named in one any_of group at most, and in no other clause. */
  predicate NamesVersionsOnce(c: Clauses) {
    && !NamesVersion(c.required) && ExclusionsNameNoVersion(c)
    && (forall i, j :: 0 <= i < j < |c.anyOf| ==> !(NamesVersion(c.anyOf[i]) && NamesVersion(c.anyOf[j])))
  }

  /** A version admitted alone means the client matches with all it reports. */
  lemma AdmittedVersionMatches(body: Value, id: string, flags: Flags, version: string)
    requires Parse(body).Some? && ExclusionsNameNoVersion(Parse(body).value)
    requires AdmittedAlone(body, id, flags, version)
    ensures Matches(body, id, flags)
  {
    var c, f := Parse(body).value, VersionFlag(version);
    VersionFlagReadsBack(f, version);
    ExclusionsReadOthers(c, id, flags, f);
    OneVersionKept(flags, f);
    FewerFlags(c, id, OtherFlags(flags) + {f}, flags);
  }

  /** A matching client of any build has one that suffices: one in the version group. */
  lemma OnceNamedSuffices(c: Clauses, body: Value, id: string, flags: Flags, build: string)
    requires NamesVersionsOnce(c) && IsBuild(flags, build) && VersionFlag("") !in flags
    requires ClientListed(body, id) || forall group <- c.anyOf :: Meets(group, flags)
    ensures SomeSuffices(c, body, id, flags)
  {
    assert VersionFlags(c.required) == {};
    if !Suffices(c, body, id, flags, build) {
      var i :| 0 <= i < |c.anyOf| && !Meets(c.anyOf[i], OtherFlags(flags));
      assert Meets(c.anyOf[i], flags);
      var f :| f in c.anyOf[i] * flags;
      assert f !in c.anyOf[i] * OtherFlags(flags);
      assert IsBuild(flags, f) && NamesVersion(c.anyOf[i]);
      forall group | group in c.anyOf
        ensures Meets(group, OtherFlags(flags)) || f in group
      {
        var j :| 0 <= j < |c.anyOf| && c.anyOf[j] == group;
        if j != i {
          assert !NamesVersion(group);
          assert group * flags == group * OtherFlags(flags);
        }
      }
      assert Suffices(c, body, id, flags, f);
    }
  }

  /** For a job that names versions in one any_of group, and a client that reports a
      version and no empty one, some build is listed exactly when the client matches. */
  lemma VersionsDecideTheMatch(body: Value, client: Client, tags: FleetTags)
    requires Parse(body).Some? && NamesVersionsOnce(Parse(body).value)
    requires VersionFlags(CapabilitiesOf(tags, client)) != {}
    requires VersionFlag("") !in CapabilitiesOf(tags, client)
    ensures AdmittedClientVersions(body, client, tags) != [] <==> JobMatchesClient(body, client, tags)
  {
    var c, flags := Parse(body).value, CapabilitiesOf(tags, client);
    ListedIffMatchAndSuffices(body, client, tags);
    if JobMatchesClient(body, client, tags) {
      var build :| build in VersionFlags(flags);
      OnceNamedSuffices(c, body, client.id, flags, build);
    }
  }

  // ---- Both failures happen ------------------------------------------------

  const TWO_BUILDS: ClauseLists :=
    ClauseLists([], [], ["r"], [], [["client_version:a"], ["client_version:b"]], [])

  /** With two version groups a client of both builds matches, and no build alone does. */
  lemma TwoGroupsAreMissed(client: Client)
    requires client.profileFlags == {} && client.reported == {"r", "client_version:a", "client_version:b"}
    ensures JobMatchesClient(Body(TWO_BUILDS), client, map[])
    ensures AdmittedClientVersions(Body(TWO_BUILDS), client, map[]) == []
  {
    var a, b := VersionFlag("a"), VersionFlag("b");
    assert a == "client_version:a" && b == "client_version:b";
    VersionFlagReadsBack(a, "a");
    VersionFlagReadsBack(b, "b");
    TwoBuildFlags(client, "r", a, b);
    TwoBuildClauses(a, b);
    BodyParses(TWO_BUILDS);
    NoBuildAlone(Body(TWO_BUILDS), client, "r", a, b);
  }

  lemma NoBuildAlone(body: Value, client: Client, r: string, a: string, b: string)
    requires Parse(body) == Some(Clauses({r}, {}, {}, [{a}, {b}], [])) && !ClientListed(body, client.id)
    requires a != b && IsVersionFlag(a) && IsVersionFlag(b)
    requires CapabilitiesOf(map[], client) == {r, a, b} && OtherFlags({r, a, b}) == {r}
    ensures JobMatchesClient(body, client, map[])
    ensures AdmittedClientVersions(body, client, map[]) == []
  {
    TwoGroupMatch(body, client.id, r, a, b, {r, a, b});
    assert r in OtherFlags({r, a, b});
    var all := AdmittedClientVersions(body, client, map[]);
    if all != [] {
      TwoGroupMatch(body, client.id, r, a, b, {r} + {VersionFlag(all[0])});
      AdmittedVersionsExact(body, client, map[], all[0]);
      assert false;
    }
  }

  lemma TwoGroupMatch(body: Value, id: string, r: string, a: string, b: string, flags: Flags)
    requires Parse(body) == Some(Clauses({r}, {}, {}, [{a}, {b}], [])) && !ClientListed(body, id)
    ensures Matches(body, id, flags) <==> r in flags && a in flags && b in flags
  {
    var c := Parse(body).value;
    assert Meets({a}, flags) <==> a in flags by {
      assert {a} * flags == (if a in flags then {a} else {});
    }
    assert Meets({b}, flags) <==> b in flags by {
      assert {b} * flags == (if b in flags then {b} else {});
    }
    assert !ExcludesClient(c, id, flags);
    assert c.anyOf[0] == {a} && c.anyOf[1] == {b};
    forall group | group in c.anyOf
      ensures group == {a} || group == {b}
    {
    }
  }

  lemma TwoBuildFlags(client: Client, r: string, a: string, b: string)
    requires client.profileFlags == {} && client.reported == {r, a, b}
    requires IsVersionFlag(a) && IsVersionFlag(b) && ':' !in r
    ensures CapabilitiesOf(map[], client) == {r, a, b}
    ensures OtherFlags({r, a, b}) == {r}
  {
  }

  lemma TwoBuildClauses(a: string, b: string)
    requires a == "client_version:a" && b == "client_version:b"
    ensures ClausesOf(TWO_BUILDS) == Clauses({"r"}, {}, {}, [{a}, {b}], [])
  {
    assert SetOf(["r"]) == {"r"} && SetOf([a]) == {a} && SetOf([b]) == {b};
    assert SetsOf([[a], [b]]) == [{a}, {b}];
  }

  const ONE_BARRED: ClauseLists := ClauseLists([], [], ["r"], ["client_version:b"], [], [])

  /** Barred from one of its two builds, a client is listed for the other and does not match. */
  lemma BarredBuildIsOverstated(client: Client)
    requires client.profileFlags == {} && client.reported == {"r", "client_version:a", "client_version:b"}
    ensures !JobMatchesClient(Body(ONE_BARRED), client, map[])
    ensures "a" in AdmittedClientVersions(Body(ONE_BARRED), client, map[])
  {
    var a, b := VersionFlag("a"), VersionFlag("b");
    assert a == "client_version:a" && b == "client_version:b";
    VersionFlagReadsBack(a, "a");
    VersionFlagReadsBack(b, "b");
    TwoBuildFlags(client, "r", a, b);
    OneBarredClauses(b);
    BodyParses(ONE_BARRED);
    OtherBuildListed(Body(ONE_BARRED), client, "r", "a", b);
  }

  lemma OneBarredClauses(b: string)
    requires b == "client_version:b"
    ensures ClausesOf(ONE_BARRED) == Clauses({"r"}, {b}, {}, [], [])
  {
    assert SetOf(["r"]) == {"r"} && SetOf([b]) == {b};
  }

  lemma OtherBuildListed(body: Value, client: Client, r: string, version: string, b: string)
    requires Parse(body) == Some(Clauses({r}, {b}, {}, [], [])) && !ClientListed(body, client.id)
    requires version != "" && VersionFlag(version) != b && r != b
    requires CapabilitiesOf(map[], client) == {r, VersionFlag(version), b}
    requires OtherFlags({r, VersionFlag(version), b}) == {r}
    ensures !JobMatchesClient(body, client, map[])
    ensures version in AdmittedClientVersions(body, client, map[])
  {
    BarredMatch(body, client.id, r, b, {r, VersionFlag(version), b});
    BarredMatch(body, client.id, r, b, {r} + {VersionFlag(version)});
    AdmittedVersionsExact(body, client, map[], version);
  }

  lemma BarredMatch(body: Value, id: string, r: string, b: string, flags: Flags)
    requires Parse(body) == Some(Clauses({r}, {b}, {}, [], [])) && !ClientListed(body, id)
    ensures Matches(body, id, flags) <==> r in flags && b !in flags
  {
    assert {b} * flags == (if b in flags then {b} else {});
  }
}
