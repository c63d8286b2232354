/** The names queue objects are stored under, and the parsers that read them back.
    Ids exclude the separators, so every split is exact. */
module QueueKeys {
  import opened Wrappers
  import opened Text

  const JSON: string := ".json"

  // ---- Ids -----------------------------------------------------------------

  predicate IsAlphanumeric(c: char) {
    '0' <= c <= '9' || 'a' <= c <= 'z' || 'A' <= c <= 'Z'
  }

  /** Job and plan ids. */
  predicate IsQueueId(s: string) {
    s != "" && forall c <- s :: IsAlphanumeric(c) || c == '-'
  }

  /** Client ids. A key segment that trimming would rewrite is refused, so a segment
      names a client exactly when it is already in this form. */
  predicate IsClientId(s: string) {
    s != "" && forall c <- s :: IsAlphanumeric(c) || c == '-' || c == '_'
  }

  function ParseQueueId(s: string): Option<string> {
    if IsQueueId(s) then Some(s) else None
  }

  function ParseClientId(s: string): Option<string> {
    if IsClientId(s) then Some(s) else None
  }

  lemma IdsExcludeSeparators(s: string)
    requires IsQueueId(s) || IsClientId(s)
    ensures '.' !in s && '/' !in s
  {
  }

  /** The alphabets the two kinds of id are written in. */
  lemma IdAlphabets(c: char)
    ensures IsQueueId([c]) <==>
              c in "0123456789" || c in "abcdefghijklmnopqrstuvwxyz" || c in "ABCDEFGHIJKLMNOPQRSTUVWXYZ" || c == '-'
    ensures IsClientId([c]) <==> IsQueueId([c]) || c == '_'
  {
    DigitsAre(c);
    SmallLettersAre(c);
    CapitalsAre(c);
    assert c in [c] && forall x <- [c] :: x == c;
    assert IsQueueId([c]) <==> IsAlphanumeric(c) || c == '-';
    assert IsAlphanumeric(c) <==> IsDigit(c) || 'a' <= c <= 'z' || 'A' <= c <= 'Z';
  }

  lemma SmallLettersAre(c: char)
    ensures 'a' <= c <= 'z' <==> c in "abcdefghijklmnopqrstuvwxyz"
  {
    assert "abcdefghijklmnopqrstuvwxyz" == "abcdefghi" + "jklmnopqr" + "stuvwxyz";
  }

  lemma CapitalsAre(c: char)
    ensures 'A' <= c <= 'Z' <==> c in "ABCDEFGHIJKLMNOPQRSTUVWXYZ"
  {
    assert "ABCDEFGHIJKLMNOPQRSTUVWXYZ" == "ABCDEFGHI" + "JKLMNOPQR" + "STUVWXYZ";
  }

  /** An id is one exactly when each of its characters is. */
  lemma IdsAreTheirCharacters(s: string)
    ensures IsQueueId(s) <==> s != "" && forall c <- s :: IsQueueId([c])
    ensures IsClientId(s) <==> s != "" && forall c <- s :: IsClientId([c])
  {
  }

  // ---- Deadlines -----------------------------------------------------------

  datatype DateTime = DateTime(year: nat, month: nat, day: nat, hour: nat, minute: nat, second: nat)

  datatype ExpiresAt = At(time: DateTime) | Never

  /** How a time is written and read in a key. */
  datatype Clock = Clock(write: DateTime -> string, read: string -> Option<DateTime>, writable: DateTime -> bool)

  /** What keys need of it: writable times read back, in text free of separators. */
  ghost predicate IsLawful(clock: Clock) {
    forall t :: clock.writable(t) ==>
      && clock.read(clock.write(t)) == Some(t)
      && '.' !in clock.write(t) && '/' !in clock.write(t) && clock.write(t) != "never"
  }

  predicate IsWritable(clock: Clock, e: ExpiresAt) {
    e.Never? || clock.writable(e.time)
  }

  function WriteExpiry(clock: Clock, e: ExpiresAt): string {
    if e.Never? then "never" else clock.write(e.time)
  }

  function ReadExpiry(clock: Clock, s: string): Option<ExpiresAt> {
    if s == "never" then Some(Never)
    else
      var t := clock.read(s);
      if t.None? then None else Some(At(t.value))
  }

  lemma ExpiryReadsBack(clock: Clock, e: ExpiresAt)
    requires IsLawful(clock) && IsWritable(clock, e)
    ensures ReadExpiry(clock, WriteExpiry(clock, e)) == Some(e)
    ensures '.' !in WriteExpiry(clock, e) && '/' !in WriteExpiry(clock, e)
  {
  }

  // ---- Pairs around a separator --------------------------------------------

  function StripSuffix(s: string, suffix: string): Option<string> {
    if |suffix| <= |s| && s[|s| - |suffix|..] == suffix then Some(s[..|s| - |suffix|]) else None
  }

  lemma SuffixStrips(stem: string, suffix: string)
    ensures StripSuffix(stem + suffix, suffix) == Some(stem)
  {
    var s := stem + suffix;
    assert s[|stem|..] == suffix && s[..|stem|] == stem;
  }

  /** An id, a separator and a deadline. */
  function ParsePair(clock: Clock, name: string, sep: char): Option<(string, ExpiresAt)> {
    var split := SplitOnce(name, sep);
    if split.None? then None
    else
      var id, expiry := ParseQueueId(split.value.0), ReadExpiry(clock, split.value.1);
      if id.None? || expiry.None? then None else Some((id.value, expiry.value))
  }

  lemma PairReadsBack(clock: Clock, id: string, e: ExpiresAt, sep: char)
    requires IsLawful(clock) && IsWritable(clock, e) && IsQueueId(id) && (sep == '.' || sep == '/')
    ensures ParsePair(clock, id + [sep] + WriteExpiry(clock, e), sep) == Some((id, e))
  {
    ExpiryReadsBack(clock, e);
    SplitJoined(id, sep, WriteExpiry(clock, e));
  }

  /** A name that starts with an id and a separator starts with no other id and it. */
  lemma OwnPrefix(id: string, sep: char, tail: string, other: string)
    requires sep !in id && sep !in other
    ensures other + [sep] <= id + [sep] + tail <==> other == id
  {
    var name := id + [sep] + tail;
    SplitJoined(id, sep, tail);
    if other + [sep] <= name {
      assert name == other + [sep] + name[|other| + 1..];
      SplitJoined(other, sep, name[|other| + 1..]);
    }
  }

  // ---- Available jobs ------------------------------------------------------

  function AvailFilename(clock: Clock, job: string, e: ExpiresAt): string {
    job + ['/'] + WriteExpiry(clock, e) + JSON
  }

  /** The single-segment form an earlier layout wrote. */
  function FlatAvailFilename(clock: Clock, job: string, e: ExpiresAt): string {
    job + ['.'] + WriteExpiry(clock, e) + JSON
  }

  function SplitJobAndExpiry(clock: Clock, name: string, sep: char): Option<(string, ExpiresAt)> {
    var stem := StripSuffix(name, JSON);
    if stem.None? then None else ParsePair(clock, stem.value, sep)
  }

  function ParseAvailFilename(clock: Clock, name: string): Option<(string, ExpiresAt)> {
    SplitJobAndExpiry(clock, name, '/')
  }

  function ParseFlatAvailFilename(clock: Clock, name: string): Option<(string, ExpiresAt)> {
    SplitJobAndExpiry(clock, name, '.')
  }

  lemma AvailReadsBack(clock: Clock, job: string, e: ExpiresAt)
    requires IsLawful(clock) && IsWritable(clock, e) && IsQueueId(job)
    ensures ParseAvailFilename(clock, AvailFilename(clock, job, e)) == Some((job, e))
    ensures ParseFlatAvailFilename(clock, FlatAvailFilename(clock, job, e)) == Some((job, e))
  {
    PairReadsBack(clock, job, e, '/');
    PairReadsBack(clock, job, e, '.');
    SuffixStrips(job + ['/'] + WriteExpiry(clock, e), JSON);
    SuffixStrips(job + ['.'] + WriteExpiry(clock, e), JSON);
  }

  /** No name is a job in both layouts, so a migration never mistakes one for the other. */
  predicate EndsInJson(name: string) {
    |name| >= 5 && name[|name| - 5..] == ".json"
  }

  /** A job-scoped listing meets the job's own names alone: the prefix is its id and a
      slash, or a dot in the earlier layout. */
  lemma AvailOwnJob(clock: Clock, job: string, e: ExpiresAt, other: string)
    requires IsQueueId(job) && IsQueueId(other)
    ensures other + "/" <= AvailFilename(clock, job, e) <==> other == job
    ensures other + "." <= FlatAvailFilename(clock, job, e) <==> other == job
    ensures EndsInJson(AvailFilename(clock, job, e)) && EndsInJson(FlatAvailFilename(clock, job, e))
  {
    var tail := WriteExpiry(clock, e) + JSON;
    assert AvailFilename(clock, job, e) == job + ['/'] + tail;
    assert FlatAvailFilename(clock, job, e) == job + ['.'] + tail;
    OwnPrefix(job, '/', tail, other);
    OwnPrefix(job, '.', tail, other);
  }

  lemma LayoutsAreDisjoint(clock: Clock, name: string)
    ensures ParseAvailFilename(clock, name).None? || ParseFlatAvailFilename(clock, name).None?
  {
    var stem := StripSuffix(name, JSON);
    if stem.Some? {
      var slash, dot := SplitOnce(stem.value, '/'), SplitOnce(stem.value, '.');
      if slash.Some? && dot.Some? {
        FirstSeparatorWins(stem.value, slash.value.0, slash.value.1, dot.value.0, dot.value.1);
      }
    }
  }

  /** Of the two splits of one stem, one has the other separator in its head. */
  lemma FirstSeparatorWins(s: string, a: string, a': string, b: string, b': string)
    requires s == a + ['/'] + a' == b + ['.'] + b'
    ensures '.' in a || '/' in b
  {
    assert s[|a|] == '/' && s[|b|] == '.';
    if |b| < |a| {
      assert a[|b|] == s[|b|];
    } else {
      assert |a| < |b|;
      assert b[|a|] == s[|a|];
    }
  }

  // ---- Markers -------------------------------------------------------------

  /** An id and a deadline: an eligible marker names a job, a job-plan marker a plan,
      and the two kinds of id share one alphabet. */
  function DeadlineMarkerFilename(clock: Clock, id: string, e: ExpiresAt): string {
    id + ['.'] + WriteExpiry(clock, e)
  }

  function ParseDeadlineMarker(clock: Clock, name: string): Option<(string, ExpiresAt)> {
    ParsePair(clock, name, '.')
  }

  lemma DeadlineMarkerReadsBack(clock: Clock, id: string, e: ExpiresAt)
    requires IsLawful(clock) && IsWritable(clock, e) && IsQueueId(id)
    ensures ParseDeadlineMarker(clock, DeadlineMarkerFilename(clock, id, e)) == Some((id, e))
  {
    PairReadsBack(clock, id, e, '.');
  }

  function DeniedMarkerFilename(job: string, client: string): string {
    job + ['.'] + client
  }

  function DeniedJobPrefix(job: string): string {
    job + ['.']
  }

  function ParseDeniedMarker(name: string): Option<(string, string)> {
    var split := SplitOnce(name, '.');
    if split.None? then None
    else
      var job, client := ParseQueueId(split.value.0), ParseClientId(split.value.1);
      if job.None? || client.None? then None else Some((job.value, client.value))
  }

  /** A denied marker reads back, and a prefix sweep of a job meets its markers alone:
      every parsed name starts with the prefix of its own job and no other's. */
  lemma DeniedReadsBack(job: string, client: string, other: string)
    requires IsQueueId(job) && IsClientId(client) && IsQueueId(other)
    ensures ParseDeniedMarker(DeniedMarkerFilename(job, client)) == Some((job, client))
    ensures DeniedJobPrefix(other) <= DeniedMarkerFilename(job, client) <==> other == job
  {
    SplitJoined(job, '.', client);
    var name := DeniedMarkerFilename(job, client);
    if DeniedJobPrefix(other) <= name {
      assert name == other + ['.'] + name[|other| + 1..];
      SplitJoined(other, '.', name[|other| + 1..]);
    }
  }

  // ---- Leases --------------------------------------------------------------

  datatype Lease = Lease(job: string, expiresAt: ExpiresAt, client: string, leaseExpiry: DateTime)

  function LeasedKey(clock: Clock, lease: Lease): string {
    lease.client + ['/'] + LeasedLeaf(clock, lease)
  }

  function LeasedLeaf(clock: Clock, lease: Lease): string {
    LeasedStem(clock, lease) + JSON
  }

  function LeasedStem(clock: Clock, lease: Lease): string {
    lease.job + ['.'] + (WriteExpiry(clock, lease.expiresAt) + ['.'] + clock.write(lease.leaseExpiry))
  }

  function ParseLeasedKey(clock: Clock, key: string): Option<Lease> {
    var outer := SplitOnce(key, '/');
    if outer.None? then None
    else
      var client, stem := ParseClientId(outer.value.0), StripSuffix(outer.value.1, JSON);
      if client.None? || stem.None? then None
      else
        var leaf := SplitOnce(stem.value, '.');
        if leaf.None? then None else ParseLeasedLeaf(clock, client.value, leaf.value.0, leaf.value.1)
  }

  function ParseLeasedLeaf(clock: Clock, client: string, job: string, rest: string): Option<Lease> {
    var split := SplitOnce(rest, '.');
    if split.None? then None
    else
      var id, expiry, leaseExpiry := ParseQueueId(job), ReadExpiry(clock, split.value.0), clock.read(split.value.1);
      if id.None? || expiry.None? || leaseExpiry.None? then None
      else Some(Lease(id.value, expiry.value, client, leaseExpiry.value))
  }

  predicate IsLeaseWritable(clock: Clock, lease: Lease) {
    && IsQueueId(lease.job) && IsClientId(lease.client)
    && IsWritable(clock, lease.expiresAt) && clock.writable(lease.leaseExpiry)
  }

  lemma LeasedReadsBack(clock: Clock, lease: Lease)
    requires IsLawful(clock) && IsLeaseWritable(clock, lease)
    ensures ParseLeasedKey(clock, LeasedKey(clock, lease)) == Some(lease)
  {
    var expiry, stamp := WriteExpiry(clock, lease.expiresAt), clock.write(lease.leaseExpiry);
    IdsExcludeSeparators(lease.client);
    IdsExcludeSeparators(lease.job);
    ExpiryReadsBack(clock, lease.expiresAt);
    SplitJoined(lease.client, '/', LeasedLeaf(clock, lease));
    SuffixStrips(LeasedStem(clock, lease), JSON);
    SplitJoined(lease.job, '.', expiry + ['.'] + stamp);
    SplitJoined(expiry, '.', stamp);
  }

  /** A client-scoped listing meets the client's own leases alone, and within it a job's
      prefix that job's. */
  lemma LeasedOwnClient(clock: Clock, lease: Lease, client: string, job: string)
    requires IsLeaseWritable(clock, lease) && IsClientId(client) && IsQueueId(job)
    ensures client + "/" <= LeasedKey(clock, lease) <==> client == lease.client
    ensures lease.client + "/" + (job + ".") <= LeasedKey(clock, lease) <==> job == lease.job
    ensures EndsInJson(LeasedKey(clock, lease))
  {
    var leaf := LeasedLeaf(clock, lease);
    var tail := WriteExpiry(clock, lease.expiresAt) + ['.'] + clock.write(lease.leaseExpiry) + JSON;
    OwnPrefix(lease.client, '/', leaf, client);
    assert leaf == lease.job + ['.'] + tail;
    OwnPrefix(lease.job, '.', tail, job);
    var head := lease.client + "/";
    assert LeasedKey(clock, lease) == head + leaf;
    assert head + (job + ".") <= head + leaf <==> job + "." <= leaf by {
      if head + (job + ".") <= head + leaf {
        assert (head + leaf)[..|head| + |job| + 1][|head|..] == leaf[..|job| + 1];
      }
    }
  }

  /** Markers start with their own id and a dot, and no other's. */
  lemma MarkersOwnId(clock: Clock, id: string, e: ExpiresAt, client: string, t: DateTime, other: string)
    requires IsQueueId(id) && IsClientId(client) && IsClientId(other)
    ensures other + "." <= DeadlineMarkerFilename(clock, id, e) <==> other == id
    ensures other + "." <= LostLeaseFilename(clock, client, t) <==> other == client
  {
    OwnPrefix(id, '.', WriteExpiry(clock, e), other);
    OwnPrefix(client, '.', clock.write(t), other);
  }

  function LostLeaseFilename(clock: Clock, client: string, leaseExpiry: DateTime): string {
    client + ['.'] + clock.write(leaseExpiry)
  }

  function ParseLostLeaseFilename(clock: Clock, name: string): Option<(string, DateTime)> {
    var split := SplitOnce(name, '.');
    if split.None? then None
    else
      var client, t := ParseClientId(split.value.0), clock.read(split.value.1);
      if client.None? || t.None? then None else Some((client.value, t.value))
  }

  lemma LostLeaseReadsBack(clock: Clock, client: string, t: DateTime)
    requires IsLawful(clock) && clock.writable(t) && IsClientId(client)
    ensures ParseLostLeaseFilename(clock, LostLeaseFilename(clock, client, t)) == Some((client, t))
  {
    IdsExcludeSeparators(client);
    SplitJoined(client, '.', clock.write(t));
  }

  // ---- The compact timestamp -----------------------------------------------

  const YEAR: nat := 4
  const FIELD: nat := 2

  /** A number in a fixed width of decimal digits. */
  function Digits(n: nat, width: nat): (s: string)
    ensures |s| == width
    ensures IsNumeric(s)
  {
    if width == 0 then "" else Digits(n / 10, width - 1) + ['0' + (n % 10) as char]
  }

  predicate IsNumeric(s: string) {
    forall i :: 0 <= i < |s| ==> '0' <= s[i] <= '9'
  }

  /** The number a run of digits writes. */
  function Number(s: string): nat {
    if s == "" then 0
    else
      var last := s[|s| - 1];
      10 * Number(s[..|s| - 1]) + (if '0' <= last <= '9' then (last - '0') as nat else 0)
  }

  function Limit(width: nat): nat {
    if width == 0 then 1 else 10 * Limit(width - 1)
  }

  lemma {:induction false} DigitsReadBack(n: nat, width: nat)
    requires n < Limit(width)
    ensures Number(Digits(n, width)) == n
  {
    if width > 0 {
      DigitsReadBack(n / 10, width - 1);
      var s := Digits(n, width);
      assert s[..width - 1] == Digits(n / 10, width - 1);
    }
  }

  predicate IsLeap(year: nat) {
    year % 4 == 0 && (year % 100 != 0 || year % 400 == 0)
  }

  function DaysIn(year: nat, month: nat): nat {
    if month == 2 then (if IsLeap(year) then 29 else 28)
    else if month in {4, 6, 9, 11} then 30
    else 31
  }

  /** A real instant, to the second, of a four-digit year. */
  predicate IsInstant(t: DateTime) {
    && t.year < 10000 && 1 <= t.month <= 12 && 1 <= t.day <= DaysIn(t.year, t.month)
    && t.hour < 24 && t.minute < 60 && t.second < 60
  }

  function Triple(a: string, b: string, c: string): string {
    a + b + c
  }

  function WriteStamp(t: DateTime): string {
    Triple(Digits(t.year, YEAR), Digits(t.month, FIELD), Digits(t.day, FIELD)) + "T"
    + Triple(Digits(t.hour, FIELD), Digits(t.minute, FIELD), Digits(t.second, FIELD)) + "Z"
  }

  function ReadStamp(s: string): Option<DateTime> {
    if |s| != 16 || s[8] != 'T' || s[15] != 'Z' || !IsNumeric(s[..8]) || !IsNumeric(s[9..15]) then None
    else
      var date, time := s[..8], s[9..15];
      var t := DateTime(Number(date[..4]), Number(date[4..6]), Number(date[6..8]),
                        Number(time[..2]), Number(time[2..4]), Number(time[4..6]));
      if IsInstant(t) then Some(t) else None
  }

  const COMPACT: Clock := Clock(WriteStamp, ReadStamp, IsInstant)

  lemma TripleSplits(a: string, b: string, c: string)
    ensures var s := Triple(a, b, c);
            s[..|a|] == a && s[|a|..|a| + |b|] == b && s[|a| + |b|..|a| + |b| + |c|] == c
    ensures IsNumeric(a) && IsNumeric(b) && IsNumeric(c) ==> IsNumeric(Triple(a, b, c))
  {
  }

  lemma {:induction false} FieldReadsBack(n: nat, width: nat, limit: nat)
    requires n < limit <= Limit(width)
    ensures Number(Digits(n, width)) == n
  {
    DigitsReadBack(n, width);
  }

  lemma StampReadsBack(t: DateTime)
    requires IsInstant(t)
    ensures ReadStamp(WriteStamp(t)) == Some(t)
    ensures '.' !in WriteStamp(t) && '/' !in WriteStamp(t)
  {
    assert Limit(2) == 100 && Limit(4) == 10000;
    FieldReadsBack(t.year, YEAR, 10000);
    FieldReadsBack(t.month, FIELD, 100);
    FieldReadsBack(t.day, FIELD, 100);
    FieldReadsBack(t.hour, FIELD, 100);
    FieldReadsBack(t.minute, FIELD, 100);
    FieldReadsBack(t.second, FIELD, 100);
    JoinedReadsBack(t, Digits(t.year, YEAR), Digits(t.month, FIELD), Digits(t.day, FIELD),
                    Digits(t.hour, FIELD), Digits(t.minute, FIELD), Digits(t.second, FIELD));
  }

  lemma {:induction false} JoinedReadsBack(
    t: DateTime, y: string, mo: string, d: string, h: string, mi: string, sec: string)
    requires IsInstant(t) && |y| == 4 && |mo| == |d| == |h| == |mi| == |sec| == 2
    requires IsNumeric(y) && IsNumeric(mo) && IsNumeric(d) && IsNumeric(h) && IsNumeric(mi) && IsNumeric(sec)
    requires t == DateTime(Number(y), Number(mo), Number(d), Number(h), Number(mi), Number(sec))
    ensures var s := Triple(y, mo, d) + "T" + Triple(h, mi, sec) + "Z";
            ReadStamp(s) == Some(t) && '.' !in s && '/' !in s
  {
    var date, time := Triple(y, mo, d), Triple(h, mi, sec);
    TripleSplits(y, mo, d);
    TripleSplits(h, mi, sec);
    StampParts(date, time);
  }

  lemma StampParts(date: string, time: string)
    requires |date| == 8 && |time| == 6 && IsNumeric(date) && IsNumeric(time)
    ensures var s := date + "T" + time + "Z";
            && |s| == 16 && s[..8] == date && s[8] == 'T' && s[9..15] == time && s[15] == 'Z'
            && '.' !in s && '/' !in s
  {
    var s := date + "T" + time + "Z";
    assert s[..8] == date && s[9..15] == time;
    forall c | c in s
      ensures c != '.' && c != '/'
    {
      var i :| 0 <= i < |s| && s[i] == c;
      assert i < 8 ==> s[i] == date[i];
      assert 9 <= i < 15 ==> s[i] == time[i - 9];
    }
  }

  /** The compact form is the year, month and day, a T, the hour, minute and second, and a Z. */
  lemma StampFields(t: DateTime)
    requires IsInstant(t)
    ensures var s := WriteStamp(t);
            && |s| == 16 && s[8] == 'T' && s[15] == 'Z'
            && Number(s[..8][..4]) == t.year && Number(s[..8][4..6]) == t.month && Number(s[..8][6..8]) == t.day
            && Number(s[9..15][..2]) == t.hour && Number(s[9..15][2..4]) == t.minute
            && Number(s[9..15][4..6]) == t.second
  {
    StampReadsBack(t);
  }

  /** Digits are written most significant first. */
  lemma {:induction false} DigitsDescend(n: nat, width: nat)
    requires width > 0
    ensures Digits(n, width)[width - 1] == '0' + (n % 10) as char
    ensures Digits(n, width)[..width - 1] == Digits(n / 10, width - 1)
  {
  }

  /** Century years are leap years every fourth time only. */
  lemma LeapDays()
    ensures DaysIn(2024, 2) == 29 && DaysIn(2023, 2) == 28 && DaysIn(1900, 2) == 28 && DaysIn(2000, 2) == 29
    ensures forall year: nat :: DaysIn(year, 1) + DaysIn(year, 2) + DaysIn(year, 3) + DaysIn(year, 4)
              + DaysIn(year, 5) + DaysIn(year, 6) + DaysIn(year, 7) + DaysIn(year, 8) + DaysIn(year, 9)
              + DaysIn(year, 10) + DaysIn(year, 11) + DaysIn(year, 12) == 337 + DaysIn(year, 2)
  {
  }

  /** The first and last instants written, and the first values past each field. */
  lemma InstantBounds(year: nat, month: nat, day: nat)
    requires year < 10000 && 1 <= month <= 12 && 1 <= day <= 28
    ensures IsInstant(DateTime(year, month, day, 0, 0, 0)) && IsInstant(DateTime(year, month, day, 23, 59, 59))
    ensures IsInstant(DateTime(9999, 12, 31, 23, 59, 59)) && !IsInstant(DateTime(10000, 1, 1, 0, 0, 0))
    ensures !IsInstant(DateTime(year, 13, day, 0, 0, 0)) && !IsInstant(DateTime(year, month, 32, 0, 0, 0))
    ensures !IsInstant(DateTime(year, 0, day, 0, 0, 0)) && !IsInstant(DateTime(year, month, 0, 0, 0, 0))
    ensures !IsInstant(DateTime(year, month, day, 24, 0, 0)) && !IsInstant(DateTime(year, month, day, 0, 60, 0))
    ensures !IsInstant(DateTime(year, month, day, 0, 0, 60))
  {
  }

  lemma NeverIsNoStamp(s: string)
    requires ReadStamp(s).Some?
    ensures s != "never"
  {
    assert |s| == 16;
  }

  /** The compact form of whole-second instants is what the keys need. */
  lemma CompactIsLawful()
    ensures IsLawful(COMPACT)
  {
    forall t | IsInstant(t)
      ensures ReadStamp(WriteStamp(t)) == Some(t)
      ensures '.' !in WriteStamp(t) && '/' !in WriteStamp(t) && WriteStamp(t) != "never"
    {
      StampReadsBack(t);
      NeverIsNoStamp(WriteStamp(t));
    }
  }
}
