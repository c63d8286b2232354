/** The summary of a job every client denied: denials grouped by reason, the largest
    groups shown and the rest counted. How a reason is displayed is a parameter. */
module Denials {
  import opened Wrappers
  import opened Text
  import opened Sorting
  import ReasonKey

  const MAX_SHOWN_GROUPS: nat := 5
  const ELLIPSIS: char := '\U{2026}'

  datatype Record = Record(deniedAt: Option<int>, failureReason: Option<string>)

  datatype Denied = Denied(clientId: string, record: Option<Record>)

  datatype GroupKey = Reason(text: string) | Unreadable | NoReason

  datatype Group = Group(clients: seq<string>, latest: Option<(Option<int>, string)>)

  datatype Summary = Summary(
    clients: nat, reasons: nat, shown: seq<(GroupKey, Group)>, hiddenReasons: nat, hiddenClients: nat)

  /** How a reason is shown, and which characters are whitespace. */
  datatype Style = Style(display: string -> string, isSpace: char -> bool)

  // ---- Classifying one denial ----------------------------------------------

  /** The text after the first character that passes the test, if one does. */
  function AfterFirst(s: string, test: char -> bool): Option<string> {
    if s == "" then None else if test(s[0]) then Some(s[1..]) else AfterFirst(s[1..], test)
  }

  predicate IsNewline(c: char) {
    c == '\n'
  }

  /** A cut reason without the fragment its cut leaves: its first line, or first word. */
  function DropCutFragment(reason: string, style: Style): string {
    if reason == "" || reason[0] != ELLIPSIS then reason
    else
      var rest := reason[1..];
      var line, word := AfterFirst(rest, IsNewline), AfterFirst(rest, style.isSpace);
      if line.Some? then line.value else if word.Some? then word.value else rest
  }

  /** Wherever in its line a cut fell, what is kept starts on the next line. */
  lemma {:induction false} CutFragmentDropped(fragment: string, rest: string, style: Style)
    requires '\n' !in fragment
    ensures DropCutFragment([ELLIPSIS] + (fragment + ['\n'] + rest), style) == rest
  {
    AfterFirstNewline(fragment, rest);
    assert ([ELLIPSIS] + (fragment + ['\n'] + rest))[1..] == fragment + ['\n'] + rest;
  }

  lemma {:induction false} AfterFirstNewline(fragment: string, rest: string)
    requires '\n' !in fragment
    ensures AfterFirst(fragment + ['\n'] + rest, IsNewline) == Some(rest)
  {
    var s := fragment + ['\n'] + rest;
    if fragment == "" {
      assert s[1..] == rest;
    } else {
      assert s[1..] == fragment[1..] + ['\n'] + rest;
      AfterFirstNewline(fragment[1..], rest);
    }
  }

  function GroupKeyText(reason: string, shown: string, style: Style): string {
    var whole := style.display(DropCutFragment(reason, style));
    ReasonKey.KeyOf(if whole == "" then shown else whole)
  }

  function ReasonOf(d: Denied): string {
    if d.record.Some? && d.record.value.failureReason.Some? then d.record.value.failureReason.value else ""
  }

  function KeyOf(d: Denied, style: Style): GroupKey {
    if d.record.None? then Unreadable
    else
      var shown := style.display(ReasonOf(d));
      if shown == "" then NoReason else Reason(GroupKeyText(ReasonOf(d), shown, style))
  }

  lemma {:induction false} AfterFirstSplits(head: string, c: char, rest: string, test: char -> bool)
    requires test(c) && forall h <- head :: !test(h)
    ensures AfterFirst(head + [c] + rest, test) == Some(rest)
  {
    var s := head + [c] + rest;
    if head == "" {
      assert s[1..] == rest;
    } else {
      assert s[1..] == head[1..] + [c] + rest;
      AfterFirstSplits(head[1..], c, rest, test);
    }
  }

  lemma {:induction false} AfterFirstNone(s: string, test: char -> bool)
    requires forall c <- s :: !test(c)
    ensures AfterFirst(s, test).None?
  {
    if s != "" {
      AfterFirstNone(s[1..], test);
    }
  }

  /** Of a cut reason of one line, the first word is dropped; of one word, nothing is. */
  lemma {:induction false} CutWordDropped(word: string, space: char, rest: string, style: Style)
    requires '\n' !in word + [space] + rest && style.isSpace(space) && forall c <- word :: !style.isSpace(c)
    ensures DropCutFragment([ELLIPSIS] + (word + [space] + rest), style) == rest
    ensures DropCutFragment([ELLIPSIS] + word, style) == word
  {
    var s := word + [space] + rest;
    assert forall c <- word :: c in s;
    AfterFirstNone(s, IsNewline);
    AfterFirstSplits(word, space, rest, style.isSpace);
    AfterFirstNone(word, IsNewline);
    AfterFirstNone(word, style.isSpace);
    assert ([ELLIPSIS] + s)[1..] == s && ([ELLIPSIS] + word)[1..] == word;
  }

  /** What puts a denial in its group: an unreadable marker, a marker that shows no reason,
      or the key of the reason shown; of a reason that was not cut, that of all it shows. */
  lemma KeyMeans(d: Denied, style: Style)
    ensures KeyOf(d, style) == Unreadable <==> d.record == None
    ensures d.record.Some? ==>
              var reason := if d.record.value.failureReason.Some? then d.record.value.failureReason.value else "";
              && (KeyOf(d, style) == NoReason <==> style.display(reason) == "")
              && (style.display(reason) != "" && (reason == "" || reason[0] != '\U{2026}') ==>
                    KeyOf(d, style) == Reason(ReasonKey.KeyOf(style.display(reason))))
              && (style.display(reason) != "" && style.display(DropCutFragment(reason, style)) == "" ==>
                    KeyOf(d, style) == Reason(ReasonKey.KeyOf(style.display(reason))))
  {
  }

  /** A reason cut inside one line, before the rest of its log. */
  predicate IsCutCopy(d: Denied, fragment: string, rest: string) {
    '\n' !in fragment && ReasonOf(d) == [ELLIPSIS] + (fragment + ['\n'] + rest)
  }

  /** Two copies of one log, cut at different places of one line, are in one group,
      if the log shows anything after that line. */
  lemma CutCopiesShareGroup(a: Denied, b: Denied, fragmentA: string, fragmentB: string, rest: string, style: Style)
    requires IsCutCopy(a, fragmentA, rest) && IsCutCopy(b, fragmentB, rest)
    requires style.display(ReasonOf(a)) != "" && style.display(ReasonOf(b)) != "" && style.display(rest) != ""
    ensures KeyOf(a, style) == KeyOf(b, style) == Reason(ReasonKey.KeyOf(style.display(rest)))
  {
    CutFragmentDropped(fragmentA, rest, style);
    CutFragmentDropped(fragmentB, rest, style);
  }

  function ShownOf(d: Denied, style: Style): Option<string> {
    if KeyOf(d, style).Reason? then Some(style.display(ReasonOf(d))) else None
  }

  function TimeOf(d: Denied): Option<int> {
    if d.record.None? then None else d.record.value.deniedAt
  }

  /** No time sorts before every time. */
  predicate TimeLess(a: Option<int>, b: Option<int>) {
    b.Some? && (a.None? || a.value < b.value)
  }

  // ---- Groups --------------------------------------------------------------

  const EMPTY_GROUP: Group := Group([], None)

  function AddTo(g: Group, d: Denied, style: Style): Group {
    var shown := ShownOf(d, style);
    var isLatest := shown.Some? && (g.latest.None? || TimeLess(g.latest.value.0, TimeOf(d)));
    Group(g.clients + [d.clientId], if isLatest then Some((TimeOf(d), shown.value)) else g.latest)
  }

  function GroupOf(denials: seq<Denied>, key: GroupKey, style: Style): Group {
    if denials == [] then EMPTY_GROUP
    else
      var rest, last := denials[..|denials| - 1], denials[|denials| - 1];
      var g := GroupOf(rest, key, style);
      if KeyOf(last, style) == key then AddTo(g, last, style) else g
  }

  function KeysOf(denials: seq<Denied>, style: Style): set<GroupKey> {
    set d | d in denials :: KeyOf(d, style)
  }

  // ---- Orders --------------------------------------------------------------

  predicate ClientLe(a: Denied, b: Denied) {
    Le(a.clientId, b.clientId)
  }

  function KeyRank(k: GroupKey): nat {
    match k
    case Reason(_) => 0
    case Unreadable => 1
    case NoReason => 2
  }

  predicate KeyLe(a: GroupKey, b: GroupKey) {
    if a.Reason? && b.Reason? then Le(a.text, b.text) else KeyRank(a) <= KeyRank(b)
  }

  type Entry = (GroupKey, Group)

  function Size(e: Entry): nat {
    |e.1.clients|
  }

  /** Larger groups first, then by key. */
  predicate EntryLe(a: Entry, b: Entry) {
    Size(a) > Size(b) || (Size(a) == Size(b) && KeyLe(a.0, b.0))
  }

  lemma KeyLeLaws(a: GroupKey, b: GroupKey, c: GroupKey)
    ensures KeyLe(a, b) || KeyLe(b, a)
    ensures KeyLe(a, b) && KeyLe(b, c) ==> KeyLe(a, c)
    ensures KeyLe(a, b) && KeyLe(b, a) ==> a == b
  {
    if a.Reason? && b.Reason? {
      LeTotal(a.text, b.text);
      if Le(a.text, b.text) && Le(b.text, a.text) {
        LeAntisymmetric(a.text, b.text);
      }
      if c.Reason? && Le(a.text, b.text) && Le(b.text, c.text) {
        LeTransitive(a.text, b.text, c.text);
      }
    }
  }

  lemma EntryLeIsOrder()
    ensures IsOrder(EntryLe)
  {
    forall a: Entry, b: Entry
      ensures EntryLe(a, b) || EntryLe(b, a)
    {
      KeyLeLaws(a.0, b.0, b.0);
    }
    forall a: Entry, b: Entry, c: Entry | EntryLe(a, b) && EntryLe(b, c)
      ensures EntryLe(a, c)
    {
      KeyLeLaws(a.0, b.0, c.0);
    }
  }

  lemma ClientLeIsOrder()
    ensures IsOrder(ClientLe)
  {
    LeIsOrder();
  }

  // ---- The summary ---------------------------------------------------------

  /** The entries that show: every reasonless group, and the first reason groups. */
  function Shown(entries: seq<Entry>, seen: nat): seq<Entry> {
    if entries == [] then []
    else if !entries[0].0.Reason? then [entries[0]] + Shown(entries[1..], seen)
    else (if seen < MAX_SHOWN_GROUPS then [entries[0]] else []) + Shown(entries[1..], seen + 1)
  }

  function Hidden(entries: seq<Entry>, seen: nat): seq<Entry> {
    if entries == [] then []
    else if !entries[0].0.Reason? then Hidden(entries[1..], seen)
    else (if seen < MAX_SHOWN_GROUPS then [] else [entries[0]]) + Hidden(entries[1..], seen + 1)
  }

  function Reasons(entries: seq<Entry>): nat {
    if entries == [] then 0 else (if entries[0].0.Reason? then 1 else 0) + Reasons(entries[1..])
  }

  function Sizes(entries: seq<Entry>): nat {
    if entries == [] then 0 else Size(entries[0]) + Sizes(entries[1..])
  }

  function SummaryFrom(entries: seq<Entry>, clients: nat): Summary {
    Summary(clients, Reasons(entries), Shown(entries, 0), |Hidden(entries, 0)|, Sizes(Hidden(entries, 0)))
  }

  /** Each group of the denials, once, in summary order. */
  ghost predicate IsGrouping(entries: seq<Entry>, denials: seq<Denied>, style: Style) {
    && Sorted(entries, EntryLe)
    && (forall i, j :: 0 <= i < j < |entries| ==> entries[i].0 != entries[j].0)
    && (forall i :: 0 <= i < |entries| ==> entries[i].0 in KeysOf(denials, style))
    && (forall i :: 0 <= i < |entries| ==> entries[i].1 == GroupOf(denials, entries[i].0, style))
    && (forall key <- KeysOf(denials, style) :: HasEntry(entries, key))
  }

  predicate HasEntry(entries: seq<Entry>, key: GroupKey) {
    exists i :: 0 <= i < |entries| && entries[i].0 == key
  }

  /** The summary is that of the grouping of the denials in client order. */
  ghost predicate IsSummary(s: Summary, denials: seq<Denied>, style: Style) {
    exists entries :: IsGrouping(entries, Sort(denials, ClientLe), style) && s == SummaryFrom(entries, |denials|)
  }

  method SummarizeDenials(denials: seq<Denied>, style: Style) returns (s: Summary)
    ensures IsSummary(s, denials, style)
  {
    var sorted := Sort(denials, ClientLe);
    var groups := CollectGroups(sorted, style);
    var unordered := EntriesOf(groups);
    var entries := Sort(unordered, EntryLe);
    SortedGrouping(unordered, groups, sorted, style);
    var shown, hidden := SplitEntries(entries);
    s := Summary(|denials|, Reasons(entries), shown, |hidden|, Sizes(hidden));
  }

  method CollectGroups(denials: seq<Denied>, style: Style) returns (groups: map<GroupKey, Group>)
    ensures Groups(groups, denials, style)
  {
    groups := map[];
    for i := 0 to |denials|
      invariant Groups(groups, denials[..i], style)
    {
      var d := denials[i];
      assert denials[..i + 1] == denials[..i] + [d];
      GroupStep(groups, denials[..i], d, style);
      groups := AddToGroups(groups, d, style);
    }
    assert denials[..|denials|] == denials;
  }

  /** A denial's group, made when missing, takes it in. */
  function AddToGroups(groups: map<GroupKey, Group>, d: Denied, style: Style): map<GroupKey, Group> {
    var key := KeyOf(d, style);
    groups[key := AddTo(if key in groups then groups[key] else EMPTY_GROUP, d, style)]
  }

  /** The map holds the group of each key so far. */
  ghost predicate Groups(groups: map<GroupKey, Group>, denials: seq<Denied>, style: Style) {
    && groups.Keys == KeysOf(denials, style)
    && forall key <- groups :: groups[key] == GroupOf(denials, key, style)
  }

  lemma {:induction false} NoMembersNoGroup(denials: seq<Denied>, key: GroupKey, style: Style)
    requires key !in KeysOf(denials, style)
    ensures GroupOf(denials, key, style) == EMPTY_GROUP
  {
    if denials != [] {
      var rest := denials[..|denials| - 1];
      assert forall d <- rest :: d in denials;
      NoMembersNoGroup(rest, key, style);
    }
  }

  lemma {:induction false} GroupAppend(denials: seq<Denied>, d: Denied, key: GroupKey, style: Style)
    ensures var g := GroupOf(denials, key, style);
            GroupOf(denials + [d], key, style) == if KeyOf(d, style) == key then AddTo(g, d, style) else g
  {
    assert (denials + [d])[..|denials|] == denials;
  }

  lemma KeysAppend(denials: seq<Denied>, d: Denied, style: Style)
    ensures KeysOf(denials + [d], style) == KeysOf(denials, style) + {KeyOf(d, style)}
  {
  }

  lemma GroupStep(groups: map<GroupKey, Group>, denials: seq<Denied>, d: Denied, style: Style)
    requires Groups(groups, denials, style)
    ensures Groups(AddToGroups(groups, d, style), denials + [d], style)
  {
    var key := KeyOf(d, style);
    KeysAppend(denials, d, style);
    if key !in groups {
      NoMembersNoGroup(denials, key, style);
    }
    GroupAppend(denials, d, key, style);
    forall k | k in groups && k != key
      ensures GroupOf(denials + [d], k, style) == groups[k]
    {
      GroupAppend(denials, d, k, style);
    }
  }

  method EntriesOf(groups: map<GroupKey, Group>) returns (entries: seq<Entry>)
    ensures ListsMap(entries, groups, groups.Keys)
  {
    entries := [];
    var rest := groups.Keys;
    while rest != {}
      invariant rest <= groups.Keys
      invariant ListsMap(entries, groups, groups.Keys - rest)
      decreases rest
    {
      var key :| key in rest;
      EntriesStep(entries, groups, groups.Keys - rest, key);
      assert groups.Keys - (rest - {key}) == (groups.Keys - rest) + {key};
      entries, rest := entries + [(key, groups[key])], rest - {key};
    }
    assert groups.Keys - rest == groups.Keys;
  }

  /** One entry per key of the set, holding the key's group. */
  ghost predicate ListsMap(entries: seq<Entry>, groups: map<GroupKey, Group>, keys: set<GroupKey>)
    requires keys <= groups.Keys
  {
    && (forall i, j :: 0 <= i < j < |entries| ==> entries[i].0 != entries[j].0)
    && (forall i :: 0 <= i < |entries| ==> entries[i].0 in keys && entries[i].1 == groups[entries[i].0])
    && (forall key <- keys :: (key, groups[key]) in entries)
  }

  lemma EntriesStep(entries: seq<Entry>, groups: map<GroupKey, Group>, keys: set<GroupKey>, key: GroupKey)
    requires keys <= groups.Keys && key in groups && key !in keys && ListsMap(entries, groups, keys)
    ensures ListsMap(entries + [(key, groups[key])], groups, keys + {key})
  {
    var next := entries + [(key, groups[key])];
    forall k | k in keys + {key}
      ensures (k, groups[k]) in next
    {
      if k == key {
        assert next[|entries|] == (k, groups[k]);
      }
    }
  }

  lemma {:induction false} SortedGrouping(
    unordered: seq<Entry>, groups: map<GroupKey, Group>, denials: seq<Denied>, style: Style)
    requires Groups(groups, denials, style) && ListsMap(unordered, groups, groups.Keys)
    ensures IsGrouping(Sort(unordered, EntryLe), denials, style)
  {
    var entries := Sort(unordered, EntryLe);
    EntryLeIsOrder();
    SortSorts(unordered, EntryLe);
    SortPermutes(unordered, EntryLe);
    SortDistinct(unordered, EntryLe);
    forall e
      ensures e in entries <==> e in unordered
    {
      assert e in multiset(entries) <==> e in multiset(unordered);
    }
    forall i | 0 <= i < |entries|
      ensures entries[i].0 in groups && entries[i].1 == groups[entries[i].0]
    {
      assert entries[i] in unordered;
    }
    forall key | key in groups
      ensures HasEntry(entries, key)
    {
      assert (key, groups[key]) in entries;
    }
  }

  /** The one pass that counts the reason groups it meets. */
  method SplitEntries(entries: seq<Entry>) returns (shown: seq<Entry>, hidden: seq<Entry>)
    ensures shown == Shown(entries, 0) && hidden == Hidden(entries, 0)
  {
    shown, hidden := [], [];
    var seen := 0;
    for i := 0 to |entries|
      invariant Shown(entries, 0) == shown + Shown(entries[i..], seen)
      invariant Hidden(entries, 0) == hidden + Hidden(entries[i..], seen)
    {
      assert entries[i..][1..] == entries[i + 1..];
      var keep := true;
      if entries[i].0.Reason? {
        seen := seen + 1;
        keep := seen <= MAX_SHOWN_GROUPS;
      }
      if keep {
        shown := shown + [entries[i]];
      } else {
        hidden := hidden + [entries[i]];
      }
    }
  }

  // ---- Every client is accounted for ---------------------------------------

  function SumOver(keys: seq<GroupKey>, denials: seq<Denied>, style: Style): nat {
    if keys == [] then 0 else |GroupOf(denials, keys[0], style).clients| + SumOver(keys[1..], denials, style)
  }

  lemma {:induction false} OneMoreDenial(keys: seq<GroupKey>, denials: seq<Denied>, d: Denied, style: Style)
    requires forall i, j :: 0 <= i < j < |keys| ==> keys[i] != keys[j]
    ensures SumOver(keys, denials + [d], style)
         == SumOver(keys, denials, style) + (if KeyOf(d, style) in keys then 1 else 0)
  {
    if keys != [] {
      OneMoreDenial(keys[1..], denials, d, style);
      assert (denials + [d])[..|denials|] == denials;
      assert keys == [keys[0]] + keys[1..];
    }
  }

  lemma {:induction false} GroupsPartition(keys: seq<GroupKey>, denials: seq<Denied>, style: Style)
    requires forall i, j :: 0 <= i < j < |keys| ==> keys[i] != keys[j]
    requires forall key <- KeysOf(denials, style) :: key in keys
    ensures SumOver(keys, denials, style) == |denials|
    decreases |denials|
  {
    if denials == [] {
      EmptySum(keys, style);
    } else {
      var rest, last := denials[..|denials| - 1], denials[|denials| - 1];
      assert denials == rest + [last];
      assert KeysOf(rest, style) <= KeysOf(denials, style);
      assert KeyOf(last, style) in KeysOf(denials, style);
      GroupsPartition(keys, rest, style);
      OneMoreDenial(keys, rest, last, style);
    }
  }

  lemma {:induction false} EmptySum(keys: seq<GroupKey>, style: Style)
    ensures SumOver(keys, [], style) == 0
  {
    if keys != [] {
      EmptySum(keys[1..], style);
    }
  }

  function EntryKeys(entries: seq<Entry>): seq<GroupKey> {
    seq(|entries|, i requires 0 <= i < |entries| => entries[i].0)
  }

  lemma {:induction false} SizesAreSums(entries: seq<Entry>, denials: seq<Denied>, style: Style)
    requires forall i :: 0 <= i < |entries| ==> entries[i].1 == GroupOf(denials, entries[i].0, style)
    ensures Sizes(entries) == SumOver(EntryKeys(entries), denials, style)
  {
    if entries != [] {
      SizesAreSums(entries[1..], denials, style);
      assert EntryKeys(entries)[1..] == EntryKeys(entries[1..]);
    }
  }

  lemma {:induction false} SplitConserves(entries: seq<Entry>, seen: nat)
    ensures Sizes(Shown(entries, seen)) + Sizes(Hidden(entries, seen)) == Sizes(entries)
    ensures Reasons(Shown(entries, seen)) + |Hidden(entries, seen)| == Reasons(entries)
    ensures seen <= MAX_SHOWN_GROUPS ==>
              Reasons(Shown(entries, seen)) == Min(MAX_SHOWN_GROUPS - seen, Reasons(entries))
    ensures seen >= MAX_SHOWN_GROUPS ==> Reasons(Shown(entries, seen)) == 0
  {
    if entries != [] {
      var next := if entries[0].0.Reason? then seen + 1 else seen;
      SplitConserves(entries[1..], next);
      Prepended(entries[0], Shown(entries[1..], next));
      Prepended(entries[0], Hidden(entries[1..], next));
    }
  }

  lemma {:induction false} Prepended(e: Entry, rest: seq<Entry>)
    ensures Sizes([e] + rest) == Size(e) + Sizes(rest)
    ensures Reasons([e] + rest) == (if e.0.Reason? then 1 else 0) + Reasons(rest)
    ensures [] + rest == rest
  {
    assert ([e] + rest)[1..] == rest;
  }

  function Min(a: int, b: int): int {
    if a < b then a else b
  }

  lemma {:induction false} GroupingCoversEveryone(entries: seq<Entry>, denials: seq<Denied>, style: Style)
    requires IsGrouping(entries, denials, style)
    ensures Sizes(entries) == |denials|
  {
    var keys := EntryKeys(entries);
    forall key | key in KeysOf(denials, style)
      ensures key in keys
    {
      var i :| 0 <= i < |entries| && entries[i].0 == key;
      assert keys[i] == key;
    }
    SizesAreSums(entries, denials, style);
    GroupsPartition(keys, denials, style);
  }

  /** Shown and hidden groups together count every client once, and five reason
      groups show, or all of them if there are fewer. */
  lemma SummaryConserves(s: Summary, denials: seq<Denied>, style: Style)
    requires IsSummary(s, denials, style)
    ensures s.clients == |denials|
    ensures Sizes(s.shown) + s.hiddenClients == |denials|
    ensures Reasons(s.shown) + s.hiddenReasons == s.reasons
    ensures Reasons(s.shown) == Min(5, s.reasons)
  {
    var sorted := Sort(denials, ClientLe);
    var entries: seq<Entry> :| IsGrouping(entries, sorted, style) && s == SummaryFrom(entries, |denials|);
    GroupingCoversEveryone(entries, sorted, style);
    SplitConserves(entries, 0);
    SortPermutes(denials, ClientLe);
  }

  // ---- What shows ----------------------------------------------------------

  lemma {:induction false} ShownMembers(entries: seq<Entry>, seen: nat)
    ensures forall e <- Shown(entries, seen) :: e in entries
    ensures forall e <- Hidden(entries, seen) :: e in entries && e.0.Reason?
    ensures forall e <- entries :: e in Shown(entries, seen) || e in Hidden(entries, seen)
    ensures seen >= MAX_SHOWN_GROUPS ==> forall e <- Shown(entries, seen) :: !e.0.Reason?
  {
    if entries != [] {
      ShownMembers(entries[1..], seen);
      ShownMembers(entries[1..], seen + 1);
      assert entries == [entries[0]] + entries[1..];
    }
  }

  lemma {:induction false} HiddenAreSmaller(entries: seq<Entry>, seen: nat, big: Entry, small: Entry)
    requires Sorted(entries, EntryLe)
    requires big in Shown(entries, seen) && big.0.Reason? && small in Hidden(entries, seen)
    ensures Size(big) >= Size(small)
  {
    var rest, next := entries[1..], if entries[0].0.Reason? then seen + 1 else seen;
    ShownMembers(entries, seen);
    ShownMembers(rest, next);
    if big in Shown(rest, next) && small in Hidden(rest, next) {
      HiddenAreSmaller(rest, next, big, small);
    } else {
      assert big == entries[0];
      var i :| 0 <= i < |entries| && entries[i] == small;
      assert i == 0 || EntryLe(entries[0], entries[i]);
    }
  }

  lemma {:induction false} GroupingShows(entries: seq<Entry>, denials: seq<Denied>, style: Style, key: GroupKey)
    requires IsGrouping(entries, denials, style) && key in KeysOf(denials, style)
    ensures !key.Reason? ==> HasEntry(Shown(entries, 0), key)
    ensures forall e <- Shown(entries, 0) :: e.1 == GroupOf(denials, e.0, style)
    ensures !HasEntry(Shown(entries, 0), key) ==>
              forall e <- Shown(entries, 0) | e.0.Reason? :: Size(e) >= |GroupOf(denials, key, style).clients|
  {
    var i :| 0 <= i < |entries| && entries[i].0 == key;
    var mine := entries[i];
    ShownMembers(entries, 0);
    if mine !in Shown(entries, 0) {
      forall e | e in Shown(entries, 0) && e.0.Reason?
        ensures Size(e) >= Size(mine)
      {
        HiddenAreSmaller(entries, 0, e, mine);
      }
    }
  }

  /** Both reasonless groups show whenever they have members, with all of them; and
      no hidden group is larger than a shown reason group. */
  lemma {:induction false} SummaryShows(s: Summary, denials: seq<Denied>, style: Style, d: Denied)
    requires IsSummary(s, denials, style) && d in denials
    ensures !KeyOf(d, style).Reason? ==> HasEntry(s.shown, KeyOf(d, style))
    ensures forall e <- s.shown :: e.1 == GroupOf(Sort(denials, ClientLe), e.0, style)
    ensures !HasEntry(s.shown, KeyOf(d, style)) ==>
              forall e <- s.shown | e.0.Reason? ::
                Size(e) >= |GroupOf(Sort(denials, ClientLe), KeyOf(d, style), style).clients|
  {
    var sorted := Sort(denials, ClientLe);
    var entries: seq<Entry> :| IsGrouping(entries, sorted, style) && s == SummaryFrom(entries, |denials|);
    SortPermutes(denials, ClientLe);
    assert d in sorted;
    GroupingShows(entries, sorted, style, KeyOf(d, style));
  }

  // ---- What a group holds --------------------------------------------------

  function MemberIds(denials: seq<Denied>, key: GroupKey, style: Style): seq<string> {
    if denials == [] then []
    else
      var rest, last := denials[..|denials| - 1], denials[|denials| - 1];
      MemberIds(rest, key, style) + (if KeyOf(last, style) == key then [last.clientId] else [])
  }

  /** The denial whose reason a group shows: the latest, the earliest listed of those. */
  predicate IsLatestMember(denials: seq<Denied>, i: int, key: GroupKey, style: Style) {
    && 0 <= i < |denials| && KeyOf(denials[i], style) == key
    && (forall j :: 0 <= j < |denials| && KeyOf(denials[j], style) == key ==>
          !TimeLess(TimeOf(denials[i]), TimeOf(denials[j])))
    && (forall j :: 0 <= j < i && KeyOf(denials[j], style) == key ==>
          TimeLess(TimeOf(denials[j]), TimeOf(denials[i])))
  }

  /** The denial whose time and reason a group shows. */
  ghost predicate ShowsMember(denials: seq<Denied>, i: int, key: GroupKey, style: Style) {
    && IsLatestMember(denials, i, key, style)
    && GroupOf(denials, key, style).latest == Some((TimeOf(denials[i]), style.display(ReasonOf(denials[i]))))
  }

  lemma {:induction false} GroupListsMembers(denials: seq<Denied>, key: GroupKey, style: Style)
    ensures GroupOf(denials, key, style).clients == MemberIds(denials, key, style)
  {
    if denials != [] {
      GroupListsMembers(denials[..|denials| - 1], key, style);
    }
  }

  lemma {:induction false} GroupShowsLatest(denials: seq<Denied>, key: GroupKey, style: Style) returns (i: int)
    requires key in KeysOf(denials, style) && key.Reason?
    ensures ShowsMember(denials, i, key, style)
    decreases |denials|
  {
    var rest, last := denials[..|denials| - 1], denials[|denials| - 1];
    assert denials == rest + [last];
    GroupAppend(rest, last, key, style);
    if key in KeysOf(rest, style) {
      i := GroupShowsLatest(rest, key, style);
      i := LatestAppend(rest, last, i, key, style);
    } else {
      NoMembersNoGroup(rest, key, style);
      assert forall d <- rest :: KeyOf(d, style) != key;
      assert KeyOf(last, style) == key;
      i := |rest|;
    }
  }

  lemma LatestAppend(rest: seq<Denied>, last: Denied, i: int, key: GroupKey, style: Style) returns (k: int)
    requires ShowsMember(rest, i, key, style) && key.Reason?
    ensures ShowsMember(rest + [last], k, key, style)
  {
    GroupAppend(rest, last, key, style);
    k := if KeyOf(last, style) == key && TimeLess(TimeOf(rest[i]), TimeOf(last)) then |rest| else i;
  }

  /** In client order, the latest member has the smallest id among the latest. */
  lemma LatestMemberInOrder(sorted: seq<Denied>, i: int, key: GroupKey, style: Style, other: Denied)
    requires Sorted(sorted, ClientLe) && IsLatestMember(sorted, i, key, style)
    requires other in sorted && KeyOf(other, style) == key
    ensures !TimeLess(TimeOf(sorted[i]), TimeOf(other))
    ensures TimeOf(other) == TimeOf(sorted[i]) ==> Le(sorted[i].clientId, other.clientId)
  {
    var j :| 0 <= j < |sorted| && sorted[j] == other;
    LeReflexive(other.clientId);
    if i < j {
      assert ClientLe(sorted[i], sorted[j]);
    }
  }

  lemma {:induction false} ShownEntryIsGroup(s: Summary, denials: seq<Denied>, style: Style, e: Entry)
    requires IsSummary(s, denials, style) && e in s.shown
    ensures e.0 in KeysOf(Sort(denials, ClientLe), style) && e.1 == GroupOf(Sort(denials, ClientLe), e.0, style)
  {
    var sorted := Sort(denials, ClientLe);
    var entries: seq<Entry> :| IsGrouping(entries, sorted, style) && s == SummaryFrom(entries, |denials|);
    ShownMembers(entries, 0);
    var i :| 0 <= i < |entries| && entries[i] == e;
  }

  lemma {:induction false} ShownSorted(entries: seq<Entry>, seen: nat)
    requires Sorted(entries, EntryLe)
    ensures Sorted(Shown(entries, seen), EntryLe)
  {
    if entries != [] {
      var next := if entries[0].0.Reason? then seen + 1 else seen;
      var rest := Shown(entries[1..], next);
      ShownSorted(entries[1..], next);
      ShownMembers(entries[1..], next);
      forall e | e in rest
        ensures EntryLe(entries[0], e)
      {
        var j :| 1 <= j < |entries| && entries[j] == e;
      }
      SortedPrepend(entries[0], rest);
      assert [] + rest == rest;
    }
  }

  lemma SortedPrepend(first: Entry, rest: seq<Entry>)
    requires Sorted(rest, EntryLe) && forall e <- rest :: EntryLe(first, e)
    ensures Sorted([first] + rest, EntryLe)
  {
    var s := [first] + rest;
    forall i, j | 0 <= i < j < |s|
      ensures EntryLe(s[i], s[j])
    {
      assert s[j] == rest[j - 1] && rest[j - 1] in rest;
      assert i > 0 ==> s[i] == rest[i - 1];
    }
  }

  /** Reasons come first, in the order of their keys, then unreadable markers, then
      markers without a reason. */
  predicate ComesFirst(a: GroupKey, b: GroupKey) {
    match (a, b)
    case (Reason(s), Reason(t)) => Le(s, t)
    case (Reason(_), _) => true
    case (Unreadable, _) => !b.Reason?
    case (NoReason, _) => b.NoReason?
  }

  /** Groups show largest first, and groups of one size in the order of their keys. */
  lemma SummaryIsOrdered(s: Summary, denials: seq<Denied>, style: Style, i: nat, j: nat)
    requires IsSummary(s, denials, style) && i < j < |s.shown|
    ensures |s.shown[i].1.clients| >= |s.shown[j].1.clients|
    ensures |s.shown[i].1.clients| == |s.shown[j].1.clients| ==> ComesFirst(s.shown[i].0, s.shown[j].0)
  {
    var entries: seq<Entry> :|
      IsGrouping(entries, Sort(denials, ClientLe), style) && s == SummaryFrom(entries, |denials|);
    ShownSorted(entries, 0);
    assert EntryLe(s.shown[i], s.shown[j]);
  }

  /** A shown reason group shows the reason of its latest member, of the smallest
      client id among the latest. */
  lemma SummaryShowsLatest(s: Summary, denials: seq<Denied>, style: Style, e: Entry) returns (d: Denied)
    requires IsSummary(s, denials, style) && e in s.shown && e.0.Reason?
    ensures d in denials && KeyOf(d, style) == e.0
    ensures e.1.latest == Some((TimeOf(d), style.display(ReasonOf(d))))
    ensures d.record.Some? && e.1.latest.value.0 == d.record.value.deniedAt
    ensures forall other <- denials | KeyOf(other, style) == e.0 ::
              && other.record.Some?
              && var at, latest := other.record.value.deniedAt, d.record.value.deniedAt;
                 && (at.Some? ==> latest.Some? && at.value <= latest.value)
                 && (at == latest ==> Le(d.clientId, other.clientId))
  {
    var sorted := Sort(denials, ClientLe);
    ShownEntryIsGroup(s, denials, style, e);
    ClientLeIsOrder();
    SortSorts(denials, ClientLe);
    SortPermutes(denials, ClientLe);
    var i := GroupShowsLatest(sorted, e.0, style);
    d := sorted[i];
    assert d in sorted;
    forall other | other in denials && KeyOf(other, style) == e.0
      ensures other.record.Some?
      ensures !TimeLess(TimeOf(d), TimeOf(other)) && (TimeOf(other) == TimeOf(d) ==> Le(d.clientId, other.clientId))
    {
      LatestMemberInOrder(sorted, i, e.0, style, other);
    }
  }

  // ---- Order independence --------------------------------------------------

  lemma GroupingIsUnique(a: seq<Entry>, b: seq<Entry>, denials: seq<Denied>, style: Style)
    requires IsGrouping(a, denials, style) && IsGrouping(b, denials, style)
    ensures a == b
  {
    forall e
      ensures e in a <==> e in b
    {
      SameEntries(a, b, denials, style, e);
      SameEntries(b, a, denials, style, e);
    }
    SameMembersSameCounts(a, b);
    forall x, y | x in a && y in a && EntryLe(x, y) && EntryLe(y, x)
      ensures x == y
    {
      KeyLeLaws(x.0, y.0, y.0);
    }
    EntryLeIsOrder();
    SortedIsUnique(a, b, EntryLe);
  }

  lemma SameEntries(a: seq<Entry>, b: seq<Entry>, denials: seq<Denied>, style: Style, e: Entry)
    requires IsGrouping(a, denials, style) && IsGrouping(b, denials, style)
    ensures e in a ==> e in b
  {
    if e in a {
      var i :| 0 <= i < |a| && a[i] == e;
      var j :| 0 <= j < |b| && b[j].0 == e.0;
      assert b[j] == e;
    }
  }

  predicate DistinctClients(denials: seq<Denied>) {
    forall i, j :: 0 <= i < j < |denials| ==> denials[i].clientId != denials[j].clientId
  }

  /** Denials of distinct clients have one summary, whatever their order. */
  lemma SummaryForgetsOrder(a: seq<Denied>, b: seq<Denied>, s: Summary, t: Summary, style: Style)
    requires IsSummary(s, a, style) && IsSummary(t, b, style)
    requires multiset(a) == multiset(b) && DistinctClients(a)
    ensures s == t
  {
    forall x, y | x in a && y in a && ClientLe(x, y) && ClientLe(y, x)
      ensures x == y
    {
      LeAntisymmetric(x.clientId, y.clientId);
    }
    ClientLeIsOrder();
    SortForgetsOrder(a, b, ClientLe);
    assert |a| == |multiset(a)| == |multiset(b)| == |b|;
    var ea :| IsGrouping(ea, Sort(a, ClientLe), style) && s == SummaryFrom(ea, |a|);
    var eb :| IsGrouping(eb, Sort(b, ClientLe), style) && t == SummaryFrom(eb, |b|);
    GroupingIsUnique(ea, eb, Sort(a, ClientLe), style);
  }
}
