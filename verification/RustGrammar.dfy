/** The tokens as Rust's grammar writes them, and the scanner's agreement with it:
    each one, wherever it stands, is taken whole and no further. */
module RustGrammar {
  import opened Wrappers
  import opened RustLexer

  /** The text stands in the source from this position. */
  predicate Holds(s: string, i: nat, text: string) {
    i + |text| <= |s| && forall k :: 0 <= k < |text| ==> s[i + k] == text[k]
  }

  lemma HoldsBoth(s: string, i: nat, a: string, b: string)
    requires Holds(s, i, a + b)
    ensures Holds(s, i, a) && Holds(s, i + |a|, b)
  {
    forall k | 0 <= k < |a|
      ensures s[i + k] == a[k]
    {
      assert (a + b)[k] == a[k];
    }
    forall k | 0 <= k < |b|
      ensures s[i + |a| + k] == b[k]
    {
      assert (a + b)[|a| + k] == b[k];
    }
  }

  lemma HoldsAt(s: string, i: nat, text: string, k: nat)
    requires Holds(s, i, text) && k < |text|
    ensures s[i + k] == text[k]
  {
  }

  // ---- Block comments ------------------------------------------------------

  const OPEN: string := ['/', '*']
  const CLOSE: string := ['*', '/']

  /** What a block comment holds: characters, and block comments. */
  datatype Item = Plain(c: char) | Nested(items: seq<Item>)

  function RenderItem(item: Item): string
    decreases item
  {
    match item
    case Plain(c) => [c]
    case Nested(items) => RenderBlock(items)
  }

  function RenderItems(items: seq<Item>): string
    decreases items, 0
  {
    if items == [] then "" else RenderItem(items[0]) + RenderItems(items[1..])
  }

  function RenderBlock(items: seq<Item>): string
    decreases items, 1
  {
    OPEN + (RenderItems(items) + CLOSE)
  }

  predicate Marks(a: char, b: char) {
    (a == '/' && b == '*') || (a == '*' && b == '/')
  }

  /** No plain character makes an opening or a closing mark with what follows it. */
  predicate IsProper(items: seq<Item>, after: string)
    decreases items
  {
    if items == [] then true
    else
      && (match items[0]
          case Plain(c) =>
            var rest := RenderItems(items[1..]) + after;
            rest != "" && !Marks(c, rest[0])
          case Nested(inner) => IsProper(inner, CLOSE))
      && IsProper(items[1..], after)
  }

  lemma PairHeld(s: string, i: nat, text: string)
    requires |text| == 2 && Holds(s, i, text)
    ensures Pair(s, i, text[0], text[1])
  {
    HoldsAt(s, i, text, 0);
    HoldsAt(s, i, text, 1);
  }

  lemma ScanCrossesPlain(s: string, i: nat, c: char, rest: string, depth: nat)
    requires depth > 0 && Holds(s, i, [c] + rest) && rest != "" && !Marks(c, rest[0])
    ensures BlockEnd(s, i, depth) == BlockEnd(s, i + 1, depth)
  {
    HoldsAt(s, i, [c] + rest, 0);
    HoldsAt(s, i, [c] + rest, 1);
  }

  /** The scan crosses a comment's contents at the depth it entered them. */
  lemma {:induction false} ScanCrossesItems(s: string, i: nat, items: seq<Item>, after: string, depth: nat)
    requires depth > 0 && Holds(s, i, RenderItems(items) + after) && IsProper(items, after)
    ensures BlockEnd(s, i, depth) == BlockEnd(s, i + |RenderItems(items)|, depth)
    decreases items, 0
  {
    if items != [] {
      var first, others := items[0], items[1..];
      var rest := RenderItems(others) + after;
      ItemsSplit(items, after);
      ScanCrossesItem(s, i, first, rest, depth);
      HoldsBoth(s, i, RenderItem(first), rest);
      ScanCrossesItems(s, i + |RenderItem(first)|, others, after, depth);
    }
  }

  lemma {:induction false} ItemsSplit(items: seq<Item>, after: string)
    requires items != []
    ensures RenderItems(items) + after == RenderItem(items[0]) + (RenderItems(items[1..]) + after)
    ensures |RenderItems(items)| == |RenderItem(items[0])| + |RenderItems(items[1..])|
  {
  }

  lemma {:induction false} ScanCrossesItem(s: string, i: nat, item: Item, rest: string, depth: nat)
    requires depth > 0 && Holds(s, i, RenderItem(item) + rest)
    requires item.Plain? ==> rest != "" && !Marks(item.c, rest[0])
    requires item.Nested? ==> IsProper(item.items, CLOSE)
    ensures BlockEnd(s, i, depth) == BlockEnd(s, i + |RenderItem(item)|, depth)
    decreases item
  {
    match item
    case Plain(c) =>
      ScanCrossesPlain(s, i, c, rest, depth);
    case Nested(inner) =>
      HoldsBoth(s, i, RenderItem(item), rest);
      ScanCrossesBlock(s, i, inner, depth);
  }

  lemma {:induction false} ScanCrossesBlock(s: string, i: nat, inner: seq<Item>, depth: nat)
    requires Holds(s, i, RenderBlock(inner)) && IsProper(inner, CLOSE)
    ensures Pair(s, i, '/', '*') && i + 2 <= |s|
    ensures BlockEnd(s, i + 2, depth + 1) == BlockEnd(s, i + |RenderBlock(inner)|, depth)
    decreases inner, 1
  {
    var body := RenderItems(inner);
    HoldsBoth(s, i, OPEN, body + CLOSE);
    PairHeld(s, i, OPEN);
    ScanCrossesItems(s, i + 2, inner, CLOSE, depth + 1);
    HoldsBoth(s, i + 2, body, CLOSE);
    ScanCloses(s, i + 2 + |body|, depth);
  }

  lemma ScanCloses(s: string, i: nat, depth: nat)
    requires Holds(s, i, CLOSE)
    ensures BlockEnd(s, i, depth + 1) == BlockEnd(s, i + 2, depth)
  {
    PairHeld(s, i, CLOSE);
  }

  /** A block comment, nested to any depth, is one token. */
  lemma {:induction false} BlockCommentIsOneToken(s: string, i: nat, items: seq<Item>, alnum: Alnum)
    requires Holds(s, i, RenderBlock(items)) && IsProper(items, CLOSE)
    ensures TokenEnd(s, i, alnum) == Some(i + |RenderBlock(items)|)
  {
    ScanCrossesBlock(s, i, items, 0);
  }

  // ---- String literals -----------------------------------------------------

  datatype StringItem = Chr(c: char) | Escape(c: char)

  predicate IsStringItem(item: StringItem) {
    item.Chr? ==> item.c != '"' && item.c != '\\'
  }

  function RenderString(items: seq<StringItem>): string {
    if items == [] then ['"']
    else RenderStringItem(items[0]) + RenderString(items[1..])
  }

  function RenderStringItem(item: StringItem): string {
    if item.Chr? then [item.c] else ['\\', item.c]
  }

  lemma {:induction false} StringBodyEnds(s: string, i: nat, items: seq<StringItem>)
    requires Holds(s, i, RenderString(items)) && forall k :: 0 <= k < |items| ==> IsStringItem(items[k])
    ensures StringEnd(s, i) == i + |RenderString(items)|
    decreases |items|
  {
    if items == [] {
      HoldsAt(s, i, ['"'], 0);
    } else {
      var head := RenderStringItem(items[0]);
      HoldsBoth(s, i, head, RenderString(items[1..]));
      HoldsAt(s, i, head, 0);
      assert IsStringItem(items[0]);
      StringBodyEnds(s, i + |head|, items[1..]);
    }
  }

  /** A string literal, escaped quotes and all, is one token. */
  lemma {:induction false} StringIsOneToken(s: string, i: nat, items: seq<StringItem>, alnum: Alnum)
    requires Holds(s, i, ['"'] + RenderString(items)) && forall k :: 0 <= k < |items| ==> IsStringItem(items[k])
    ensures TokenEnd(s, i, alnum) == Some(i + |['"'] + RenderString(items)|)
  {
    HoldsBoth(s, i, ['"'], RenderString(items));
    HoldsAt(s, i, ['"'], 0);
    StringBodyEnds(s, i + 1, items);
  }

  // ---- Raw strings ---------------------------------------------------------

  function Hashes(n: nat): string {
    seq(n, _ => '#')
  }

  /** The body does not close itself: no quote in it has that many hashes after it. */
  predicate IsRawBody(body: string, n: nat) {
    forall k :: 0 <= k < |body| && body[k] == '"' ==> !HashesAt(RawRest(body, n), k + 1, n)
  }

  lemma {:induction false} RawBodyEnds(s: string, i: nat, body: string, n: nat, k: nat)
    requires Holds(s, i, RawRest(body, n)) && IsRawBody(body, n) && k <= |body|
    ensures i + k <= |s| && RawEnd(s, i + k, n) == i + |RawRest(body, n)|
    decreases |body| - k
  {
    var text := RawRest(body, n);
    HoldsAt(s, i, text, k);
    if k == |body| {
      forall m | i + k + 1 <= m < i + k + 1 + n
        ensures s[m] == '#'
      {
        HoldsAt(s, i, text, m - i);
      }
    } else {
      if s[i + k] == '"' && HashesAt(s, i + k + 1, n) {
        assert k + 1 + n <= |text|;
        forall m | k + 1 <= m < k + 1 + n
          ensures text[m] == '#'
        {
          HoldsAt(s, i, text, m);
        }
        assert false;
      }
      RawBodyEnds(s, i, body, n, k + 1);
    }
  }

  function RawLead(isByte: bool): string {
    if isByte then ['b', 'r'] else ['r']
  }

  function RawPrefix(isByte: bool, n: nat): string {
    RawLead(isByte) + (Hashes(n) + ['"'])
  }

  function RawRest(body: string, n: nat): string {
    body + (['"'] + Hashes(n))
  }

  /** A raw string, with or without its byte prefix, is one token, whatever quotes its
      hashes let it hold. */
  lemma RawStringIsOneToken(s: string, i: nat, isByte: bool, n: nat, body: string, alnum: Alnum)
    requires Holds(s, i, RawPrefix(isByte, n) + RawRest(body, n))
    requires IsRawBody(body, n) && PrefixOk(s, i, alnum)
    ensures TokenEnd(s, i, alnum) == Some(i + |RawPrefix(isByte, n) + RawRest(body, n)|)
  {
    HoldsBoth(s, i, RawPrefix(isByte, n), RawRest(body, n));
    RawOpens(s, i, isByte, n);
    RawCloses(s, i + |RawPrefix(isByte, n)|, body, n);
    RawIsTaken(s, i, n, i + |RawPrefix(isByte, n)|, i + |RawPrefix(isByte, n)| + |RawRest(body, n)|, alnum);
  }

  lemma {:induction false} RawCloses(s: string, start: nat, body: string, n: nat)
    requires Holds(s, start, RawRest(body, n)) && IsRawBody(body, n)
    ensures start <= |s| && RawEnd(s, start, n) == start + |RawRest(body, n)|
  {
    RawBodyEnds(s, start, body, n, 0);
  }

  lemma {:induction false} RawIsTaken(s: string, i: nat, n: nat, start: nat, end: nat, alnum: Alnum)
    requires i < |s| && (s[i] == 'b' || s[i] == 'r') && PrefixOk(s, i, alnum)
    requires RawOpen(s, i) == Some((n, start)) && RawEnd(s, start, n) == end
    ensures TokenEnd(s, i, alnum) == Some(end)
  {
  }

  lemma RawOpens(s: string, i: nat, isByte: bool, n: nat)
    requires Holds(s, i, RawPrefix(isByte, n))
    ensures RawOpen(s, i) == Some((n, i + |RawPrefix(isByte, n)|)) && (s[i] == 'b' || s[i] == 'r')
  {
    var lead, prefix := RawLead(isByte), RawPrefix(isByte, n);
    HoldsAt(s, i, prefix, 0);
    HoldsAt(s, i, prefix, |lead| - 1);
    HoldsAt(s, i, prefix, |lead| + n);
    forall k | i + |lead| <= k < i + |lead| + n
      ensures s[k] == '#'
    {
      HoldsAt(s, i, prefix, k - i);
    }
    HashRunIs(s, i + |lead|, n);
  }
}
