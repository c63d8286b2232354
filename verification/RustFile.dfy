/** A whole Rust file, written as code and tokens: the scan blanks its tokens and
    nothing else. */
module RustFile {
  import opened Wrappers
  import opened Text
  import opened RustLexer
  import opened RustGrammar

  // ---- Char and byte literals ----------------------------------------------

  datatype CharBody =
    | One(c: char)
    | Escaped(c: char)
    | HexEscape(high: char, low: char)
    | UnicodeEscape(digits: string)

  predicate IsCharBody(body: CharBody) {
    match body
    case One(c) => c != '\'' && c != '\\' && c != '\n'
    case Escaped(c) => c != '\n'
    case HexEscape(high, low) => IsHex(high) && IsHex(low)
    case UnicodeEscape(digits) => digits != "" && forall k :: 0 <= k < |digits| ==> IsHex(digits[k])
  }

  function RenderCharBody(body: CharBody): string {
    match body
    case One(c) => [c]
    case Escaped(c) => ['\\', c]
    case HexEscape(high, low) => ['\\', 'x', high, low]
    case UnicodeEscape(digits) => ['\\', 'u', '{'] + digits + ['}']
  }

  /** The literal from its opening quote on. */
  function Quoted(body: CharBody): string {
    ['\''] + (RenderCharBody(body) + ['\''])
  }

  function CharLead(isByte: bool): string {
    if isByte then ['b'] else []
  }

  /** What a literal holds after its opening quote ends it at its closing one. */
  lemma QuotedEnds(s: string, q: nat, body: CharBody)
    requires Holds(s, q, Quoted(body)) && IsCharBody(body)
    ensures q + 1 < |s| && QuoteAt(s, q)
    ensures s[q + 1] == '\\' <==> !body.One?
    ensures body.One? ==> s[q + 1] != '\'' && s[q + 1] != '\n' && QuoteAt(s, q + 2)
    ensures !body.One? ==> EscapeEnd(s, q + 2) == Some(q + |Quoted(body)|)
  {
    var text := RenderCharBody(body);
    HoldsBoth(s, q, ['\''], text + ['\'']);
    HoldsAt(s, q, ['\''], 0);
    HoldsBoth(s, q + 1, text, ['\'']);
    HoldsAt(s, q + 1, text, 0);
    HoldsAt(s, q + 1 + |text|, ['\''], 0);
    if !body.One? {
      EscapeEnds(s, q + 1, body);
    }
  }

  lemma EscapeEnds(s: string, i: nat, body: CharBody)
    requires !body.One? && IsCharBody(body) && Holds(s, i, RenderCharBody(body))
    requires QuoteAt(s, i + |RenderCharBody(body)|)
    ensures EscapeEnd(s, i + 1) == Some(i + |RenderCharBody(body)| + 1)
  {
    var text := RenderCharBody(body);
    HoldsAt(s, i, text, 1);
    match body
    case Escaped(_) =>
    case HexEscape(_, _) =>
      HoldsAt(s, i, text, 2);
      HoldsAt(s, i, text, 3);
    case UnicodeEscape(digits) =>
      UnicodeEnds(s, i, digits);
  }

  lemma UnicodeEnds(s: string, i: nat, digits: string)
    requires IsCharBody(UnicodeEscape(digits)) && Holds(s, i, RenderCharBody(UnicodeEscape(digits)))
    requires QuoteAt(s, i + |digits| + 4)
    ensures EscapeEnd(s, i + 1) == Some(i + |digits| + 5)
  {
    var text := RenderCharBody(UnicodeEscape(digits));
    HoldsAt(s, i, text, 1);
    HoldsAt(s, i, text, 2);
    HoldsAt(s, i, text, 3 + |digits|);
    forall k | i + 3 <= k < i + 3 + |digits|
      ensures IsHex(s[k])
    {
      HoldsAt(s, i, text, k - i);
      assert text[k - i] == digits[k - i - 3];
    }
    HexRunIs(s, i + 3, |digits|);
  }

  /** A char or byte literal, plain or escaped, is one token. */
  lemma CharIsOneToken(s: string, i: nat, isByte: bool, body: CharBody, alnum: Alnum)
    requires Holds(s, i, CharLead(isByte) + Quoted(body)) && IsCharBody(body)
    requires i < |s| && PrefixOk(s, i, alnum)
    ensures TokenEnd(s, i, alnum) == Some(i + |CharLead(isByte) + Quoted(body)|)
  {
    CharEnds(s, i, isByte, body);
    CharIsTaken(s, i, i + |CharLead(isByte) + Quoted(body)|, alnum);
  }

  lemma CharEnds(s: string, i: nat, isByte: bool, body: CharBody)
    requires Holds(s, i, CharLead(isByte) + Quoted(body)) && IsCharBody(body) && i < |s|
    ensures CharEnd(s, i) == Some(i + |CharLead(isByte) + Quoted(body)|)
    ensures s[i] == '\'' || (s[i] == 'b' && QuoteAt(s, i + 1))
  {
    hide CharEnd, EscapeEnd;
    HoldsBoth(s, i, CharLead(isByte), Quoted(body));
    var q := i + |CharLead(isByte)|;
    QuotedEnds(s, q, body);
    if isByte {
      HoldsAt(s, i, CharLead(isByte), 0);
    }
    CharEndIs(s, i, q, q + |Quoted(body)|, body.One?);
  }

  /** The scan of a literal from its opening quote at q. */
  lemma CharEndIs(s: string, i: nat, q: nat, end: nat, isPlain: bool)
    requires i < |s| && q + 1 < |s| && QuoteAt(s, q) && (if s[i] == 'b' then q == i + 1 else q == i)
    requires s[q + 1] == '\\' <==> !isPlain
    requires isPlain ==> s[q + 1] != '\'' && s[q + 1] != '\n' && QuoteAt(s, q + 2) && end == q + 3
    requires !isPlain ==> EscapeEnd(s, q + 2) == Some(end)
    ensures CharEnd(s, i) == Some(end)
  {
  }

  lemma CharIsTaken(s: string, i: nat, end: nat, alnum: Alnum)
    requires i < |s| && PrefixOk(s, i, alnum) && CharEnd(s, i) == Some(end)
    requires s[i] == '\'' || (s[i] == 'b' && QuoteAt(s, i + 1))
    ensures TokenEnd(s, i, alnum) == Some(end)
  {
  }

  // ---- Line comments -------------------------------------------------------

  lemma {:induction false} LineRunsOn(s: string, i: nat, e: nat)
    requires i <= e <= |s| && (e == |s| || s[e] == '\n') && forall k :: i <= k < e ==> s[k] != '\n'
    ensures LineEnd(s, i) == e
    decreases e - i
  {
    if i < e {
      LineRunsOn(s, i + 1, e);
    }
  }

  /** A line comment is one token, up to its newline or the end of the file. */
  lemma LineCommentIsOneToken(s: string, i: nat, text: string, alnum: Alnum)
    requires Holds(s, i, ['/', '/'] + text) && '\n' !in text
    requires i + 2 + |text| == |s| || s[i + 2 + |text|] == '\n'
    ensures TokenEnd(s, i, alnum) == Some(i + 2 + |text|)
  {
    HoldsAt(s, i, ['/', '/'] + text, 0);
    HoldsAt(s, i, ['/', '/'] + text, 1);
    forall k | i <= k < i + 2 + |text|
      ensures s[k] != '\n'
    {
      HoldsAt(s, i, ['/', '/'] + text, k - i);
      assert k - i >= 2 ==> (['/', '/'] + text)[k - i] == text[k - i - 2];
    }
    LineRunsOn(s, i, i + 2 + |text|);
  }

  // ---- Code ----------------------------------------------------------------

  predicate RawOpensAt(s: string, i: nat) {
    i < |s| && s[i] == 'r' && i + 1 + HashRun(s, i + 1) < |s| && s[i + 1 + HashRun(s, i + 1)] == '"'
  }

  /** The character before is part of a name, so what starts here continues it. */
  predicate ContinuesName(s: string, i: nat, alnum: Alnum)
    requires i <= |s|
  {
    i > 0 && (alnum(s[i - 1]) || s[i - 1] == '_')
  }

  /** A character of code: a slash that opens no comment, the quote of a lifetime, a
      prefix letter that no literal follows or that continues a name, or any other but
      a double quote. */
  predicate IsCode(s: string, i: nat, alnum: Alnum)
    requires i < |s|
  {
    match s[i]
    case '/' => !Pair(s, i, '/', '/') && !Pair(s, i, '/', '*')
    case '"' => false
    case '\'' => ContinuesName(s, i, alnum) || IsLifetime(s, i)
    case 'b' =>
      || ContinuesName(s, i, alnum)
      || (!RawOpensAt(s, i + 1) && (QuoteAt(s, i + 1) ==> IsLifetime(s, i + 1)))
    case 'r' => ContinuesName(s, i, alnum) || !RawOpensAt(s, i)
    case _ => true
  }

  /** A quote that opens no literal: a quote or a newline follows it, or a character that
      is no escape and then no quote. */
  predicate IsLifetime(s: string, i: nat) {
    QuoteAt(s, i) &&
    (i + 1 < |s| ==> s[i + 1] == '\'' || s[i + 1] == '\n' || (s[i + 1] != '\\' && !QuoteAt(s, i + 2)))
  }

  lemma CodeStartsNothing(s: string, i: nat, alnum: Alnum)
    requires i < |s| && IsCode(s, i, alnum)
    ensures TokenEnd(s, i, alnum).None?
  {
  }

  // ---- Files ---------------------------------------------------------------

  datatype Piece =
    | Code(c: char)
    | LineComment(text: string)
    | BlockComment(items: seq<Item>)
    | Text(chars: seq<StringItem>)
    | RawText(isByte: bool, hashes: nat, body: string)
    | Character(isByte: bool, inside: CharBody)

  function Render(piece: Piece): string {
    match piece
    case Code(c) => [c]
    case LineComment(text) => ['/', '/'] + text
    case BlockComment(items) => RenderBlock(items)
    case Text(chars) => ['"'] + RenderString(chars)
    case RawText(isByte, hashes, body) => RawPrefix(isByte, hashes) + RawRest(body, hashes)
    case Character(isByte, inside) => CharLead(isByte) + Quoted(inside)
  }

  /** The piece stands here, as the grammar writes it and where the grammar allows it. */
  predicate Stands(s: string, i: nat, piece: Piece, alnum: Alnum) {
    && i < |s| && Holds(s, i, Render(piece))
    && match piece
       case Code(_) => IsCode(s, i, alnum)
       case LineComment(text) => '\n' !in text && (i + 2 + |text| == |s| || s[i + 2 + |text|] == '\n')
       case BlockComment(items) => IsProper(items, CLOSE)
       case Text(chars) => forall k :: 0 <= k < |chars| ==> IsStringItem(chars[k])
       case RawText(_, hashes, body) => IsRawBody(body, hashes) && !ContinuesName(s, i, alnum)
       case Character(_, inside) => IsCharBody(inside) && !ContinuesName(s, i, alnum)
  }

  /** The text is these pieces, one after another: piece j stands from at[j] to at[j + 1]. */
  predicate IsFile(s: string, pieces: seq<Piece>, at: seq<nat>, alnum: Alnum) {
    && |at| == |pieces| + 1 && at[0] == 0 && at[|pieces|] == |s|
    && forall j :: 0 <= j < |pieces| ==>
         Stands(s, at[j], pieces[j], alnum) && at[j + 1] == at[j] + |Render(pieces[j])|
  }

  // ---- The scan follows a layout -------------------------------------------

  /** Where the token starting at each position ends, if one starts there. */
  ghost predicate IsTable(ends: seq<Option<nat>>, s: string, alnum: Alnum) {
    |ends| == |s| && forall i :: 0 <= i < |s| ==> ends[i] == TokenEnd(s, i, alnum)
  }

  /** The scan goes from i to e: over a token, or past one character. */
  predicate Fits(ends: seq<Option<nat>>, i: nat, e: nat, isToken: bool) {
    i < |ends| && if isToken then ends[i] == Some(e) else e == i + 1 && ends[i].None?
  }

  predicate IsScanned(ends: seq<Option<nat>>, at: seq<nat>, areTokens: seq<bool>) {
    && |at| == |areTokens| + 1 && at[0] == 0
    && forall j :: 0 <= j < |areTokens| ==> Fits(ends, at[j], at[j + 1], areTokens[j])
  }

  /** The scan takes a token whole, passes a character of code, and goes on after it. */
  lemma {:induction false} ScanCrosses(
    ends: seq<Option<nat>>, s: string, i: nat, e: nat, isToken: bool, k: nat, alnum: Alnum)
    requires IsTable(ends, s, alnum) && Fits(ends, i, e, isToken) && i <= k < |s|
    ensures i < e
    ensures k < e ==> (InToken(s, i, k, alnum) <==> isToken)
    ensures k >= e ==> (InToken(s, i, k, alnum) <==> InToken(s, e, k, alnum))
  {
    if isToken {
      ScanTakes(s, i, e, alnum);
    } else {
      ScanPasses(s, i, alnum);
    }
  }

  /** So it comes to each position of the layout, however it got there. */
  lemma {:induction false} ScanComesTo(
    ends: seq<Option<nat>>, s: string, at: seq<nat>, areTokens: seq<bool>, j: nat, k: nat, alnum: Alnum)
    requires IsTable(ends, s, alnum) && IsScanned(ends, at, areTokens) && j < |at| && at[j] <= k < |s|
    ensures InToken(s, 0, k, alnum) <==> InToken(s, at[j], k, alnum)
    decreases j
  {
    if j > 0 {
      assert Fits(ends, at[j - 1], at[j], areTokens[j - 1]);
      StepsForward(ends, s, at[j - 1], at[j], areTokens[j - 1], alnum);
      ScanComesTo(ends, s, at, areTokens, j - 1, k, alnum);
      ScanCrosses(ends, s, at[j - 1], at[j], areTokens[j - 1], k, alnum);
    }
  }

  lemma StepsForward(ends: seq<Option<nat>>, s: string, i: nat, e: nat, isToken: bool, alnum: Alnum)
    requires IsTable(ends, s, alnum) && Fits(ends, i, e, isToken)
    ensures i < e
  {
  }

  // ---- A file is scanned as it is written ----------------------------------

  lemma TokenFits(ends: seq<Option<nat>>, s: string, i: nat, e: nat, alnum: Alnum)
    requires IsTable(ends, s, alnum) && i < |s| && TokenEnd(s, i, alnum) == Some(e)
    ensures Fits(ends, i, e, true)
  {
  }

  lemma LineCommentFits(ends: seq<Option<nat>>, s: string, i: nat, comment: string, alnum: Alnum)
    requires IsTable(ends, s, alnum) && i < |s| && Holds(s, i, ['/', '/'] + comment)
    requires '\n' !in comment && (i + 2 + |comment| == |s| || s[i + 2 + |comment|] == '\n')
    ensures Fits(ends, i, i + |['/', '/'] + comment|, true)
  {
    LineCommentIsOneToken(s, i, comment, alnum);
    TokenFits(ends, s, i, i + 2 + |comment|, alnum);
  }

  lemma {:induction false} BlockCommentFits(ends: seq<Option<nat>>, s: string, i: nat, items: seq<Item>, alnum: Alnum)
    requires IsTable(ends, s, alnum) && i < |s| && Holds(s, i, RenderBlock(items)) && IsProper(items, CLOSE)
    ensures Fits(ends, i, i + |RenderBlock(items)|, true)
  {
    BlockCommentIsOneToken(s, i, items, alnum);
    TokenFits(ends, s, i, i + |RenderBlock(items)|, alnum);
  }

  lemma {:induction false} TextFits(ends: seq<Option<nat>>, s: string, i: nat, chars: seq<StringItem>, alnum: Alnum)
    requires IsTable(ends, s, alnum) && i < |s| && Holds(s, i, ['"'] + RenderString(chars))
    requires forall k :: 0 <= k < |chars| ==> IsStringItem(chars[k])
    ensures Fits(ends, i, i + |['"'] + RenderString(chars)|, true)
  {
    StringIsOneToken(s, i, chars, alnum);
    TokenFits(ends, s, i, i + |['"'] + RenderString(chars)|, alnum);
  }

  lemma RawTextFits(
    ends: seq<Option<nat>>, s: string, i: nat, isByte: bool, hashes: nat, body: string, alnum: Alnum)
    requires IsTable(ends, s, alnum) && i < |s| && Holds(s, i, RawPrefix(isByte, hashes) + RawRest(body, hashes))
    requires IsRawBody(body, hashes) && PrefixOk(s, i, alnum)
    ensures Fits(ends, i, i + |RawPrefix(isByte, hashes) + RawRest(body, hashes)|, true)
  {
    RawStringIsOneToken(s, i, isByte, hashes, body, alnum);
    TokenFits(ends, s, i, i + |RawPrefix(isByte, hashes) + RawRest(body, hashes)|, alnum);
  }

  lemma CharacterFits(ends: seq<Option<nat>>, s: string, i: nat, isByte: bool, inside: CharBody, alnum: Alnum)
    requires IsTable(ends, s, alnum) && i < |s| && Holds(s, i, CharLead(isByte) + Quoted(inside))
    requires IsCharBody(inside) && PrefixOk(s, i, alnum)
    ensures Fits(ends, i, i + |CharLead(isByte) + Quoted(inside)|, true)
  {
    CharIsOneToken(s, i, isByte, inside, alnum);
    TokenFits(ends, s, i, i + |CharLead(isByte) + Quoted(inside)|, alnum);
  }

  lemma CodeFits(ends: seq<Option<nat>>, s: string, i: nat, alnum: Alnum)
    requires IsTable(ends, s, alnum) && i < |s| && IsCode(s, i, alnum)
    ensures Fits(ends, i, i + 1, false)
  {
    CodeStartsNothing(s, i, alnum);
  }

  lemma PieceFits(ends: seq<Option<nat>>, s: string, i: nat, piece: Piece, alnum: Alnum)
    requires IsTable(ends, s, alnum) && Stands(s, i, piece, alnum)
    ensures Fits(ends, i, i + |Render(piece)|, !piece.Code?)
  {
    hide TokenEnd, IsTable, Fits, Holds, IsCode, RenderBlock, RenderString, RawPrefix, RawRest, CharLead, Quoted;
    match piece
    case Code(_) => CodeFits(ends, s, i, alnum);
    case LineComment(text) => LineCommentFits(ends, s, i, text, alnum);
    case BlockComment(items) => BlockCommentFits(ends, s, i, items, alnum);
    case Text(chars) => TextFits(ends, s, i, chars, alnum);
    case RawText(isByte, hashes, body) => RawTextFits(ends, s, i, isByte, hashes, body, alnum);
    case Character(isByte, inside) => CharacterFits(ends, s, i, isByte, inside, alnum);
  }

  function AreTokens(pieces: seq<Piece>): seq<bool> {
    seq(|pieces|, j requires 0 <= j < |pieces| => !pieces[j].Code?)
  }

  lemma FileIsScanned(ends: seq<Option<nat>>, s: string, pieces: seq<Piece>, at: seq<nat>, alnum: Alnum)
    requires IsTable(ends, s, alnum) && IsFile(s, pieces, at, alnum)
    ensures IsScanned(ends, at, AreTokens(pieces))
  {
    hide Stands, Render, TokenEnd;
    forall j | 0 <= j < |pieces|
      ensures Fits(ends, at[j], at[j + 1], AreTokens(pieces)[j])
    {
      PieceFits(ends, s, at[j], pieces[j], alnum);
    }
  }

  /** Of a file written as code and tokens, the scan blanks exactly the tokens: of the
      piece that holds a position, every character but newlines if it is a token, and
      none if it is code. */
  lemma FileIsBlankedExactly(s: string, pieces: seq<Piece>, at: seq<nat>, j: nat, k: nat, alnum: Alnum)
    requires IsFile(s, pieces, at, alnum) && j < |pieces| && at[j] <= k < at[j + 1] && k < |s|
    ensures Blanked(s, alnum)[k] == if !pieces[j].Code? && s[k] != '\n' then ' ' else s[k]
  {
    hide Stands, Render, TokenEnd;
    var ends := seq(|s|, i requires 0 <= i < |s| => TokenEnd(s, i, alnum));
    FileIsScanned(ends, s, pieces, at, alnum);
    ScanComesTo(ends, s, at, AreTokens(pieces), j, k, alnum);
    ScanCrosses(ends, s, at[j], at[j + 1], !pieces[j].Code?, k, alnum);
  }
}
