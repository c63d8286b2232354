/** The scanner that blanks a Rust file's comments and literals before its imports
    are read: same length, same lines, and no comment or literal left. Which
    characters an identifier may hold is a parameter. */
module RustLexer {
  import opened Wrappers
  import opened Text

  // ---- Where tokens end ----------------------------------------------------

  predicate Pair(s: string, i: nat, a: char, b: char) {
    i + 1 < |s| && s[i] == a && s[i + 1] == b
  }

  /** The next newline, or the end. */
  function LineEnd(s: string, i: nat): (e: nat)
    requires i <= |s|
    ensures i <= e <= |s|
    ensures e < |s| ==> s[e] == '\n'
    decreases |s| - i
  {
    if i == |s| || s[i] == '\n' then i else LineEnd(s, i + 1)
  }

  /** Where a block comment of this depth closes, or the end. */
  function BlockEnd(s: string, i: nat, depth: nat): (e: nat)
    requires i <= |s|
    ensures i <= e <= |s|
    ensures e < |s| && depth > 0 ==> e > 0 && s[e - 1] == '/'
    decreases |s| - i
  {
    if i == |s| || depth == 0 then i
    else if Pair(s, i, '/', '*') then BlockEnd(s, i + 2, depth + 1)
    else if Pair(s, i, '*', '/') then BlockEnd(s, i + 2, depth - 1)
    else BlockEnd(s, i + 1, depth)
  }

  function HashRun(s: string, i: nat): (n: nat)
    requires i <= |s|
    ensures i + n <= |s|
    ensures forall k :: i <= k < i + n ==> s[k] == '#'
    ensures i + n < |s| ==> s[i + n] != '#'
    decreases |s| - i
  {
    if i == |s| || s[i] != '#' then 0 else 1 + HashRun(s, i + 1)
  }

  /** The number of hashes and the body's start of the raw string opening here. */
  function RawOpen(s: string, i: nat): (r: Option<(nat, nat)>)
    requires i < |s|
    ensures r.Some? ==> i + 2 <= r.value.1 <= |s|
  {
    var j := if s[i] == 'b' then i + 1 else i;
    if j < |s| && s[j] == 'r' then
      var n := HashRun(s, j + 1);
      var q := j + 1 + n;
      if q < |s| && s[q] == '"' then Some((n, q + 1)) else None
    else None
  }

  predicate HashesAt(s: string, i: nat, n: nat) {
    i + n <= |s| && forall k :: i <= k < i + n ==> s[k] == '#'
  }

  /** Past the first quote with that many hashes after it, or the end. */
  function RawEnd(s: string, i: nat, n: nat): (e: nat)
    requires i <= |s|
    ensures i <= e <= |s|
    ensures e < |s| ==> e > 0 && (s[e - 1] == '"' || s[e - 1] == '#')
    decreases |s| - i
  {
    if i == |s| then i
    else if s[i] == '"' && HashesAt(s, i + 1, n) then i + 1 + n
    else RawEnd(s, i + 1, n)
  }

  /** Past the closing quote; an unterminated string runs past the end. */
  function StringEnd(s: string, i: nat): (e: nat)
    ensures i < e
    ensures e <= |s| ==> s[e - 1] == '"'
    decreases |s| - i
  {
    if i >= |s| || s[i] == '"' then i + 1
    else if s[i] == '\\' then StringEnd(s, i + 2)
    else StringEnd(s, i + 1)
  }

  function HexRun(s: string, i: nat): (n: nat)
    requires i <= |s|
    ensures i + n <= |s|
    ensures forall k :: i <= k < i + n ==> IsHex(s[k])
    ensures i + n < |s| ==> !IsHex(s[i + n])
    decreases |s| - i
  {
    if i == |s| || !IsHex(s[i]) then 0 else 1 + HexRun(s, i + 1)
  }

  predicate QuoteAt(s: string, i: nat) {
    i < |s| && s[i] == '\''
  }

  /** Past a byte escape, a Unicode escape or a one-character escape, and its quote. */
  function EscapeEnd(s: string, i: nat): (r: Option<nat>)
    ensures r.Some? ==> i + 2 <= r.value <= |s| && s[r.value - 1] == '\''
  {
    if i >= |s| then None
    else if s[i] == 'x' && i + 3 < |s| && IsHex(s[i + 1]) && IsHex(s[i + 2]) && QuoteAt(s, i + 3) then Some(i + 4)
    else if Pair(s, i, 'u', '{') && HexRun(s, i + 2) > 0 && ClosesBrace(s, i + 2 + HexRun(s, i + 2)) then
      Some(i + 2 + HexRun(s, i + 2) + 2)
    else if s[i] != '\n' && QuoteAt(s, i + 1) then Some(i + 2)
    else None
  }

  predicate ClosesBrace(s: string, i: nat) {
    Pair(s, i, '}', '\'')
  }

  /** The end of the char or byte literal starting here, if one does. */
  function CharEnd(s: string, i: nat): (r: Option<nat>)
    requires i < |s|
    ensures r.Some? ==> i + 3 <= r.value <= |s| && s[r.value - 1] == '\''
  {
    var q := if s[i] == 'b' then i + 1 else i;
    if !QuoteAt(s, q) || q + 1 >= |s| then None
    else if s[q + 1] == '\\' then EscapeEnd(s, q + 2)
    else if s[q + 1] != '\'' && s[q + 1] != '\n' && QuoteAt(s, q + 2) then Some(q + 3)
    else None
  }

  type Alnum = char -> bool

  /** A literal's prefix cannot follow an identifier character. */
  predicate PrefixOk(s: string, i: nat, alnum: Alnum)
    requires i <= |s|
  {
    i == 0 || !(alnum(s[i - 1]) || s[i - 1] == '_')
  }

  /** The end of the comment or literal that starts here, if one does. */
  function TokenEnd(s: string, i: nat, alnum: Alnum): (r: Option<nat>)
    requires i < |s|
    ensures r.Some? ==> r.value >= i + 2
  {
    var raw := if PrefixOk(s, i, alnum) && (s[i] == 'b' || s[i] == 'r') then RawOpen(s, i) else None;
    var chr := if PrefixOk(s, i, alnum) && (s[i] == 'b' || s[i] == '\'') then CharEnd(s, i) else None;
    if Pair(s, i, '/', '/') then assert LineEnd(s, i) == LineEnd(s, i + 2); Some(LineEnd(s, i))
    else if Pair(s, i, '/', '*') then Some(BlockEnd(s, i + 2, 1))
    else if raw.Some? then Some(RawEnd(s, raw.value.1, raw.value.0))
    else if s[i] == '"' then Some(StringEnd(s, i + 1))
    else chr
  }

  // ---- Blanking ------------------------------------------------------------

  /** Whether the scan that has reached i meets k inside a comment or literal. */
  predicate InToken(s: string, i: nat, k: nat, alnum: Alnum)
    decreases |s| - i
  {
    i <= k && i < |s| &&
    var e := TokenEnd(s, i, alnum);
    if e.None? then InToken(s, i + 1, k, alnum) else k < e.value || InToken(s, e.value, k, alnum)
  }

  function BlankedAt(s: string, k: nat, alnum: Alnum): char
    requires k < |s|
  {
    if InToken(s, 0, k, alnum) && s[k] != '\n' then ' ' else s[k]
  }

  function Blanked(s: string, alnum: Alnum): (out: string)
    ensures |out| == |s|
    ensures forall k :: 0 <= k < |s| ==> out[k] == BlankedAt(s, k, alnum)
    ensures forall k :: 0 <= k < |s| ==> (out[k] == '\n' <==> s[k] == '\n')
    ensures forall k :: 0 <= k < |s| ==> out[k] == s[k] || (out[k] == ' ' && InToken(s, 0, k, alnum))
  {
    seq(|s|, k requires 0 <= k < |s| => BlankedAt(s, k, alnum))
  }

  method Blank(out: array<char>, start: nat, end: nat)
    modifies out
    ensures forall k :: 0 <= k < out.Length ==>
              out[k] == if start <= k < end && old(out[k]) != '\n' then ' ' else old(out[k])
  {
    var index, stop := start, if end < out.Length then end else out.Length;
    while index < stop
      invariant start <= index
      invariant forall k :: 0 <= k < out.Length ==>
                  out[k] == if start <= k < index && k < stop && old(out[k]) != '\n' then ' ' else old(out[k])
    {
      if out[index] != '\n' {
        out[index] := ' ';
      }
      index := index + 1;
    }
  }

  method ScanBlock(s: string, start: nat) returns (end: nat)
    requires start + 2 <= |s|
    ensures end == BlockEnd(s, start + 2, 1)
  {
    var depth := 1;
    end := start + 2;
    while end < |s| && depth != 0
      invariant end <= |s|
      invariant BlockEnd(s, end, depth) == BlockEnd(s, start + 2, 1)
    {
      if Pair(s, end, '/', '*') {
        depth, end := depth + 1, end + 2;
      } else if Pair(s, end, '*', '/') {
        depth, end := depth - 1, end + 2;
      } else {
        end := end + 1;
      }
    }
  }

  method ScanString(s: string, start: nat) returns (end: nat)
    ensures end == StringEnd(s, start + 1)
  {
    end := start + 1;
    while end < |s| && s[end] != '"'
      invariant StringEnd(s, end) == StringEnd(s, start + 1)
    {
      end := end + if s[end] == '\\' then 2 else 1;
    }
    end := end + 1;
  }

  method BlankCommentsAndLiterals(source: string, alnum: Alnum) returns (result: string)
    ensures result == Blanked(source, alnum)
  {
    var size := |source|;
    var out := new char[size](i requires 0 <= i < size => source[i]);
    var index := 0;
    while index < size
      invariant forall k :: 0 <= k < size ==> out[k] == if k < index then BlankedAt(source, k, alnum) else source[k]
      invariant forall k :: index <= k < size ==> (InToken(source, 0, k, alnum) <==> InToken(source, index, k, alnum))
    {
      var prefixOk := index == 0 || !(alnum(source[index - 1]) || source[index - 1] == '_');
      var raw := if prefixOk && (source[index] == 'b' || source[index] == 'r') then RawOpen(source, index) else None;
      var chr := if prefixOk && (source[index] == 'b' || source[index] == '\'') then CharEnd(source, index) else None;
      var end;
      if Pair(source, index, '/', '/') {
        end := LineEnd(source, index);
      } else if Pair(source, index, '/', '*') {
        end := ScanBlock(source, index);
      } else if raw.Some? {
        end := RawEnd(source, raw.value.1, raw.value.0);
      } else if source[index] == '"' {
        end := ScanString(source, index);
      } else if chr.Some? {
        end := chr.value;
      } else {
        ScanPasses(source, index, alnum);
        index := index + 1;
        continue;
      }
      assert TokenEnd(source, index, alnum) == Some(end);
      ScanTakes(source, index, end, alnum);
      Blank(out, index, end);
      index := end;
    }
    result := out[..];
  }

  lemma {:induction false} ScanPasses(s: string, i: nat, alnum: Alnum)
    requires i < |s| && TokenEnd(s, i, alnum).None?
    ensures forall k :: i <= k < |s| ==> (InToken(s, i, k, alnum) <==> InToken(s, i + 1, k, alnum))
    ensures !InToken(s, i, i, alnum)
  {
  }

  lemma {:induction false} ScanTakes(s: string, i: nat, e: nat, alnum: Alnum)
    requires i < |s| && TokenEnd(s, i, alnum) == Some(e)
    ensures forall k :: i <= k < e ==> InToken(s, i, k, alnum)
    ensures forall k :: e <= k < |s| ==> (InToken(s, i, k, alnum) <==> InToken(s, e, k, alnum))
  {
  }

  // ---- Nothing is left to blank --------------------------------------------

  /** Spaces and the marks that end a comment or literal are not identifier characters. */
  predicate MarksAreNotAlnum(alnum: Alnum) {
    forall c <- [' ', '\n', '/', '"', '#', '\''] :: !alnum(c)
  }

  /** The scan visits every character outside the tokens, and finds none starting there. */
  lemma {:induction false} OutsideStartsNothing(s: string, i: nat, k: nat, alnum: Alnum)
    requires i <= k < |s| && !InToken(s, i, k, alnum)
    ensures TokenEnd(s, k, alnum).None?
    decreases |s| - i
  {
    var e := TokenEnd(s, i, alnum);
    if e.None? {
      if i < k {
        OutsideStartsNothing(s, i + 1, k, alnum);
      }
    } else {
      OutsideStartsNothing(s, e.value, k, alnum);
    }
  }

  /** A token covers at least two characters, where there are two. */
  lemma {:induction false} TokensAreLong(s: string, i: nat, k: nat, alnum: Alnum)
    requires i < k && k + 1 < |s| && InToken(s, i, k, alnum) && !InToken(s, i, k - 1, alnum)
    ensures InToken(s, i, k + 1, alnum)
    decreases |s| - i
  {
    var e := TokenEnd(s, i, alnum);
    var next := if e.None? then i + 1 else e.value;
    if next < k {
      TokensAreLong(s, next, k, alnum);
    } else if next == k {
      assert InToken(s, k, k, alnum) && !InToken(s, k + 1, k, alnum);
      assert InToken(s, k, k + 1, alnum);
    }
  }

  /** Where a token stops short of the end, its last character is a mark, or a newline follows. */
  lemma {:induction false} TokenStops(s: string, i: nat, k: nat, alnum: Alnum)
    requires i < k < |s| && InToken(s, i, k - 1, alnum) && !InToken(s, i, k, alnum)
    ensures s[k] == '\n' || s[k - 1] in ['/', '"', '#', '\'']
    decreases |s| - i
  {
    var e := TokenEnd(s, i, alnum);
    var next := if e.None? then i + 1 else e.value;
    if next < k {
      TokenStops(s, next, k, alnum);
    } else {
      assert e.Some? && e.value == k;
      if Pair(s, i, '/', '/') {
        assert s[k] == '\n';
      }
    }
  }

  /** What the blanked text shows, other than a space, was there, outside every token. */
  lemma {:induction false} VisibleIsCode(s: string, k: nat, alnum: Alnum)
    requires k < |s|
    ensures var out := Blanked(s, alnum);
            out[k] != ' ' && out[k] != '\n' ==> out[k] == s[k] && !InToken(s, 0, k, alnum)
  {
  }

  /** A character between two visible ones was not blanked either: no token fits there. */
  lemma {:induction false} BetweenVisible(s: string, k: nat, alnum: Alnum)
    requires 0 < k && k + 1 < |s|
    requires !InToken(s, 0, k - 1, alnum) && !InToken(s, 0, k + 1, alnum)
    ensures Blanked(s, alnum)[k] == s[k]
  {
    if InToken(s, 0, k, alnum) {
      TokensAreLong(s, 0, k, alnum);
    }
  }

  lemma MarkIsNotAlnum(c: char, alnum: Alnum)
    requires MarksAreNotAlnum(alnum) && c in ['/', '"', '#', '\'']
    ensures !alnum(c) && c != '_'
  {
  }

  /** A prefix is as free to start a literal in the source as in the blanked text. */
  lemma {:induction false} PrefixWasOk(s: string, k: nat, alnum: Alnum)
    requires MarksAreNotAlnum(alnum) && k < |s|
    requires PrefixOk(Blanked(s, alnum), k, alnum) && !InToken(s, 0, k, alnum) && s[k] != '\n'
    ensures PrefixOk(s, k, alnum)
  {
    if k > 0 && InToken(s, 0, k - 1, alnum) {
      TokenStops(s, 0, k, alnum);
      MarkIsNotAlnum(s[k - 1], alnum);
    }
  }

  lemma {:induction false} HashRunIs(s: string, i: nat, n: nat)
    requires i + n < |s| && s[i + n] != '#' && forall k :: i <= k < i + n ==> s[k] == '#'
    ensures HashRun(s, i) == n
    decreases n
  {
    if n > 0 {
      HashRunIs(s, i + 1, n - 1);
    }
  }

  /** Wherever one text is not blank, the other is the same. */
  predicate Shows(out: string, s: string) {
    |out| == |s| && forall k :: 0 <= k < |s| && out[k] != ' ' && out[k] != '\n' ==> s[k] == out[k]
  }

  lemma RawWasThere(out: string, s: string, k: nat)
    requires Shows(out, s) && k < |s| && RawOpen(out, k).Some?
    ensures s[k] == out[k] && RawOpen(s, k).Some?
  {
    var j := if out[k] == 'b' then k + 1 else k;
    HashRunIs(s, j + 1, HashRun(out, j + 1));
  }

  lemma {:induction false} HexRunIs(s: string, i: nat, n: nat)
    requires i + n < |s| && !IsHex(s[i + n]) && forall k :: i <= k < i + n ==> IsHex(s[k])
    ensures HexRun(s, i) == n
    decreases n
  {
    if n > 0 {
      HexRunIs(s, i + 1, n - 1);
    }
  }

  /** The escape of a char literal in the blanked text is one of the source. */
  lemma EscapeWasThere(out: string, s: string, i: nat)
    requires Shows(out, s) && EscapeEnd(out, i).Some?
    requires QuoteAt(out, i + 1) ==> s[i] == out[i]
    ensures EscapeEnd(s, i).Some?
  {
    if Pair(out, i, 'u', '{') && HexRun(out, i + 2) > 0 && ClosesBrace(out, i + 2 + HexRun(out, i + 2)) {
      HexRunIs(s, i + 2, HexRun(out, i + 2));
    }
  }

  lemma CharWasThere(s: string, k: nat, alnum: Alnum)
    requires k < |s| && CharEnd(Blanked(s, alnum), k).Some?
    ensures s[k] == Blanked(s, alnum)[k] && CharEnd(s, k).Some?
  {
    var out := Blanked(s, alnum);
    var q := if out[k] == 'b' then k + 1 else k;
    VisibleIsCode(s, q, alnum);
    if out[q + 1] == '\\' {
      VisibleIsCode(s, q + 1, alnum);
      if QuoteAt(out, q + 3) {
        VisibleIsCode(s, q + 3, alnum);
        BetweenVisible(s, q + 2, alnum);
      }
      EscapeWasThere(out, s, q + 2);
    } else {
      VisibleIsCode(s, q + 2, alnum);
      BetweenVisible(s, q + 1, alnum);
    }
  }

  /** The blanked text holds no comment and no literal, anywhere. */
  lemma NothingLeft(s: string, k: nat, alnum: Alnum)
    requires MarksAreNotAlnum(alnum) && k < |s|
    ensures TokenEnd(Blanked(s, alnum), k, alnum).None?
  {
    var out := Blanked(s, alnum);
    if TokenEnd(out, k, alnum).Some? {
      StartIsVisible(out, k, alnum);
      VisibleIsCode(s, k, alnum);
      OutsideStartsNothing(s, 0, k, alnum);
      TokenWasThere(s, k, alnum);
      assert false;
    }
  }

  lemma StartIsVisible(s: string, k: nat, alnum: Alnum)
    requires k < |s| && TokenEnd(s, k, alnum).Some?
    ensures s[k] != ' ' && s[k] != '\n'
  {
  }

  lemma TokenWasThere(s: string, k: nat, alnum: Alnum)
    requires MarksAreNotAlnum(alnum) && k < |s|
    requires TokenEnd(Blanked(s, alnum), k, alnum).Some?
    ensures TokenEnd(s, k, alnum).Some?
  {
    var out := Blanked(s, alnum);
    StartIsVisible(out, k, alnum);
    VisibleIsCode(s, k, alnum);
    if Pair(out, k, '/', '/') || Pair(out, k, '/', '*') {
      VisibleIsCode(s, k + 1, alnum);
    } else if out[k] != '"' {
      PrefixWasOk(s, k, alnum);
      if (out[k] == 'b' || out[k] == 'r') && RawOpen(out, k).Some? {
        RawWasThere(out, s, k);
      } else {
        CharWasThere(s, k, alnum);
      }
    }
  }

  lemma {:induction false} TokenFreeUntouched(s: string, i: nat, k: nat, alnum: Alnum)
    requires forall j :: 0 <= j < |s| ==> TokenEnd(s, j, alnum).None?
    ensures !InToken(s, i, k, alnum)
    decreases |s| - i
  {
    if i < |s| {
      TokenFreeUntouched(s, i + 1, k, alnum);
    }
  }

  /** Blanking is idempotent. */
  lemma BlankedIdempotent(s: string, alnum: Alnum)
    requires MarksAreNotAlnum(alnum)
    ensures Blanked(Blanked(s, alnum), alnum) == Blanked(s, alnum)
  {
    var out := Blanked(s, alnum);
    forall j | 0 <= j < |s|
      ensures TokenEnd(out, j, alnum).None?
    {
      NothingLeft(s, j, alnum);
    }
    forall k | 0 <= k < |s|
      ensures Blanked(out, alnum)[k] == out[k]
    {
      TokenFreeUntouched(out, 0, k, alnum);
    }
  }
}
