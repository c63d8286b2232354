/** Which part of a Rust file a test gate covers: the item after it, to its first
    semicolon or the brace closing its first block, outside parentheses and brackets. */
module ProductionCode {
  import opened RustGrammar

  predicate Opens(c: char) {
    c == '(' || c == '['
  }

  predicate Closes(c: char) {
    c == ')' || c == ']'
  }

  function Brace(c: char): int {
    if c == '{' then 1 else if c == '}' then -1 else 0
  }

  /** Past the brace that brings the depth to zero, or the end. */
  function BraceEnd(code: string, i: nat, depth: int): (e: nat)
    requires i <= |code|
    ensures i <= e <= |code|
    decreases |code| - i
  {
    if i == |code| then i
    else
      var next := depth + Brace(code[i]);
      if next == 0 then i + 1 else BraceEnd(code, i + 1, next)
  }

  function ItemEndFrom(code: string, i: nat, nesting: int): (e: nat)
    requires i <= |code|
    ensures i <= e <= |code|
    decreases |code| - i
  {
    if i == |code| then i
    else if Opens(code[i]) then ItemEndFrom(code, i + 1, nesting + 1)
    else if Closes(code[i]) then ItemEndFrom(code, i + 1, nesting - 1)
    else if code[i] == ';' && nesting == 0 then i + 1
    else if code[i] == '{' && nesting == 0 then BraceEnd(code, i, 0)
    else ItemEndFrom(code, i + 1, nesting)
  }

  method ItemEnd(code: string, start: nat) returns (end: nat)
    requires start <= |code|
    ensures end == ItemEndFrom(code, start, 0)
  {
    var nesting, index := 0, start;
    end := |code|;
    while index < |code|
      invariant start <= index <= |code| && end == |code|
      invariant ItemEndFrom(code, index, nesting) == ItemEndFrom(code, start, 0)
    {
      var ch := code[index];
      if Opens(ch) {
        nesting := nesting + 1;
      } else if Closes(ch) {
        nesting := nesting - 1;
      } else if ch == ';' && nesting == 0 {
        end := index + 1;
        break;
      } else if ch == '{' && nesting == 0 {
        end := BlockClose(code, index);
        break;
      }
      index := index + 1;
    }
  }

  method BlockClose(code: string, start: nat) returns (index: nat)
    requires start < |code|
    ensures index == BraceEnd(code, start, 0)
  {
    var depth := 0;
    index := start;
    while index < |code|
      invariant start <= index <= |code|
      invariant BraceEnd(code, index, depth) == BraceEnd(code, start, 0)
    {
      depth := depth + Brace(code[index]);
      index := index + 1;
      if depth == 0 {
        break;
      }
    }
  }

  // ---- Blanking the gated items --------------------------------------------

  /** A gate attribute, from its first character to past its last. */
  datatype Gate = Gate(start: nat, end: nat)

  predicate AreGates(gates: seq<Gate>, code: string) {
    forall g <- gates :: g.start <= g.end <= |code|
  }

  predicate Gated(gates: seq<Gate>, code: string, k: nat)
    requires AreGates(gates, code)
  {
    exists g <- gates :: g.start <= k < ItemEndFrom(code, g.end, 0)
  }

  /** Gated items are blanked, lines kept, and everything else stays. */
  method BlankGated(code: string, gates: seq<Gate>) returns (result: string)
    requires AreGates(gates, code)
    ensures |result| == |code|
    ensures forall k :: 0 <= k < |code| ==>
              result[k] == if Gated(gates, code, k) && code[k] != '\n' then ' ' else code[k]
  {
    var out := new char[|code|](i requires 0 <= i < |code| => code[i]);
    for n := 0 to |gates|
      invariant forall k :: 0 <= k < |code| ==>
                  out[k] == if Gated(gates[..n], code, k) && code[k] != '\n' then ' ' else code[k]
    {
      var g := gates[n];
      var end := ItemEnd(code, g.end);
      assert gates[..n + 1] == gates[..n] + [g];
      for index := g.start to end
        invariant forall k :: 0 <= k < |code| ==>
                    out[k] == if (Gated(gates[..n], code, k) || g.start <= k < index) && code[k] != '\n'
                              then ' ' else code[k]
      {
        if out[index] != '\n' {
          out[index] := ' ';
        }
      }
    }
    assert gates[..|gates|] == gates;
    result := out[..];
  }

  // ---- Items as the grammar nests them -------------------------------------

  /** Text with its brackets paired. */
  datatype Tree = Leaf(c: char) | Node(open: char, kids: seq<Tree>, close: char)

  function RenderTree(tree: Tree): string
    decreases tree
  {
    match tree
    case Leaf(c) => [c]
    case Node(open, kids, close) => [open] + (RenderTrees(kids) + [close])
  }

  function RenderTrees(trees: seq<Tree>): string
    decreases trees
  {
    if trees == [] then "" else RenderTree(trees[0]) + RenderTrees(trees[1..])
  }

  /** Parentheses and brackets pair; anything else may stand between them. */
  predicate IsNested(trees: seq<Tree>)
    decreases trees
  {
    if trees == [] then true
    else
      && (match trees[0]
          case Leaf(c) => c !in ['(', ')', '[', ']']
          case Node(open, kids, close) => open in ['(', '['] && close in [')', ']'] && IsNested(kids))
      && IsNested(trees[1..])
  }

  /** And braces pair. */
  predicate IsBraced(trees: seq<Tree>)
    decreases trees
  {
    if trees == [] then true
    else
      && (match trees[0]
          case Leaf(c) => c != '{' && c != '}'
          case Node(open, kids, close) => open == '{' && close == '}' && IsBraced(kids))
      && IsBraced(trees[1..])
  }

  /** A header: nothing outside its parentheses and brackets ends the item. */
  predicate IsHeader(trees: seq<Tree>) {
    IsNested(trees) && forall k :: 0 <= k < |trees| && trees[k].Leaf? ==> trees[k].c != ';' && trees[k].c != '{'
  }

  lemma {:induction false} NestingCrosses(code: string, i: nat, trees: seq<Tree>, nesting: nat)
    requires Holds(code, i, RenderTrees(trees)) && IsNested(trees) && (nesting > 0 || IsHeader(trees))
    ensures ItemEndFrom(code, i, nesting) == ItemEndFrom(code, i + |RenderTrees(trees)|, nesting)
    decreases trees
  {
    if trees != [] {
      HoldsBoth(code, i, RenderTree(trees[0]), RenderTrees(trees[1..]));
      NestingCrossesOne(code, i, trees[0], nesting);
      NestingCrosses(code, i + |RenderTree(trees[0])|, trees[1..], nesting);
    }
  }

  lemma {:induction false} NestingCrossesOne(code: string, i: nat, tree: Tree, nesting: nat)
    requires Holds(code, i, RenderTree(tree)) && IsNested([tree]) && (nesting > 0 || IsHeader([tree]))
    ensures ItemEndFrom(code, i, nesting) == ItemEndFrom(code, i + |RenderTree(tree)|, nesting)
    decreases tree
  {
    match tree
    case Leaf(c) =>
      HoldsAt(code, i, [c], 0);
      assert [tree][0] == tree;
    case Node(open, kids, close) =>
      var body := RenderTrees(kids);
      HoldsBoth(code, i, [open], body + [close]);
      HoldsBoth(code, i + 1, body, [close]);
      HoldsAt(code, i, [open], 0);
      HoldsAt(code, i + 1 + |body|, [close], 0);
      NestingCrosses(code, i + 1, kids, nesting + 1);
  }

  lemma {:induction false} BracesCross(code: string, i: nat, trees: seq<Tree>, depth: nat)
    requires Holds(code, i, RenderTrees(trees)) && IsBraced(trees) && depth > 0
    ensures BraceEnd(code, i, depth) == BraceEnd(code, i + |RenderTrees(trees)|, depth)
    decreases trees
  {
    if trees != [] {
      HoldsBoth(code, i, RenderTree(trees[0]), RenderTrees(trees[1..]));
      BracesCrossOne(code, i, trees[0], depth);
      BracesCross(code, i + |RenderTree(trees[0])|, trees[1..], depth);
    }
  }

  lemma {:induction false} BracesCrossOne(code: string, i: nat, tree: Tree, depth: nat)
    requires Holds(code, i, RenderTree(tree)) && IsBraced([tree]) && depth > 0
    ensures BraceEnd(code, i, depth) == BraceEnd(code, i + |RenderTree(tree)|, depth)
    decreases tree
  {
    match tree
    case Leaf(c) =>
      HoldsAt(code, i, [c], 0);
    case Node(open, kids, close) =>
      var body := RenderTrees(kids);
      HoldsBoth(code, i, [open], body + [close]);
      HoldsBoth(code, i + 1, body, [close]);
      HoldsAt(code, i, [open], 0);
      HoldsAt(code, i + 1 + |body|, [close], 0);
      BracesCross(code, i + 1, kids, depth + 1);
  }

  /** An item with a body ends at the brace closing it, however its header and body nest. */
  lemma {:induction false} BodiedItemEnds(code: string, i: nat, header: seq<Tree>, body: seq<Tree>)
    requires IsHeader(header) && IsBraced(body)
    requires Holds(code, i, RenderTrees(header) + RenderTree(Node('{', body, '}')))
    ensures ItemEndFrom(code, i, 0) == i + |RenderTrees(header)| + |RenderTree(Node('{', body, '}'))|
  {
    var head, text := RenderTrees(header), RenderTrees(body);
    HoldsBoth(code, i, head, RenderTree(Node('{', body, '}')));
    NestingCrosses(code, i, header, 0);
    BlockEnds(code, i + |head|, body, text);
  }

  lemma {:induction false} BlockEnds(code: string, i: nat, body: seq<Tree>, text: string)
    requires IsBraced(body) && text == RenderTrees(body) && Holds(code, i, ['{'] + (text + ['}']))
    ensures i < |code| && code[i] == '{' && BraceEnd(code, i, 0) == i + |text| + 2
  {
    HoldsBoth(code, i, ['{'], text + ['}']);
    HoldsBoth(code, i + 1, text, ['}']);
    HoldsAt(code, i, ['{'], 0);
    HoldsAt(code, i + 1 + |text|, ['}'], 0);
    BracesCross(code, i + 1, body, 1);
  }

  /** An item without one ends at its semicolon, whatever its parentheses hold. */
  lemma {:induction false} PlainItemEnds(code: string, i: nat, header: seq<Tree>)
    requires IsHeader(header) && Holds(code, i, RenderTrees(header) + [';'])
    ensures ItemEndFrom(code, i, 0) == i + |RenderTrees(header)| + 1
  {
    HoldsBoth(code, i, RenderTrees(header), [';']);
    NestingCrosses(code, i, header, 0);
    HoldsAt(code, i + |RenderTrees(header)|, [';'], 0);
  }
}
