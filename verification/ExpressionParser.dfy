/** Value expressions: precedence climbing over binary operators, prefix operators and parentheses. */
module ExpressionParser {
  import opened Bytes

  /**
   * The tokens of the slice. An operand is a literal, a parameter, or a name that no opening
   * parenthesis follows directly; `Stop` is any token that neither begins an expression nor
   * continues one.
   */
  datatype Token =
    | Operand(text: nat)
    | OR | XOR | AND | EQUALS | NE | LEFT_ANGLE | RIGHT_ANGLE | LE | GE
    | CONCATENATION | PLUS | MINUS | ASTERISK | SOLIDUS | NOT
    | LPAREN | RPAREN | EOF | Stop(kind: nat)

  /** binary_operator_precedence */
  function Precedence(t: Token): nat {
    match t
    case OR => 1
    case XOR => 1
    case AND => 2
    case EQUALS => 3
    case NE => 3
    case LEFT_ANGLE => 3
    case RIGHT_ANGLE => 3
    case LE => 3
    case GE => 3
    case CONCATENATION => 4
    case PLUS => 5
    case MINUS => 5
    case ASTERISK => 6
    case SOLIDUS => 6
    case _ => 0
  }

  const HIGHEST_PRECEDENCE: nat := 6

  predicate IsOperand(t: Token) { t.Operand? }

  predicate IsPrefix(t: Token) { t == PLUS || t == MINUS || t == NOT }

  predicate IsInfix(t: Token) { Precedence(t) > 0 }

  /** The tree the parser builds; parentheses leave no node. */
  datatype Tree = Leaf(token: Token) | Unary(op: Token, operand: Tree) | Binary(op: Token, left: Tree, right: Tree)

  /** An expression as written, parentheses included. */
  datatype Shape =
    | Atom(token: Token)
    | Prefix(op: Token, operand: Shape)
    | Infix(op: Token, left: Shape, right: Shape)
    | Group(inner: Shape)

  function Written(s: Shape): seq<Token> {
    match s
    case Atom(t) => [t]
    case Prefix(op, operand) => [op] + Written(operand)
    case Infix(op, left, right) => Written(left) + ([op] + Written(right))
    case Group(inner) => [LPAREN] + (Written(inner) + [RPAREN])
  }

  function TreeOf(s: Shape): Tree {
    match s
    case Atom(t) => Leaf(t)
    case Prefix(op, operand) => Unary(op, TreeOf(operand))
    case Infix(op, left, right) => Binary(op, TreeOf(left), TreeOf(right))
    case Group(inner) => TreeOf(inner)
  }

  /** How tightly an expression binds: its operator outside all parentheses. */
  function Tightness(s: Shape): nat { if s.Infix? then Precedence(s.op) else HIGHEST_PRECEDENCE + 1 }

  /**
   * The grammar: left operands bind at least as tightly as their operator, right operands more
   * tightly, operands of prefix operators more tightly than any binary operator.
   */
  predicate WellShaped(s: Shape) {
    match s
    case Atom(t) => IsOperand(t)
    case Prefix(op, operand) => IsPrefix(op) && !operand.Infix? && WellShaped(operand)
    case Infix(op, left, right) =>
      && IsInfix(op) && WellShaped(left) && WellShaped(right)
      && Precedence(op) <= Tightness(left) && Precedence(op) < Tightness(right)
    case Group(inner) => WellShaped(inner)
  }

  function Head(ts: seq<Token>): Token { if ts == [] then EOF else ts[0] }

  // ----- What the parser computes -----

  datatype Parsed = Parsed(shape: Shape, rest: seq<Token>)

  /** parse_binary */
  function ParseBinary(ts: seq<Token>, minimum: nat): (r: Option<Parsed>)
    requires 1 <= minimum
    ensures r.Some? ==> |r.value.rest| < |ts|
    decreases |ts|, 2
  {
    match ParseUnary(ts)
    case None => None
    case Some(lhs) => Climb(lhs.shape, lhs.rest, minimum)
  }

  /** The loop of parse_binary. */
  function Climb(lhs: Shape, ts: seq<Token>, minimum: nat): (r: Option<Parsed>)
    requires 1 <= minimum
    ensures r.Some? ==> |r.value.rest| <= |ts|
    decreases |ts|, 0
  {
    var precedence := Precedence(Head(ts));
    if precedence < minimum then Some(Parsed(lhs, ts))
    else
      match ParseBinary(ts[1..], precedence + 1)
      case None => None
      case Some(rhs) => Climb(Infix(ts[0], lhs, rhs.shape), rhs.rest, minimum)
  }

  /** parse_unary */
  function ParseUnary(ts: seq<Token>): (r: Option<Parsed>)
    ensures r.Some? ==> |r.value.rest| < |ts|
    decreases |ts|, 1
  {
    if IsPrefix(Head(ts)) then
      match ParseUnary(ts[1..])
      case None => None
      case Some(operand) => Some(Parsed(Prefix(ts[0], operand.shape), operand.rest))
    else ParsePrimary(ts)
  }

  /** parse_primary; None where the parser reports an error. */
  function ParsePrimary(ts: seq<Token>): (r: Option<Parsed>)
    ensures r.Some? ==> |r.value.rest| < |ts|
    decreases |ts|, 0
  {
    if IsOperand(Head(ts)) then Some(Parsed(Atom(ts[0]), ts[1..]))
    else if Head(ts) == LPAREN then
      match ParseBinary(ts[1..], 1)
      case None => None
      case Some(inner) =>
        if Head(inner.rest) == RPAREN then Some(Parsed(Group(inner.shape), inner.rest[1..])) else None
    else None
  }

  lemma ClimbUnfolds(lhs: Shape, ts: seq<Token>, minimum: nat)
    requires 1 <= minimum
    ensures Precedence(Head(ts)) < minimum ==> Climb(lhs, ts, minimum) == Some(Parsed(lhs, ts))
    ensures minimum <= Precedence(Head(ts)) ==> ts != []
    ensures minimum <= Precedence(Head(ts)) ==>
              Climb(lhs, ts, minimum) ==
              match ParseBinary(ts[1..], Precedence(Head(ts)) + 1)
              case None => None
              case Some(rhs) => Climb(Infix(Head(ts), lhs, rhs.shape), rhs.rest, minimum)
  {
  }

  lemma TreeOfInfix(op: Token, left: Shape, right: Shape)
    ensures TreeOf(Infix(op, left, right)) == Binary(op, TreeOf(left), TreeOf(right))
  {
  }

  // ----- Soundness -----

  /** A parse yields back exactly the tokens consumed, well shaped, and stops only where it must. */
  lemma {:induction false} ParseBinarySound(ts: seq<Token>, minimum: nat)
    requires 1 <= minimum && ParseBinary(ts, minimum).Some?
    ensures var r := ParseBinary(ts, minimum).value;
            && ts == Written(r.shape) + r.rest
            && WellShaped(r.shape) && (r.shape.Infix? ==> minimum <= Tightness(r.shape))
            && Precedence(Head(r.rest)) < minimum
    decreases |ts|, 2
  {
    ParseUnarySound(ts);
    var lhs := ParseUnary(ts).value;
    ClimbSound(lhs.shape, lhs.rest, minimum);
    ConcatAssoc(Written(lhs.shape), [], []);
  }

  lemma {:induction false} ClimbSound(lhs: Shape, ts: seq<Token>, minimum: nat)
    requires 1 <= minimum && Climb(lhs, ts, minimum).Some?
    requires WellShaped(lhs) && (lhs.Infix? ==> minimum <= Tightness(lhs)) && Precedence(Head(ts)) <= Tightness(lhs)
    ensures var r := Climb(lhs, ts, minimum).value;
            && Written(lhs) + ts == Written(r.shape) + r.rest
            && WellShaped(r.shape) && (r.shape.Infix? ==> minimum <= Tightness(r.shape))
            && Precedence(Head(r.rest)) < minimum
    decreases |ts|, 0
  {
    hide Written, ParseBinary, Precedence;
    var precedence := Precedence(Head(ts));
    if minimum <= precedence {
      HeadOperator(ts);
      ParseBinarySound(ts[1..], precedence + 1);
      var rhs := ParseBinary(ts[1..], precedence + 1).value;
      var lhs' := Infix(ts[0], lhs, rhs.shape);
      ClimbSound(lhs', rhs.rest, minimum);
      WrittenInfix(ts[0], lhs, rhs.shape, rhs.rest);
      assert ts == [ts[0]] + (Written(rhs.shape) + rhs.rest);
    }
  }

  lemma HeadOperator(ts: seq<Token>)
    requires 1 <= Precedence(Head(ts))
    ensures ts != [] && Head(ts) == ts[0] != EOF && Precedence(ts[0]) <= HIGHEST_PRECEDENCE
  {
  }

  lemma WrittenAtom(t: Token)
    ensures Written(Atom(t)) == [t]
  {
  }

  lemma WrittenPrefix(op: Token, operand: Shape, rest: seq<Token>)
    ensures [op] + (Written(operand) + rest) == Written(Prefix(op, operand)) + rest
  {
    ConcatAssoc([op], Written(operand), rest);
  }

  lemma WrittenGroup(inner: Shape, rest: seq<Token>)
    ensures [LPAREN] + (Written(inner) + ([RPAREN] + rest)) == Written(Group(inner)) + rest
  {
    ConcatAssoc(Written(inner), [RPAREN], rest);
    ConcatAssoc([LPAREN], Written(inner) + [RPAREN], rest);
  }

  lemma WrittenInfix(op: Token, left: Shape, right: Shape, rest: seq<Token>)
    ensures Written(left) + ([op] + (Written(right) + rest)) == Written(Infix(op, left, right)) + rest
  {
    ConcatAssoc(Written(left), [op] + Written(right), rest);
    ConcatAssoc([op], Written(right), rest);
  }

  lemma {:induction false} ParseUnarySound(ts: seq<Token>)
    requires ParseUnary(ts).Some?
    ensures var r := ParseUnary(ts).value;
            ts == Written(r.shape) + r.rest && WellShaped(r.shape) && !r.shape.Infix?
    decreases |ts|, 1
  {
    hide Written, ParsePrimary;
    if IsPrefix(Head(ts)) {
      ParseUnarySound(ts[1..]);
      var operand := ParseUnary(ts[1..]).value;
      WrittenPrefix(ts[0], operand.shape, operand.rest);
      assert ts == [ts[0]] + ts[1..];
    } else {
      ParsePrimarySound(ts);
    }
  }

  lemma {:induction false} ParsePrimarySound(ts: seq<Token>)
    requires ParsePrimary(ts).Some?
    ensures var r := ParsePrimary(ts).value;
            ts == Written(r.shape) + r.rest && WellShaped(r.shape) && !r.shape.Infix?
    decreases |ts|, 0
  {
    hide Written, ParseBinary;
    assert ts == [ts[0]] + ts[1..];
    if IsOperand(Head(ts)) {
      WrittenAtom(ts[0]);
    } else {
      ParseBinarySound(ts[1..], 1);
      var inner := ParseBinary(ts[1..], 1).value;
      assert inner.rest == [RPAREN] + inner.rest[1..];
      WrittenGroup(inner.shape, inner.rest[1..]);
    }
  }

  // ----- Completeness -----

  /**
   * Parsing what a well-shaped expression is written as comes to climbing on from it, as long as
   * the operator behind it does not bind more tightly.
   */
  lemma {:induction false} ParseWritten(s: Shape, rest: seq<Token>, minimum: nat)
    requires 1 <= minimum && WellShaped(s) && (s.Infix? ==> minimum <= Tightness(s))
    requires Precedence(Head(rest)) <= Tightness(s)
    ensures ParseBinary(Written(s) + rest, minimum) == Climb(s, rest, minimum)
    decreases s, 1
  {
    match s
    case Infix(op, left, right) =>
      var behind := [op] + (Written(right) + rest);
      assert Written(s) + rest == Written(left) + behind;
      ParseWritten(left, behind, minimum);
      assert behind[1..] == Written(right) + rest;
      ParseWritten(right, rest, Precedence(op) + 1);
    case _ =>
      ParseWrittenUnary(s, rest);
  }

  lemma {:induction false} ParseWrittenUnary(s: Shape, rest: seq<Token>)
    requires WellShaped(s) && !s.Infix?
    ensures ParseUnary(Written(s) + rest) == Some(Parsed(s, rest))
    decreases s, 0
  {
    hide Written, ParseBinary, Climb;
    match s
    case Atom(t) =>
      WrittenAtom(t);
      assert ([t] + rest)[1..] == rest;
    case Prefix(op, operand) =>
      WrittenPrefix(op, operand, rest);
      assert ([op] + (Written(operand) + rest))[1..] == Written(operand) + rest;
      ParseWrittenUnary(operand, rest);
    case Group(inner) =>
      var behind := [RPAREN] + rest;
      WrittenGroup(inner, rest);
      assert ([LPAREN] + (Written(inner) + behind))[1..] == Written(inner) + behind;
      assert behind[1..] == rest;
      ParseWritten(inner, behind, 1);
      ClimbNot(inner, behind);
  }

  /** At a token that is no binary operator the loop ends. */
  lemma ClimbNot(s: Shape, rest: seq<Token>)
    requires !IsInfix(Head(rest))
    ensures Climb(s, rest, 1) == Some(Parsed(s, rest))
  {
  }

  /**
   * Every well-shaped expression is parsed back, whole, from the tokens it is written as, when no
   * binary operator follows that the caller's minimum lets in.
   */
  lemma ParseComplete(s: Shape, rest: seq<Token>, minimum: nat)
    requires 1 <= minimum && WellShaped(s) && (s.Infix? ==> minimum <= Tightness(s))
    requires Precedence(Head(rest)) < minimum
    ensures ParseBinary(Written(s) + rest, minimum) == Some(Parsed(s, rest))
  {
    if s.Infix? || Precedence(Head(rest)) <= Tightness(s) {
      ParseWritten(s, rest, minimum);
    }
  }

  /** So the tokens determine the expression: precedence climbing resolves every ambiguity. */
  lemma ShapeIsUnique(s: Shape, rest: seq<Token>, s': Shape, rest': seq<Token>)
    requires WellShaped(s) && WellShaped(s') && Written(s) + rest == Written(s') + rest'
    requires !IsInfix(Head(rest)) && !IsInfix(Head(rest'))
    ensures s == s' && rest == rest'
  {
    ParseComplete(s, rest, 1);
    ParseComplete(s', rest', 1);
  }

  /** The parser accepts exactly the well-shaped expressions, each as long as it can be. */
  lemma ParseExactly(ts: seq<Token>, s: Shape, rest: seq<Token>)
    ensures ParseBinary(ts, 1) == Some(Parsed(s, rest)) <==>
            WellShaped(s) && ts == Written(s) + rest && !IsInfix(Head(rest))
  {
    if ParseBinary(ts, 1) == Some(Parsed(s, rest)) {
      ParseBinarySound(ts, 1);
    }
    if WellShaped(s) && ts == Written(s) + rest && !IsInfix(Head(rest)) {
      ParseComplete(s, rest, 1);
    }
  }

  // ----- The operators, from the loosest to the tightest -----

  const LEVELS: seq<set<Token>> := [
    {OR, XOR},
    {AND},
    {EQUALS, NE, LEFT_ANGLE, RIGHT_ANGLE, LE, GE},
    {CONCATENATION},
    {PLUS, MINUS},
    {ASTERISK, SOLIDUS}]

  /** These are the binary operators, and there is no other. */
  lemma InfixOperators(t: Token)
    ensures IsInfix(t) <==> exists i :: 0 <= i < |LEVELS| && t in LEVELS[i]
  {
    assert t in LEVELS[0] || t in LEVELS[1] || t in LEVELS[2] || t in LEVELS[3] || t in LEVELS[4] || t in LEVELS[5] <==>
           exists i :: 0 <= i < |LEVELS| && t in LEVELS[i];
  }

  lemma LevelsCompare(op: Token, i: nat, op': Token, j: nat)
    requires i < |LEVELS| && op in LEVELS[i] && j < |LEVELS| && op' in LEVELS[j]
    ensures IsInfix(op) && IsInfix(op') && (Precedence(op) < Precedence(op') <==> i < j)
  {
    LevelIsPrecedence(op, i);
    LevelIsPrecedence(op', j);
  }

  lemma LevelIsPrecedence(op: Token, i: nat)
    requires i < |LEVELS| && op in LEVELS[i]
    ensures Precedence(op) == i + 1
  {
  }

  /**
   * Two operators in a row: the first one is applied first exactly when the second is not of a
   * higher level. So a + b * c is a + (b * c), and a - b - c is (a - b) - c.
   */
  lemma OperatorsInARow(a: Shape, op: Token, i: nat, b: Shape, op': Token, j: nat, c: Shape, rest: seq<Token>)
    requires i < |LEVELS| && op in LEVELS[i] && j < |LEVELS| && op' in LEVELS[j] && !IsInfix(Head(rest))
    requires WellShaped(a) && !a.Infix? && WellShaped(b) && !b.Infix? && WellShaped(c) && !c.Infix?
    ensures var r := ParseBinary(Written(a) + ([op] + (Written(b) + ([op'] + (Written(c) + rest)))), 1);
            && r.Some? && r.value.rest == rest
            && TreeOf(r.value.shape) ==
               if j <= i then Binary(op', Binary(op, TreeOf(a), TreeOf(b)), TreeOf(c))
               else Binary(op, TreeOf(a), Binary(op', TreeOf(b), TreeOf(c)))
  {
    hide Written, ParseBinary, Precedence;
    LevelsCompare(op, i, op', j);
    OperatorPrecedence(op);
    OperatorPrecedence(op');
    WrittenInfix(op, a, b, [op'] + (Written(c) + rest));
    WrittenInfix(op', b, c, rest);
    if j <= i {
      WrittenInfix(op', Infix(op, a, b), c, rest);
      ParseComplete(Infix(op', Infix(op, a, b), c), rest, 1);
    } else {
      WrittenInfix(op, a, Infix(op', b, c), rest);
      ParseComplete(Infix(op, a, Infix(op', b, c)), rest, 1);
    }
  }

  lemma OperatorPrecedence(op: Token)
    ensures Precedence(op) <= HIGHEST_PRECEDENCE
  {
  }

  /** Plus, minus and NOT in front of an operand apply to it before any binary operator does. */
  lemma PrefixFirst(p: Token, a: Shape, op: Token, b: Shape, rest: seq<Token>)
    requires p in {PLUS, MINUS, NOT} && IsInfix(op) && !IsInfix(Head(rest))
    requires WellShaped(a) && !a.Infix? && WellShaped(b) && !b.Infix?
    ensures var r := ParseBinary([p] + (Written(a) + ([op] + (Written(b) + rest))), 1);
            && r.Some? && r.value.rest == rest
            && TreeOf(r.value.shape) == Binary(op, Unary(p, TreeOf(a)), TreeOf(b))
  {
    hide Written, ParseBinary, Precedence;
    OperatorPrecedence(op);
    WrittenPrefix(p, a, [op] + (Written(b) + rest));
    WrittenInfix(op, Prefix(p, a), b, rest);
    ParseComplete(Infix(op, Prefix(p, a), b), rest, 1);
  }

  /** An expression begins with an operand, one of the three prefixes or a parenthesis. */
  lemma ExpressionsBegin(ts: seq<Token>)
    requires ParseBinary(ts, 1).Some?
    ensures ts != [] && (ts[0].Operand? || ts[0] in {PLUS, MINUS, NOT, LPAREN})
  {
    hide Climb;
    assert ParseUnary(ts).Some?;
    assert IsPrefix(Head(ts)) || ParsePrimary(ts).Some?;
  }

  // ----- Printing -----

  predicate IsTree(t: Tree) {
    match t
    case Leaf(token) => IsOperand(token)
    case Unary(op, operand) => IsPrefix(op) && IsTree(operand)
    case Binary(op, left, right) => IsInfix(op) && IsTree(left) && IsTree(right)
  }

  /** A tree written with parentheses where its place would otherwise read differently. */
  function Print(t: Tree, minimum: nat): Shape {
    match t
    case Leaf(token) => Atom(token)
    case Unary(op, operand) => Prefix(op, Print(operand, HIGHEST_PRECEDENCE + 1))
    case Binary(op, left, right) =>
      var s := Infix(op, Print(left, Precedence(op)), Print(right, Precedence(op) + 1));
      if Precedence(op) < minimum then Group(s) else s
  }

  lemma {:induction false} PrintWellShaped(t: Tree, minimum: nat)
    requires IsTree(t) && minimum <= HIGHEST_PRECEDENCE + 1
    ensures WellShaped(Print(t, minimum)) && TreeOf(Print(t, minimum)) == t && minimum <= Tightness(Print(t, minimum))
  {
    match t
    case Leaf(_) =>
    case Unary(_, operand) => PrintWellShaped(operand, HIGHEST_PRECEDENCE + 1);
    case Binary(op, left, right) =>
      PrintWellShaped(left, Precedence(op));
      PrintWellShaped(right, Precedence(op) + 1);
  }

  /** Printing and parsing again gives the tree back. */
  lemma PrintRoundTrip(t: Tree, rest: seq<Token>)
    requires IsTree(t) && !IsInfix(Head(rest))
    ensures ParseBinary(Written(Print(t, 1)) + rest, 1) == Some(Parsed(Print(t, 1), rest))
    ensures TreeOf(Print(t, 1)) == t
  {
    PrintWellShaped(t, 1);
    ParseComplete(Print(t, 1), rest, 1);
  }

  /** Printing uses no parentheses it does not need: nothing shorter parses to the tree. */
  lemma {:induction false} PrintIsShortest(s: Shape, minimum: nat)
    requires WellShaped(s) && minimum <= Tightness(s)
    ensures |Written(Print(TreeOf(s), minimum))| <= |Written(s)|
    decreases s
  {
    match s
    case Atom(_) =>
    case Prefix(_, operand) => PrintIsShortest(operand, HIGHEST_PRECEDENCE + 1);
    case Infix(op, left, right) =>
      PrintIsShortest(left, Precedence(op));
      PrintIsShortest(right, Precedence(op) + 1);
    case Group(inner) =>
      PrintIsShortest(inner, 0);
      GroupCostsTwo(TreeOf(inner), minimum);
  }

  lemma GroupCostsTwo(t: Tree, minimum: nat)
    ensures |Written(Print(t, minimum))| <= |Written(Print(t, 0))| + 2
  {
  }

  // ----- The parser -----

  class Parser {
    const tokens: seq<Token>
    var position: nat
    var failed: bool

    ghost predicate Valid()
      reads this
    {
      position <= |tokens|
    }

    ghost function Rest(): seq<Token>
      requires Valid()
      reads this
    {
      tokens[position..]
    }

    constructor (tokens: seq<Token>)
      ensures Valid() && Rest() == tokens && !failed
    {
      this.tokens, position, failed := tokens, 0, false;
    }

    function Current(): (t: Token)
      requires Valid()
      reads this
      ensures t == Head(Rest())
    {
      if position < |tokens| then tokens[position] else EOF
    }

    method Advance()
      requires Valid() && Current() != EOF
      modifies this`position
      ensures Valid() && position == old(position) + 1 && Rest() == old(Rest())[1..]
    {
      position := position + 1;
    }

    /** What a parsing method promises: success is the parse of the remaining tokens, and only that. */
    twostate predicate Follows(r: Option<Parsed>, new tree: Option<Tree>)
      requires old(Valid()) && Valid()
      reads this
    {
      && old(position) <= position
      && (old(failed) ==> failed) && (tree == None ==> failed) && (tree.Some? ==> old(position) < position)
      && match r
         case None => failed
         case Some(parsed) => tree == Some(TreeOf(parsed.shape)) && Rest() == parsed.rest && failed == old(failed)
    }

    method Binary(minimum: nat) returns (tree: Option<Tree>)
      requires Valid() && 1 <= minimum
      modifies this
      ensures Valid() && Follows(ParseBinary(old(Rest()), minimum), tree)
      decreases |tokens| - position, 2
    {
      hide ParseUnary, Precedence, TreeOf, Climb;
      ghost var whole := ParseBinary(Rest(), minimum);
      ghost var lhs := ParseUnary(Rest());
      tree := Unary();
      if tree == None {
        return;
      }
      ghost var shape: Option<Shape> := if lhs.Some? then Some(lhs.value.shape) else None;
      while true
        invariant Valid() && old(position) < position && tree.Some? && (old(failed) ==> failed)
        invariant match shape
                  case None => failed && whole == None
                  case Some(s) => failed == old(failed) && tree == Some(TreeOf(s)) && whole == Climb(s, Rest(), minimum)
        decreases |tokens| - position
      {
        var operator := Current();
        var precedence := Precedence(operator);
        if shape.Some? {
          ClimbUnfolds(shape.value, Rest(), minimum);
        }
        if precedence < minimum {
          return;
        }
        HeadOperator(Rest());
        Advance();
        ghost var right := ParseBinary(Rest(), precedence + 1);
        var rhs := Binary(precedence + 1);
        if rhs == None {
          return None;
        }
        tree := Some(Tree.Binary(operator, tree.value, rhs.value));
        if shape.Some? && right.Some? {
          TreeOfInfix(operator, shape.value, right.value.shape);
          shape := Some(Infix(operator, shape.value, right.value.shape));
        } else {
          shape := None;
        }
      }
    }

    method Unary() returns (tree: Option<Tree>)
      requires Valid()
      modifies this
      ensures Valid() && Follows(ParseUnary(old(Rest())), tree)
      decreases |tokens| - position, 1
    {
      var operator := Current();
      if IsPrefix(operator) {
        Advance();
        var operand := Unary();
        return if operand == None then None else Some(Tree.Unary(operator, operand.value));
      }
      tree := Primary();
    }

    method Primary() returns (tree: Option<Tree>)
      requires Valid()
      modifies this
      ensures Valid() && Follows(ParsePrimary(old(Rest())), tree)
      decreases |tokens| - position, 0
    {
      var token := Current();
      if IsOperand(token) {
        Advance();
        return Some(Leaf(token));
      }
      if token == LPAREN {
        Advance();
        tree := Binary(1);
        if Current() == RPAREN {
          Advance();
        } else {
          failed := true;
        }
        return;
      }
      failed := true;
      tree := None;
    }
  }
}
