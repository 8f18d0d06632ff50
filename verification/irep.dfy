/**
  The expression representation both components work over: immutable,
  structurally compared type descriptors and expression trees. A shared
  handle of the source is a value here, so "the same handle" is value
  equality.
*/
module Irep {

  /** A struct or union member: its name and its type. */
  datatype Field = Field(name: string, ty: Type)

  /** Type descriptors. `Struct` stands for both struct and union types,
      which the offset resolver treats alike. */
  datatype Type =
    | Empty
    | Scalar                      // any other non-aggregate type (bool, signed, float, ...)
    | UnsignedBv(width: nat)
    | Pointer(subtype: Type)
    | Array(subtype: Type)
    | Struct(members: seq<Field>)

  /** Expression nodes. `Node` stands for every kind this model does not name;
      `id` distinguishes those kinds from one another. */
  datatype Expr =
    | Symbol(ty: Type, name: string)
    | ConstInt(ty: Type, value: int)
    | Index(ty: Type, source: Expr, index: Expr)
    | Member(ty: Type, source: Expr, member: string)
    | AddressOf(ty: Type, target: Expr)
    | Add(ty: Type, side1: Expr, side2: Expr)
    | Node(id: nat, ty: Type, ops: seq<Expr>)

  /** The node-kind tag (the source's `expr_id`). */
  datatype Kind = SymbolKind | ConstIntKind | IndexKind | MemberKind | AddressOfKind | AddKind | OtherKind(id: nat)

  function KindOf(e: Expr): Kind
  {
    match e
    case Symbol(_, _) => SymbolKind
    case ConstInt(_, _) => ConstIntKind
    case Index(_, _, _) => IndexKind
    case Member(_, _, _) => MemberKind
    case AddressOf(_, _) => AddressOfKind
    case Add(_, _, _) => AddKind
    case Node(id, _, _) => OtherKind(id)
  }

  /** Compile-time constants. */
  predicate IsConstant(e: Expr)
  {
    e.ConstInt?
  }

  /** The operand handles of a node, in order. */
  function Operands(e: Expr): seq<Expr>
  {
    match e
    case Symbol(_, _) => []
    case ConstInt(_, _) => []
    case Index(_, s, i) => [s, i]
    case Member(_, s, _) => [s]
    case AddressOf(_, t) => [t]
    case Add(_, a, b) => [a, b]
    case Node(_, _, ops) => ops
  }

  /** `a` and `b` agree on everything but their operands: kind (which for the
      generic kind includes its tag), type, and the name, value or member name
      a kind carries. */
  predicate SameExceptOperands(a: Expr, b: Expr)
  {
    && KindOf(a) == KindOf(b) && a.ty == b.ty
    && (a.Symbol? ==> a.name == b.name)
    && (a.ConstInt? ==> a.value == b.value)
    && (a.Member? ==> a.member == b.member)
  }

  /** Two nodes that agree on everything but their operands, and on those too, are equal. */
  lemma SameExceptOperandsDetermines(a: Expr, b: Expr)
    requires SameExceptOperands(a, b) && Operands(a) == Operands(b)
    ensures a == b
  {
  }

  /** A clone of `e` whose operand handles are replaced by `ops`, one for one;
      nothing else changes. */
  function WithOperands(e: Expr, ops: seq<Expr>): (r: Expr)
    requires |ops| == |Operands(e)|
    ensures KindOf(r) == KindOf(e) && r.ty == e.ty
    ensures Operands(r) == ops
    ensures SameExceptOperands(r, e)
  {
    match e
    case Symbol(_, _) => e
    case ConstInt(_, _) => e
    case Index(ty, _, _) => Index(ty, ops[0], ops[1])
    case Member(ty, _, m) => Member(ty, ops[0], m)
    case AddressOf(ty, _) => AddressOf(ty, ops[0])
    case Add(ty, _, _) => Add(ty, ops[0], ops[1])
    case Node(id, ty, _) => Node(id, ty, ops)
  }

  /** Cloning with a node's own operands gives the node back. */
  lemma WithOwnOperands(e: Expr)
    ensures WithOperands(e, Operands(e)) == e
  {
  }

  /** Number of nodes in a tree. */
  function Size(e: Expr): (n: nat)
    ensures n >= 1
  {
    match e
    case Symbol(_, _) => 1
    case ConstInt(_, _) => 1
    case Index(_, s, i) => 1 + Size(s) + Size(i)
    case Member(_, s, _) => 1 + Size(s)
    case AddressOf(_, t) => 1 + Size(t)
    case Add(_, a, b) => 1 + Size(a) + Size(b)
    case Node(_, _, ops) => 1 + SizeSeq(ops)
  }

  function SizeSeq(es: seq<Expr>): (n: nat)
    ensures forall i :: 0 <= i < |es| ==> Size(es[i]) <= n
    decreases es
  {
    if |es| == 0 then 0 else Size(es[0]) + SizeSeq(es[1..])
  }

  /** Every operand is a strictly smaller tree than its node. */
  lemma OperandsSmaller(e: Expr)
    ensures SizeSeq(Operands(e)) < Size(e)
    ensures forall i :: 0 <= i < |Operands(e)| ==> Size(Operands(e)[i]) < Size(e)
  {
    var ops := Operands(e);
    match e {
      case Index(_, s, i) =>
        assert ops[1..] == [i] && ops[1..][1..] == [];
        assert SizeSeq([i]) == Size(i) + SizeSeq([]);
        assert SizeSeq(ops) == Size(s) + Size(i);
      case Add(_, a, b) =>
        assert ops[1..] == [b] && ops[1..][1..] == [];
        assert SizeSeq([b]) == Size(b) + SizeSeq([]);
        assert SizeSeq(ops) == Size(a) + Size(b);
      case Member(_, s, _) =>
        assert ops[1..] == [];
      case AddressOf(_, t) =>
        assert ops[1..] == [];
      case _ =>
    }
  }

  /** The canonical object of an access: every trailing index or member
      selector removed. */
  function Root(e: Expr): (r: Expr)
    ensures !r.Index? && !r.Member?
  {
    match e
    case Index(_, s, _) => Root(s)
    case Member(_, s, _) => Root(s)
    case _ => e
  }
}
