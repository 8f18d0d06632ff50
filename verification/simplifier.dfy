/**
  The generic expression simplifier (`expr2t::do_simplify`) and the
  addition routine (`add2t::do_simplify`). A result of `None` means "no
  change: keep using the original handle"; `Some(e')` is a freshly built
  replacement.
*/
module Simplifier {
  import opened Outcomes
  import opened Irep

  /** What a kind-specific override of a kind outside this model does with a
      node of the generic kind: inherit the base routine, or answer itself. */
  datatype Hook = Inherit | Override(result: Option<Expr>)

  /** The per-kind override table for the generic kind, given the node and the
      `shallow` flag. */
  type Overrides = (Expr, bool) -> Hook

  /** The table of the code modelled here: no generic-kind node has a routine
      of its own (the addition routine is chosen by `AddDispatch`). */
  function NoOverrides(): Overrides
  {
    (e: Expr, shallow: bool) => Inherit
  }

  /** Which routine a call through an `expr2t` handle runs for an addition.
      `add2t::do_simplify(bool)` lacks the `const` of
      `expr2t::do_simplify(bool) const`, so as written it hides the base
      routine instead of overriding it (`Hiding`): additions get the base
      routine. `Overriding` is the evidently intended dispatch, in which the
      addition routine answers every addition. */
  datatype AddDispatch = Overriding | Hiding

  /** Virtual dispatch of `do_simplify` on the node kind. It terminates: a deep
      call recurses only into strictly smaller operands, and the one call on a
      rebuilt node is shallow, which never recurses. */
  function Simplify(h: Overrides, d: AddDispatch, e: Expr, shallow: bool): (r: Option<Expr>)
    ensures e.Add? && d == Overriding ==> r == None
    ensures e.Add? && d == Hiding ==> r == BaseSimplify(h, d, e, shallow)
    ensures shallow && !(e.Node? && h(e, true).Override?) ==> r == None
    decreases if shallow then 0 else 1, Size(e), 2
  {
    match e
    case Add(_, _, _) =>
      if d == Overriding then AddSimplify(h, d, e, shallow) else BaseSimplify(h, d, e, shallow)
    case Node(_, _, _) =>
      (match h(e, shallow)
       case Inherit => BaseSimplify(h, d, e, shallow)
       case Override(result) => result)
    case _ => BaseSimplify(h, d, e, shallow)
  }

  /** Deep simplification of each operand in turn. */
  function SimplifyOperands(h: Overrides, d: AddDispatch, ops: seq<Expr>): (rs: seq<Option<Expr>>)
    ensures |rs| == |ops|
    ensures forall i :: 0 <= i < |ops| ==> rs[i] == Simplify(h, d, ops[i], false)
    decreases 1, SizeSeq(ops), 3
  {
    if |ops| == 0 then [] else [Simplify(h, d, ops[0], false)] + SimplifyOperands(h, d, ops[1..])
  }

  /** Operands after simplification: the replacement where there is one, the
      original handle otherwise. */
  function Splice(ops: seq<Expr>, rs: seq<Option<Expr>>): seq<Expr>
    requires |rs| == |ops|
  {
    seq(|ops|, i requires 0 <= i < |ops| => OrElse(rs[i], ops[i]))
  }

  predicate AnyChanged(rs: seq<Option<Expr>>)
  {
    exists i :: 0 <= i < |rs| && rs[i].Some?
  }

  /** The base `do_simplify`: shallow calls change nothing; a deep call
      simplifies every operand and, only when one of them changed, returns a
      clone of the node with just the changed operands replaced. */
  function BaseSimplify(h: Overrides, d: AddDispatch, e: Expr, shallow: bool): (r: Option<Expr>)
    ensures shallow ==> r == None
    ensures !shallow ==> (OperandsSmaller(e);
      (r == None <==> forall i :: 0 <= i < |Operands(e)| ==> Simplify(h, d, Operands(e)[i], false) == None))
    ensures r.Some? ==> KindOf(r.value) == KindOf(e) && r.value.ty == e.ty
    ensures r.Some? ==> SameExceptOperands(r.value, e)
    ensures r.Some? ==> |Operands(r.value)| == |Operands(e)|
    ensures r.Some? ==> (OperandsSmaller(e); forall i :: 0 <= i < |Operands(e)| ==>
      Operands(r.value)[i] == OrElse(Simplify(h, d, Operands(e)[i], false), Operands(e)[i]))
    decreases if shallow then 0 else 1, Size(e), 0
  {
    if shallow then None
    else
      OperandsSmaller(e);
      var ops := Operands(e);
      var rs := SimplifyOperands(h, d, ops);
      if !AnyChanged(rs) then None
      else Some(WithOperands(e, Splice(ops, rs)))
  }

  /** `add2t::do_simplify` as written: constant operands would be folded
      (folding is not implemented), a shallow call gives up, and a deep call
      simplifies the operands and then returns the answer of one shallow
      re-attempt on the rebuilt sum. That re-attempt never reports a change,
      under either dispatch, so neither does this routine. */
  function AddSimplify(h: Overrides, d: AddDispatch, e: Expr, shallow: bool): (r: Option<Expr>)
    requires e.Add?
    ensures r == None
    decreases if shallow then 0 else 1, Size(e), 1
  {
    if IsConstant(e.side1) && IsConstant(e.side2) then None
    else if shallow then None
    else
      match BaseSimplify(h, d, e, false)
      case None => None
      case Some(cloned) => Simplify(h, d, cloned, true)
  }

  /** Copy-on-write, stated on the handle the caller ends up with: it is the
      node with every operand replaced by that operand's own outcome, and it is
      the original node itself when no operand changed. */
  lemma CopyOnWrite(h: Overrides, d: AddDispatch, e: Expr)
    ensures OrElse(BaseSimplify(h, d, e, false), e)
         == WithOperands(e, seq(|Operands(e)|, i requires 0 <= i < |Operands(e)| =>
                                 OrElse(Simplify(h, d, Operands(e)[i], false), Operands(e)[i])))
  {
  }

  /** A node that rewrites itself: a generic-kind node whose override answers
      a deep call with a replacement. */
  predicate Rewrites(h: Overrides, e: Expr)
  {
    e.Node? && h(e, false).Override? && h(e, false).result.Some?
  }

  /** No node of the tree rewrites itself. */
  ghost predicate Inert(h: Overrides, e: Expr)
    decreases Size(e)
  {
    OperandsSmaller(e);
    && !Rewrites(h, e)
    && forall i :: 0 <= i < |Operands(e)| ==> Inert(h, Operands(e)[i])
  }

  /** A tree without a self-rewriting node simplifies to "no change". */
  lemma {:induction false} InertTreeUnchanged(h: Overrides, d: AddDispatch, e: Expr)
    requires Inert(h, e)
    ensures Simplify(h, d, e, false) == None
    decreases Size(e)
  {
    OperandsSmaller(e);
    var ops := Operands(e);
    forall i | 0 <= i < |ops|
      ensures Simplify(h, d, ops[i], false) == None
    {
      InertTreeUnchanged(h, d, ops[i]);
    }
  }

  /** Without overrides every tree is inert. */
  lemma {:induction false} InertWithoutOverrides(e: Expr)
    ensures Inert(NoOverrides(), e)
    decreases Size(e)
  {
    OperandsSmaller(e);
    forall i | 0 <= i < |Operands(e)|
      ensures Inert(NoOverrides(), Operands(e)[i])
    {
      InertWithoutOverrides(Operands(e)[i]);
    }
  }

  /** With only the code modelled here, simplification never changes
      anything, whichever routine additions are dispatched to. */
  lemma ShownKindsNeverSimplify(d: AddDispatch, e: Expr, shallow: bool)
    ensures Simplify(NoOverrides(), d, e, shallow) == None
  {
    if !shallow {
      InertWithoutOverrides(e);
      InertTreeUnchanged(NoOverrides(), d, e);
    }
  }

  /** The addition routine drops a rebuilt sum: when the operands did
      simplify, the shallow re-attempt on the rebuilt sum answers "no change"
      under either dispatch, and so does the routine itself; with the
      intended dispatch so does every deep call on the addition. */
  lemma AddDropsSimplifiedOperands(h: Overrides, d: AddDispatch, e: Expr)
    requires e.Add? && !(IsConstant(e.side1) && IsConstant(e.side2))
    requires BaseSimplify(h, d, e, false).Some?
    ensures Simplify(h, d, BaseSimplify(h, d, e, false).value, true) == None
    ensures AddSimplify(h, d, e, false) == None
    ensures Simplify(h, Overriding, e, false) == None
  {
  }

  /** The two dispatches disagree on an addition exactly when the call is
      deep and some operand changed: as written the base routine then returns
      the rebuilt sum, while the addition routine would drop it. */
  lemma DispatchesDisagreeOnChangedSums(h: Overrides, e: Expr, shallow: bool)
    requires e.Add?
    ensures Simplify(h, Hiding, e, shallow) != Simplify(h, Overriding, e, shallow)
        <==> !shallow && exists i :: 0 <= i < 2 && Simplify(h, Hiding, Operands(e)[i], false).Some?
  {
  }

  /** For instance `n + x`, where `n` is a generic node whose override rewrites
      it to a constant: the operands are rebuilt as `0 + x`. Called through an
      `expr2t` handle as written, the base routine returns that rebuilt sum;
      the addition routine, and the intended dispatch to it, answer "no change". */
  lemma AddDispatchExample(ty: Type)
    ensures var h: Overrides := (e: Expr, shallow: bool) =>
                if e == Node(7, ty, []) && !shallow then Override(Some(ConstInt(ty, 0))) else Inherit;
            var sum := Add(ty, Node(7, ty, []), Symbol(ty, "x"));
            && BaseSimplify(h, Hiding, sum, false) == Some(Add(ty, ConstInt(ty, 0), Symbol(ty, "x")))
            && Simplify(h, Hiding, sum, false) == Some(Add(ty, ConstInt(ty, 0), Symbol(ty, "x")))
            && AddSimplify(h, Hiding, sum, false) == None
            && Simplify(h, Overriding, sum, false) == None
  {
  }
}
