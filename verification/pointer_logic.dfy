/**
  The object/offset pointer model (`pointer_logict`): a growing table that
  gives every addressable root a dense object number, two reserved
  sentinel objects, and the synthesis of an addressing expression from an
  (object, offset) pair.
*/
module PointerLogic {
  import opened Outcomes
  import opened Integers
  import opened Irep
  import opened OffsetResolver

  /** A pointer value: an object number and a byte offset into that object. */
  datatype PointerValue = PointerValue(objectId: nat, offset: int)

  /** The table: root expression to object number, its inverse `lookup`,
      and the numbers the constructor assigned to the two sentinels. */
  datatype PointerLogic = PointerLogic(
    objects: map<Expr, nat>,
    lookup: seq<Expr>,
    nullObject: nat,
    invalidObject: nat)
  {
    /** `lookup` and `objects` are inverse to one another, equally large,
        and only canonical roots are registered. */
    ghost predicate Valid()
    {
      && |objects| == |lookup|
      && (forall i :: 0 <= i < |lookup| ==> lookup[i] in objects && objects[lookup[i]] == i)
      && (forall e :: e in objects ==> objects[e] < |lookup| && lookup[objects[e]] == e)
      && (forall e :: e in objects ==> Root(e) == e)
    }
  }

  /** The type of the sentinel symbols: pointer to empty. */
  const SentinelType: Type := Pointer(Empty)
  const NullSymbol: Expr := Symbol(SentinelType, "NULL")
  const InvalidSymbol: Expr := Symbol(SentinelType, "INVALID")

  /** Name of the placeholder for an object number outside the table. */
  function InvalidName(objectId: nat): string
  {
    "INVALID" + NatToString(objectId)
  }

  /** A table whose sentinels sit where the constructor put them. */
  ghost predicate HasSentinels(t: PointerLogic)
  {
    && t.nullObject == 0 && t.invalidObject == 1
    && |t.lookup| >= 2 && t.lookup[0] == NullSymbol && t.lookup[1] == InvalidSymbol
  }

  /** Registers a canonical root that is not yet in the table under the next number. */
  function Insert(t: PointerLogic, e: Expr): (r: PointerLogic)
    requires t.Valid() && Root(e) == e && e !in t.objects
    ensures r.Valid()
    ensures r.lookup == t.lookup + [e] && r.objects == t.objects[e := |t.lookup|]
    ensures r.nullObject == t.nullObject && r.invalidObject == t.invalidObject
  {
    var id := |t.objects|;
    var r := t.(objects := t.objects[e := id], lookup := t.lookup + [e]);
    assert |r.objects| == |t.objects| + 1;
    assert forall i :: 0 <= i < |t.lookup| ==> r.lookup[i] == t.lookup[i] && t.lookup[i] != e;
    r
  }

  /** `add_object`: the object number of the root of `e`, registering the
      root under the next number when it is new. */
  function AddObject(t: PointerLogic, e: Expr): (r: (PointerLogic, nat))
    requires t.Valid()
    ensures r.0.Valid()
    ensures r.1 < |r.0.lookup| && r.0.lookup[r.1] == Root(e) && r.0.objects[Root(e)] == r.1
    ensures Root(e) in t.objects ==> r.0 == t
    ensures Root(e) !in t.objects ==>
      && r.1 == |t.lookup|
      && r.0.lookup == t.lookup + [Root(e)]
      && r.0.objects == t.objects[Root(e) := r.1]
    ensures r.0.nullObject == t.nullObject && r.0.invalidObject == t.invalidObject
  {
    match e
    case Index(_, source, _) => AddObject(t, source)
    case Member(_, source, _) => AddObject(t, source)
    case _ =>
      if e in t.objects then (t, t.objects[e])
      else (Insert(t, e), |t.objects|)
  }

  /** An access and the object it selects from share one object number, and
      registering either has the same effect on the table. */
  lemma AddObjectIgnoresSelectors(t: PointerLogic, e: Expr, ty: Type, idx: Expr, name: string)
    requires t.Valid()
    ensures AddObject(t, Index(ty, e, idx)) == AddObject(t, e)
    ensures AddObject(t, Member(ty, e, name)) == AddObject(t, e)
    ensures AddObject(t, e) == AddObject(t, Root(e))
  {
  }

  /** Registering the same expression twice returns the same number and
      leaves the table as the first registration left it. */
  lemma AddObjectIdempotent(t: PointerLogic, e: Expr)
    requires t.Valid()
    ensures AddObject(AddObject(t, e).0, e) == AddObject(t, e)
  {
  }

  /** Object numbers are dense: exactly 0 .. |lookup| - 1 are in use. */
  lemma ObjectNumbersDense(t: PointerLogic)
    requires t.Valid()
    ensures forall i: nat :: i in t.objects.Values <==> i < |t.lookup|
  {
    forall i: nat | i < |t.lookup|
      ensures i in t.objects.Values
    {
      assert t.lookup[i] in t.objects && t.objects[t.lookup[i]] == i;
    }
  }

  /** Registration never disturbs the sentinels. */
  lemma AddObjectKeepsSentinels(t: PointerLogic, e: Expr)
    requires t.Valid() && HasSentinels(t)
    ensures HasSentinels(AddObject(t, e).0)
  {
  }

  /** The constructor: an empty table, then NULL and INVALID registered in
      that order. */
  function Init(): (t: PointerLogic)
    ensures t.Valid() && HasSentinels(t)
    ensures t.lookup == [NullSymbol, InvalidSymbol] && |t.objects| == 2
    ensures t.objects[NullSymbol] == 0 && t.objects[InvalidSymbol] == 1
  {
    var empty := PointerLogic(map[], [], 0, 0);
    var (t1, nullObject) := AddObject(empty, NullSymbol);
    assert NullSymbol != InvalidSymbol by { assert NullSymbol.name != InvalidSymbol.name; }
    var (t2, invalidObject) := AddObject(t1, InvalidSymbol);
    t2.(nullObject := nullObject, invalidObject := invalidObject)
  }

  /** `add_object` over a sequence of expressions, in order. Distinct roots
      get distinct numbers, equal roots the same number, and numbers are
      handed out past the existing ones without gaps. */
  method AddObjects(t: PointerLogic, es: seq<Expr>) returns (t': PointerLogic, ids: seq<nat>)
    requires t.Valid()
    ensures t'.Valid()
    ensures t.lookup <= t'.lookup
    ensures t'.nullObject == t.nullObject && t'.invalidObject == t.invalidObject
    ensures |ids| == |es|
    ensures forall j :: 0 <= j < |es| ==> ids[j] < |t'.lookup| && t'.lookup[ids[j]] == Root(es[j])
    ensures forall j, k :: 0 <= j < |es| && 0 <= k < |es| ==> (ids[j] == ids[k] <==> Root(es[j]) == Root(es[k]))
    ensures forall i: nat :: |t.lookup| <= i < |t'.lookup| ==> i in ids
  {
    t', ids := t, [];
    var n := 0;
    while n < |es|
      invariant 0 <= n <= |es|
      invariant t'.Valid()
      invariant t.lookup <= t'.lookup
      invariant t'.nullObject == t.nullObject && t'.invalidObject == t.invalidObject
      invariant |ids| == n
      invariant forall j :: 0 <= j < n ==> ids[j] < |t'.lookup| && t'.lookup[ids[j]] == Root(es[j])
      invariant forall i: nat :: |t.lookup| <= i < |t'.lookup| ==> i in ids
    {
      var (next, id) := AddObject(t', es[n]);
      t', ids := next, ids + [id];
      n := n + 1;
    }
  }

  /** `pointer_expr` for a pointer value: a placeholder symbol for the
      sentinels and for numbers outside the table, otherwise the address of
      the sub-element the offset resolves to. `from` says where the struct
      branch of the resolver reads its member list: `TargetType` is the code
      as written (through the pointer type argument), `SourceType` the
      evidently intended reading (the struct being descended into). */
  function PointerExpr(t: PointerLogic, p: Platform, ptr: PointerValue, ty: Type, from: MembersFrom): (r: Result<Expr>)
    requires t.Valid()
    ensures ptr.objectId == t.nullObject ==> r == Success(Symbol(ty, "NULL"))
    ensures ptr.objectId != t.nullObject && ptr.objectId == t.invalidObject ==> r == Success(Symbol(ty, "INVALID"))
    ensures ptr.objectId != t.nullObject && ptr.objectId != t.invalidObject && ptr.objectId >= |t.lookup|
            ==> r == Success(Symbol(ty, InvalidName(ptr.objectId)))
    ensures (ptr.objectId != t.nullObject && ptr.objectId != t.invalidObject && ptr.objectId < |t.lookup|
             && r.Success?) ==> ty.Pointer? && r.value.AddressOf? && r.value.ty == ty
    ensures from == SourceType && ptr.objectId < |t.lookup| && ptr.offset >= 0 && ty.Pointer? ==> r.Success?
    ensures (from == TargetType && ptr.objectId != t.nullObject && ptr.objectId != t.invalidObject
             && ptr.objectId < |t.lookup| && ty.Pointer? && t.lookup[ptr.objectId].ty.Struct? && ptr.offset > 0)
            ==> r == Failure(UndefinedBehaviour)
    ensures (ptr.objectId != t.nullObject && ptr.objectId != t.invalidObject && ptr.objectId < |t.lookup|
             && !ty.Pointer?) ==> r.Failure?
  {
    if ptr.objectId == t.nullObject then Success(Symbol(ty, "NULL"))
    else if ptr.objectId == t.invalidObject then Success(Symbol(ty, "INVALID"))
    else if ptr.objectId >= |t.objects| then Success(Symbol(ty, InvalidName(ptr.objectId)))
    else
      match Resolve(p, ptr.offset, ty, t.lookup[ptr.objectId], from)
      case Failure(err) => Failure(err)
      case Success(deep) =>
        if ty.Pointer? then Success(AddressOf(ty, deep)) else Failure(AssertionFailed)
  }

  /** `pointer_expr` for a bare object number: the pointer to its offset 0.
      At offset 0 the resolver never walks a member list, so both readings
      of the struct branch agree. */
  function PointerExprOfObject(t: PointerLogic, p: Platform, objectId: nat, ty: Type, from: MembersFrom): (r: Result<Expr>)
    requires t.Valid()
    ensures objectId == t.nullObject ==> r == Success(Symbol(ty, "NULL"))
    ensures objectId != t.nullObject && objectId == t.invalidObject ==> r == Success(Symbol(ty, "INVALID"))
    ensures objectId != t.nullObject && objectId != t.invalidObject && objectId >= |t.lookup|
            ==> r == Success(Symbol(ty, InvalidName(objectId)))
    ensures (objectId != t.nullObject && objectId != t.invalidObject && objectId < |t.lookup| && ty.Pointer?)
            ==> r.Success? && r.value.AddressOf? && r.value.ty == ty
    ensures r == PointerExpr(t, p, PointerValue(objectId, 0), ty, SourceType)
  {
    var ptr := PointerValue(objectId, 0);
    if objectId < |t.lookup| then
      OffsetZeroIgnoresMemberSource(p, ty, t.lookup[objectId], from);
      PointerExpr(t, p, ptr, ty, from)
    else PointerExpr(t, p, ptr, ty, from)
  }

  /** Sentinels and numbers outside the table render without consulting the offset. */
  lemma PlaceholderIgnoresOffset(t: PointerLogic, p: Platform, objectId: nat, off1: int, off2: int, ty: Type,
                                 from1: MembersFrom, from2: MembersFrom)
    requires t.Valid()
    requires objectId == t.nullObject || objectId == t.invalidObject || objectId >= |t.lookup|
    ensures PointerExpr(t, p, PointerValue(objectId, off1), ty, from1)
         == PointerExpr(t, p, PointerValue(objectId, off2), ty, from2)
    ensures PointerExpr(t, p, PointerValue(objectId, off1), ty, from1).Success?
    ensures PointerExpr(t, p, PointerValue(objectId, off1), ty, from1).value.Symbol?
  {
  }

  /** Two different out-of-range numbers give two different placeholders, and
      neither is the plain NULL or INVALID placeholder. */
  lemma OutOfRangePlaceholdersDistinct(t: PointerLogic, p: Platform, a: PointerValue, b: PointerValue, ty: Type,
                                       from: MembersFrom)
    requires t.Valid() && HasSentinels(t)
    requires a.objectId >= |t.lookup| && b.objectId >= |t.lookup| && a.objectId != b.objectId
    ensures PointerExpr(t, p, a, ty, from) != PointerExpr(t, p, b, ty, from)
    ensures PointerExpr(t, p, a, ty, from) != Success(Symbol(ty, "NULL"))
    ensures PointerExpr(t, p, a, ty, from) != Success(Symbol(ty, "INVALID"))
  {
    var na, nb := InvalidName(a.objectId), InvalidName(b.objectId);
    NatToStringInjective(a.objectId, b.objectId);
    assert na[7..] == NatToString(a.objectId) && nb[7..] == NatToString(b.objectId);
    assert |na| > |"INVALID"| && na[0] != "NULL"[0];
  }

  /** A real object at a non-negative offset, asked for as a pointer type,
      yields the address of a sub-element of its root: one reached by a
      selector path whose offset is at most the requested one, and whose
      byte range holds the offset when the path is not empty. This is stated
      for the intended struct branch; as written, a struct root at a
      positive offset is undefined behaviour (`PointerExprAsWrittenStruct`). */
  lemma PointerExprAddressesSubElement(t: PointerLogic, p: Platform, ptr: PointerValue, ty: Type)
    returns (path: seq<Step>)
    requires t.Valid()
    requires ptr.objectId != t.nullObject && ptr.objectId != t.invalidObject && ptr.objectId < |t.lookup|
    requires ptr.offset >= 0 && ty.Pointer?
    ensures PointerExpr(t, p, ptr, ty, SourceType) == Success(AddressOf(ty, Follow(p, t.lookup[ptr.objectId], path)))
    ensures 0 <= PathOffset(p, t.lookup[ptr.objectId].ty, path) <= ptr.offset
    ensures path != [] ==> ptr.offset < PathOffset(p, t.lookup[ptr.objectId].ty, path)
                                        + p.offsetSize(Follow(p, t.lookup[ptr.objectId], path).ty)
  {
    path := ObjectRecLocates(p, ptr.offset, ty, t.lookup[ptr.objectId]);
  }

  /** The bare-number form addresses the very start of a real object. */
  lemma PointerExprOfObjectAddressesStart(t: PointerLogic, p: Platform, objectId: nat, ty: Type, from: MembersFrom)
    returns (path: seq<Step>)
    requires t.Valid()
    requires objectId != t.nullObject && objectId != t.invalidObject && objectId < |t.lookup| && ty.Pointer?
    ensures PointerExprOfObject(t, p, objectId, ty, from) == Success(AddressOf(ty, Follow(p, t.lookup[objectId], path)))
    ensures PathOffset(p, t.lookup[objectId].ty, path) == 0
  {
    path := PointerExprAddressesSubElement(t, p, PointerValue(objectId, 0), ty);
  }

  /** The struct branch as written, reached through `pointer_expr`: with a
      struct of members of sizes 4, 4 and 8 registered as a real object and
      the pointer type pointer-to-scalar, offset 6 is undefined behaviour,
      while the intended reading gives the address of member `b`. */
  lemma PointerExprAsWrittenStruct(t: PointerLogic, objectId: nat, s: Expr)
    requires t.Valid()
    requires objectId != t.nullObject && objectId != t.invalidObject && objectId < |t.lookup|
    requires t.lookup[objectId] == s
    requires s.ty == Struct([Field("a", Scalar), Field("b", Scalar), Field("c", Pointer(Empty))])
    ensures PointerExpr(t, ExamplePlatform(), PointerValue(objectId, 6), Pointer(Scalar), TargetType)
         == Failure(UndefinedBehaviour)
    ensures PointerExpr(t, ExamplePlatform(), PointerValue(objectId, 6), Pointer(Scalar), SourceType)
         == Success(AddressOf(Pointer(Scalar), Member(Scalar, s, "b")))
  {
    StructSelectionExample(s, Pointer(Scalar));
  }
}
