/**
  The offset resolver (`object_rec`): descends from the root expression of
  an object through array elements and struct/union members to the
  sub-element that lies at a given byte offset.
*/
module OffsetResolver {
  import opened Outcomes
  import opened Integers
  import opened Irep

  /** What the resolver needs from its surroundings: the byte size of a type
      (`pointer_offset_size`) and the width of `int` (used for index constants). */
  datatype Platform = Platform(offsetSize: Type -> nat, intWidth: nat)

  function IndexType(p: Platform): Type
  {
    UnsignedBv(p.intWidth)
  }

  /** The element access `src[k]` of an array whose elements have type `elem`. */
  function ElementOf(p: Platform, src: Expr, elem: Type, k: int): Expr
  {
    Index(elem, src, ConstInt(IndexType(p), k))
  }

  /** The member access `src.f`. */
  function MemberOf(src: Expr, f: Field): Expr
  {
    Member(f.ty, src, f.name)
  }

  /** Total byte size of a list of members. */
  function SizeSum(p: Platform, fs: seq<Field>): nat
  {
    if |fs| == 0 then 0 else SizeSum(p, fs[..|fs| - 1]) + p.offsetSize(fs[|fs| - 1].ty)
  }

  /** Offset at which the resolver considers member `i` to start: the leading
      bias of one unit plus the sizes of all earlier members. */
  function MemberStart(p: Platform, ms: seq<Field>, i: nat): int
    requires i <= |ms|
  {
    1 + SizeSum(p, ms[..i])
  }

  lemma MemberStartStep(p: Platform, ms: seq<Field>, i: nat)
    requires i < |ms|
    ensures MemberStart(p, ms, i + 1) == MemberStart(p, ms, i) + p.offsetSize(ms[i].ty)
  {
    assert ms[..i + 1][..i] == ms[..i];
  }

  lemma {:induction false} MemberStartMonotone(p: Platform, ms: seq<Field>, i: nat, j: nat)
    requires i <= j <= |ms|
    ensures MemberStart(p, ms, i) <= MemberStart(p, ms, j)
    decreases j
  {
    if i < j {
      MemberStartStep(p, ms, j - 1);
      MemberStartMonotone(p, ms, i, j - 1);
    }
  }

  /** Outcome of the member walk: the whole aggregate, or member `pos`
      starting at `start`. */
  datatype Selection = Whole | Select(pos: nat, start: int)

  /** The member walk from member `pos` on, `current` being that member's start. */
  function SelectFrom(p: Platform, ms: seq<Field>, offset: int, pos: nat, current: int): (s: Selection)
    requires pos <= |ms| && current <= offset
    requires current == MemberStart(p, ms, pos)
    ensures s.Select? ==> pos <= s.pos < |ms| && s.start == MemberStart(p, ms, s.pos)
    ensures s.Select? ==> current <= s.start <= offset < s.start + p.offsetSize(ms[s.pos].ty)
    ensures s.Select? ==> forall j :: pos <= j <= s.pos ==> p.offsetSize(ms[j].ty) > 0
    decreases |ms| - pos
  {
    if pos == |ms| then Whole
    else
      var size := p.offsetSize(ms[pos].ty);
      if size == 0 then Whole
      else if current + size > offset then Select(pos, current)
      else
        MemberStartStep(p, ms, pos);
        SelectFrom(p, ms, offset, pos + 1, current + size)
  }

  /** The member selected for a positive offset (the walk starts at 1). */
  function SelectMember(p: Platform, ms: seq<Field>, offset: int): (s: Selection)
    requires offset >= 1
    ensures s.Select? ==> s.pos < |ms| && 1 <= s.start <= offset < s.start + p.offsetSize(ms[s.pos].ty)
  {
    SelectFrom(p, ms, offset, 0, 1)
  }

  lemma {:induction false} SelectFromSpec(p: Platform, ms: seq<Field>, offset: int, pos: nat, current: int, i: nat, start: int)
    requires pos <= |ms| && current <= offset
    requires current == MemberStart(p, ms, pos)
    ensures SelectFrom(p, ms, offset, pos, current) == Select(i, start)
        <==> pos <= i < |ms| && start == MemberStart(p, ms, i)
             && (forall j :: pos <= j <= i ==> p.offsetSize(ms[j].ty) > 0)
             && start <= offset < start + p.offsetSize(ms[i].ty)
    decreases |ms| - pos
  {
    if pos <= i < |ms| && start == MemberStart(p, ms, i)
       && (forall j :: pos <= j <= i ==> p.offsetSize(ms[j].ty) > 0)
       && start <= offset < start + p.offsetSize(ms[i].ty)
    {
      var size := p.offsetSize(ms[pos].ty);
      assert size > 0;
      MemberStartStep(p, ms, pos);
      if pos < i {
        MemberStartMonotone(p, ms, pos + 1, i);
        SelectFromSpec(p, ms, offset, pos + 1, current + size, i, start);
      }
    }
  }

  /** The member walk selects member `i` exactly when no member up to `i`
      has size zero and `i`'s byte range [start, start + size) holds the offset. */
  lemma SelectMemberSpec(p: Platform, ms: seq<Field>, offset: int, i: nat, start: int)
    requires offset >= 1
    ensures SelectMember(p, ms, offset) == Select(i, start)
        <==> i < |ms| && start == MemberStart(p, ms, i)
             && (forall j :: 0 <= j <= i ==> p.offsetSize(ms[j].ty) > 0)
             && start <= offset < start + p.offsetSize(ms[i].ty)
  {
    SelectFromSpec(p, ms, offset, 0, 1, i, start);
  }

  /** A zero-size member reached by the walk stops it: the whole aggregate is the answer. */
  lemma ZeroSizeMemberStopsWalk(p: Platform, ms: seq<Field>, offset: int, j: nat)
    requires offset >= 1 && j < |ms|
    requires p.offsetSize(ms[j].ty) == 0 && MemberStart(p, ms, j) <= offset
    ensures SelectMember(p, ms, offset) == Whole
  {
    var s := SelectMember(p, ms, offset);
    if s.Select? {
      SelectMemberSpec(p, ms, offset, s.pos, s.start);
      assert s.pos < j;
      MemberStartStep(p, ms, s.pos);
      MemberStartMonotone(p, ms, s.pos + 1, j);
      assert false;
    }
  }

  /** Where the struct branch reads its member list from: the type of the
      expression being resolved, or the type argument passed down by the caller. */
  datatype MembersFrom = SourceType | TargetType

  function StructLayout(from: MembersFrom, pointerType: Type, srcType: Type): Option<seq<Field>>
    requires srcType.Struct?
  {
    match from
    case SourceType => Some(srcType.members)
    case TargetType => if pointerType.Struct? then Some(pointerType.members) else None
  }

  /** The resolver, parameterised by where struct members are read from. */
  function Resolve(p: Platform, offset: int, pointerType: Type, src: Expr, from: MembersFrom): (r: Result<Expr>)
    ensures from == SourceType && offset >= 0 ==> r.Success?
    decreases Abs(offset), src.ty
  {
    match src.ty
    case Array(elem) =>
      var size := p.offsetSize(elem);
      if size == 0 then Success(src)
      else
        Resolve(p, TMod(offset, size), pointerType, ElementOf(p, src, elem, TDiv(offset, size)), from)
    case Struct(_) =>
      if offset < 0 then Failure(AssertionFailed)
      else if offset == 0 then Success(src)
      else
        var layout := StructLayout(from, pointerType, src.ty);
        if layout.None? then Failure(UndefinedBehaviour)
        else
          var ms := layout.value;
          var s := SelectMember(p, ms, offset);
          if s.Whole? then Success(src)
          else Resolve(p, offset - s.start, pointerType, MemberOf(src, ms[s.pos]), from)
    case _ => Success(src)
  }

  /** `object_rec` with the evidently intended struct layout: the members of
      the aggregate being descended into. */
  function ObjectRec(p: Platform, offset: int, pointerType: Type, src: Expr): (r: Result<Expr>)
    ensures offset >= 0 ==> r.Success?
    ensures src.ty.Struct? && offset < 0 ==> r == Failure(AssertionFailed)
    ensures src.ty.Struct? && offset == 0 ==> r == Success(src)
    ensures src.ty.Array? && p.offsetSize(src.ty.subtype) == 0 ==> r == Success(src)
    ensures !src.ty.Array? && !src.ty.Struct? ==> r == Success(src)
  {
    Resolve(p, offset, pointerType, src, SourceType)
  }

  /** `object_rec` as written: the struct branch takes its member list from
      the type argument, which the caller passes as a pointer type. */
  function ObjectRecAsWritten(p: Platform, offset: int, pointerType: Type, src: Expr): (r: Result<Expr>)
    ensures src.ty.Struct? && offset > 0 && !pointerType.Struct? ==> r == Failure(UndefinedBehaviour)
    ensures src.ty.Struct? && offset == 0 ==> r == Success(src)
    ensures !src.ty.Array? && !src.ty.Struct? ==> r == Success(src)
  {
    Resolve(p, offset, pointerType, src, TargetType)
  }

  /** At offset 0 the resolver never walks a member list, so where the
      struct branch would read it from makes no difference. */
  lemma {:induction false} OffsetZeroIgnoresMemberSource(p: Platform, pointerType: Type, src: Expr, from: MembersFrom)
    ensures Resolve(p, 0, pointerType, src, from) == ObjectRec(p, 0, pointerType, src)
    decreases src.ty
  {
    if src.ty.Array? && p.offsetSize(src.ty.subtype) > 0 {
      var size := p.offsetSize(src.ty.subtype);
      assert TDiv(0, size) == 0 && TMod(0, size) == 0;
      OffsetZeroIgnoresMemberSource(p, pointerType, ElementOf(p, src, src.ty.subtype, 0), from);
    }
  }

  /** A positive offset at or past the end of the last member leaves the
      walk without a selection: the struct itself is the answer. */
  lemma ExhaustedWalkReturnsStruct(p: Platform, offset: int, pointerType: Type, src: Expr)
    requires src.ty.Struct? && offset >= 1
    requires MemberStart(p, src.ty.members, |src.ty.members|) <= offset
    ensures ObjectRec(p, offset, pointerType, src) == Success(src)
  {
    var ms := src.ty.members;
    var s := SelectMember(p, ms, offset);
    if s.Select? {
      MemberStartStep(p, ms, s.pos);
      MemberStartMonotone(p, ms, s.pos + 1, |ms|);
      assert false;
    }
  }

  /** One array step: a non-zero element size splits the offset into an
      element index and a remainder below the element size. */
  lemma ArrayStep(p: Platform, offset: int, pointerType: Type, src: Expr) returns (index: int, rest: int)
    requires src.ty.Array? && p.offsetSize(src.ty.subtype) > 0
    ensures index * p.offsetSize(src.ty.subtype) + rest == offset
    ensures Abs(rest) < p.offsetSize(src.ty.subtype)
    ensures offset >= 0 ==> 0 <= index && 0 <= rest && 0 <= index * p.offsetSize(src.ty.subtype) <= offset
    ensures offset < 0 ==> index <= 0 && rest <= 0
    ensures ObjectRec(p, offset, pointerType, src)
         == ObjectRec(p, rest, pointerType, ElementOf(p, src, src.ty.subtype, index))
  {
    var size := p.offsetSize(src.ty.subtype);
    index, rest := TDiv(offset, size), TMod(offset, size);
  }

  /** One struct step: a positive offset selects the member whose byte range
      holds it and continues with the offset relative to that member. */
  lemma StructStep(p: Platform, offset: int, pointerType: Type, src: Expr, i: nat)
    requires src.ty.Struct? && offset >= 1 && i < |src.ty.members|
    requires forall j :: 0 <= j <= i ==> p.offsetSize(src.ty.members[j].ty) > 0
    requires MemberStart(p, src.ty.members, i) <= offset
    requires offset < MemberStart(p, src.ty.members, i) + p.offsetSize(src.ty.members[i].ty)
    ensures ObjectRec(p, offset, pointerType, src)
         == ObjectRec(p, offset - MemberStart(p, src.ty.members, i), pointerType, MemberOf(src, src.ty.members[i]))
  {
    SelectMemberSpec(p, src.ty.members, offset, i, MemberStart(p, src.ty.members, i));
  }

  /** A path of selectors from an object's root down to a sub-element. */
  datatype Step = ElementAt(index: int) | MemberAt(pos: nat)

  /** The expression a selector path denotes; a step that does not fit the type stops. */
  function Follow(p: Platform, e: Expr, path: seq<Step>): Expr
    decreases |path|
  {
    if path == [] then e
    else
      match (e.ty, path[0])
      case (Array(elem), ElementAt(k)) => Follow(p, ElementOf(p, e, elem, k), path[1..])
      case (Struct(ms), MemberAt(i)) => if i < |ms| then Follow(p, MemberOf(e, ms[i]), path[1..]) else e
      case _ => e
  }

  /** The byte offset of a selector path within an object of type `ty`. */
  function PathOffset(p: Platform, ty: Type, path: seq<Step>): int
    decreases |path|
  {
    if path == [] then 0
    else
      match (ty, path[0])
      case (Array(elem), ElementAt(k)) => k * p.offsetSize(elem) + PathOffset(p, elem, path[1..])
      case (Struct(ms), MemberAt(i)) =>
        if i < |ms| then MemberStart(p, ms, i) + PathOffset(p, ms[i].ty, path[1..]) else 0
      case _ => 0
  }

  /** Prepending an element step to a path into `src[k]`. */
  lemma ElementPath(p: Platform, src: Expr, k: int, tail: seq<Step>)
    requires src.ty.Array?
    ensures Follow(p, src, [ElementAt(k)] + tail) == Follow(p, ElementOf(p, src, src.ty.subtype, k), tail)
    ensures PathOffset(p, src.ty, [ElementAt(k)] + tail)
         == k * p.offsetSize(src.ty.subtype) + PathOffset(p, src.ty.subtype, tail)
  {
  }

  /** Prepending a member step to a path into `src.m`. */
  lemma MemberPath(p: Platform, src: Expr, i: nat, tail: seq<Step>)
    requires src.ty.Struct? && i < |src.ty.members|
    ensures Follow(p, src, [MemberAt(i)] + tail) == Follow(p, MemberOf(src, src.ty.members[i]), tail)
    ensures PathOffset(p, src.ty, [MemberAt(i)] + tail)
         == MemberStart(p, src.ty.members, i) + PathOffset(p, src.ty.members[i].ty, tail)
  {
  }

  /** For a non-negative offset the resolver returns the sub-element reached
      by some selector path whose own offset does not exceed the requested
      one; when it descended at all, the requested offset lies inside the
      byte range of the element it returns. */
  lemma {:induction false} ObjectRecLocates(p: Platform, offset: int, pointerType: Type, src: Expr)
    returns (path: seq<Step>)
    requires offset >= 0
    ensures ObjectRec(p, offset, pointerType, src) == Success(Follow(p, src, path))
    ensures 0 <= PathOffset(p, src.ty, path) <= offset
    ensures path != [] ==> offset < PathOffset(p, src.ty, path) + p.offsetSize(Follow(p, src, path).ty)
    decreases Abs(offset), src.ty, 1
  {
    if src.ty.Array? && p.offsetSize(src.ty.subtype) > 0 {
      path := ElementLocates(p, offset, pointerType, src);
    } else if src.ty.Struct? && offset > 0 && SelectMember(p, src.ty.members, offset).Select? {
      path := MemberLocates(p, offset, pointerType, src);
    } else {
      path := [];
      if src.ty.Struct? && offset > 0 {
        assert ObjectRec(p, offset, pointerType, src) == Success(src);
      }
    }
  }

  lemma {:induction false} ElementLocates(p: Platform, offset: int, pointerType: Type, src: Expr)
    returns (path: seq<Step>)
    requires offset >= 0 && src.ty.Array? && p.offsetSize(src.ty.subtype) > 0
    ensures ObjectRec(p, offset, pointerType, src) == Success(Follow(p, src, path))
    ensures 0 <= PathOffset(p, src.ty, path) <= offset
    ensures path != [] ==> offset < PathOffset(p, src.ty, path) + p.offsetSize(Follow(p, src, path).ty)
    decreases Abs(offset), src.ty, 0
  {
    var k, rest := ArrayStep(p, offset, pointerType, src);
    var sub := ElementOf(p, src, src.ty.subtype, k);
    var tail := ObjectRecLocates(p, rest, pointerType, sub);
    ElementPath(p, src, k, tail);
    path := [ElementAt(k)] + tail;
  }

  lemma {:induction false} MemberLocates(p: Platform, offset: int, pointerType: Type, src: Expr)
    returns (path: seq<Step>)
    requires offset > 0 && src.ty.Struct? && SelectMember(p, src.ty.members, offset).Select?
    ensures ObjectRec(p, offset, pointerType, src) == Success(Follow(p, src, path))
    ensures 0 <= PathOffset(p, src.ty, path) <= offset
    ensures path != [] ==> offset < PathOffset(p, src.ty, path) + p.offsetSize(Follow(p, src, path).ty)
    decreases Abs(offset), src.ty, 0
  {
    var s := SelectMember(p, src.ty.members, offset);
    SelectMemberSpec(p, src.ty.members, offset, s.pos, s.start);
    StructStep(p, offset, pointerType, src, s.pos);
    var sub := MemberOf(src, src.ty.members[s.pos]);
    var tail := ObjectRecLocates(p, offset - s.start, pointerType, sub);
    MemberPath(p, src, s.pos, tail);
    path := [MemberAt(s.pos)] + tail;
  }

  /** A platform for worked examples: 4-byte scalars, 8-byte pointers, 32-bit int. */
  function ExamplePlatform(): Platform
  {
    Platform((ty: Type) => if ty.Scalar? then 4 else if ty.Pointer? then 8 else 0, 32)
  }

  /** Element size 4: offset 14 is element 3 (remainder 2 stays inside the
      scalar), offset 0 is element 0, and offset -6 truncates to element -1. */
  lemma ArraySplitExample(a: Expr, pt: Type)
    requires a.ty == Array(Scalar)
    ensures ObjectRec(ExamplePlatform(), 14, pt, a) == Success(ElementOf(ExamplePlatform(), a, Scalar, 3))
    ensures ObjectRec(ExamplePlatform(), 0, pt, a) == Success(ElementOf(ExamplePlatform(), a, Scalar, 0))
    ensures ObjectRec(ExamplePlatform(), -6, pt, a) == Success(ElementOf(ExamplePlatform(), a, Scalar, -1))
  {
    var p := ExamplePlatform();
    var i, r := ArrayStep(p, 14, pt, a);
    i, r := ArrayStep(p, 0, pt, a);
    i, r := ArrayStep(p, -6, pt, a);
  }

  /** Members of sizes 4, 4 and 8 start at 1, 5 and 9: offset 6 selects the second. */
  lemma StructSelectionExample(s: Expr, pt: Type)
    requires s.ty == Struct([Field("a", Scalar), Field("b", Scalar), Field("c", Pointer(Empty))])
    ensures ObjectRec(ExamplePlatform(), 6, pt, s) == Success(Member(Scalar, s, "b"))
  {
    var p := ExamplePlatform();
    var ms := s.ty.members;
    MemberStartStep(p, ms, 0);
    assert ms[..0] == [];
    StructStep(p, 6, pt, s, 1);
  }

  /** With the member list read from the pointer type, as written, the same
      request reads a struct layout out of a type that has none. */
  lemma AsWrittenStructLayoutUndefined(s: Expr)
    requires s.ty == Struct([Field("a", Scalar), Field("b", Scalar), Field("c", Pointer(Empty))])
    ensures ObjectRecAsWritten(ExamplePlatform(), 6, Pointer(Scalar), s) == Failure(UndefinedBehaviour)
    ensures ObjectRec(ExamplePlatform(), 6, Pointer(Scalar), s).Success?
  {
  }
}
