# ESBMC pointer logic and generic expression simplifier — a Dafny model

This project models two pieces of the ESBMC bounded model checker that work on
its expression trees:

- **The object/offset pointer model** (`pointer_logict`). An object table gives
  every addressable root (a whole variable, array or struct instance) a dense
  object number and keeps the inverse `lookup` sequence. The constructor
  registers the `NULL` and `INVALID` sentinels as objects 0 and 1.
  `add_object` strips index and member selectors before it registers a root.
  `pointer_expr` turns an (object, offset) pair into a placeholder symbol or
  into the address of a sub-element. `object_rec` is the offset resolver: it
  splits array offsets by element size with truncating division, and it walks
  struct members with a cumulative bound that starts at 1.
- **The generic simplifier** (`expr2t::do_simplify` and `add2t::do_simplify`).
  It rewrites bottom-up with copy-on-write and returns "no change" (`NULL`,
  here `None`) when nothing below a node changed.

Files, one module each:

- `outcomes.dfy` (`Outcomes`): `Option`, `Result` and the two error kinds. These
  are a fatal `assert` and undefined behaviour.
- `integers.dfy` (`Integers`): division truncating toward zero (as the source's
  big-integer type divides) and decimal rendering of numbers (`i2string`).
- `irep.dfy` (`Irep`): type descriptors, expression nodes, operand lists,
  clone-with-new-operands, tree size, and the canonical root of an access.
- `offset_resolver.dfy` (`OffsetResolver`): `object_rec`, the member walk, and
  selector paths with their byte offsets.
- `pointer_logic.dfy` (`PointerLogic`): the object table, the constructor and
  both `pointer_expr` overloads.
- `simplifier.dfy` (`Simplifier`): virtual dispatch, the base routine and the
  addition routine.

Some inputs are parameters: the byte size of a type (`pointer_offset_size`),
the width of `int` (used for index constants), and the `do_simplify` overrides
of kinds this model does not name. The expression `Node(id, ty, ops)` stands
for every such kind. `NoOverrides()` is the table of the code modelled here.

The model follows the code in four places where its behaviour is easy to
misread:

- A shallow call on a non-constant addition returns "no change". Only a deep
  call recurses into the operands.
- When the member walk runs past the last member, the resolver returns the
  struct itself (line 201).
- The struct branch reads its member list from the type argument and not from
  the aggregate. See "Findings". The resolver and `pointer_expr` take a
  `MembersFrom` argument: `TargetType` is that reading, `SourceType` the
  evidently intended one. `ObjectRecAsWritten` and
  `PointerExpr(..., TargetType)` follow the code; `ObjectRec`,
  `PointerExpr(..., SourceType)` and the path lemmas state the intended
  behaviour.
- `add2t::do_simplify(bool)` is not `const`, unlike
  `expr2t::do_simplify(bool) const`, so it hides the base routine instead of
  overriding it. See "Findings". The simplifier takes an `AddDispatch`
  argument: `Hiding` sends additions reached through an `expr2t` handle to the
  base routine, as written; `Overriding` sends them to the addition routine,
  as evidently intended.

Two properties of the simplifier are proved:

- `add2t::do_simplify` itself never reports a change, even when its operands
  changed. Its only re-attempt on the rebuilt sum is a shallow call, which
  answers "no change" under either dispatch; the rebuilt node is then
  dropped. With the intended dispatch, no addition ever simplifies. See
  `Simplifier.AddDropsSimplifiedOperands`.
- With only the routines shown, no expression ever simplifies, under either
  dispatch. See `Simplifier.ShownKindsNeverSimplify`.

## Model

| member | source | states |
|---|---|---|
| `Integers.TDiv` | solvers/flattening/pointer_logic.cpp:150 | the quotient rounds toward zero: for a non-negative offset `q*size <= offset < q*size + size`, and symmetrically for a negative one |
| `Integers.TMod` | solvers/flattening/pointer_logic.cpp:151 | quotient times size plus remainder is the offset; the remainder has the sign of the offset, is smaller than the size in magnitude, and is never larger than the offset in magnitude |
| `Integers.NatToStringInjective` | solvers/flattening/pointer_logic.cpp:108 | different object numbers render as different decimal strings |
| `Irep.WithOperands` | util/simplify_expr2.cpp:31-42 | a clone agrees with the node on everything but its operands (kind, type, name, value, member name), and its operand list is exactly the spliced list |
| `Irep.SameExceptOperandsDetermines` | util/simplify_expr2.cpp:31-42 | two nodes that agree on everything but their operands, and on their operands too, are the same node, so the clone's contract determines it |
| `Irep.WithOwnOperands` | util/simplify_expr2.cpp:36-43 | a clone that keeps every original operand is the original node |
| `Irep.OperandsSmaller` | util/simplify_expr2.cpp:19-21 | every operand is a strictly smaller tree than its node, so the operand recursion terminates |
| `Irep.Root` | solvers/flattening/pointer_logic.cpp:34-45 | stripping selectors leaves an expression that is neither an index nor a member access |
| `OffsetResolver.SelectFrom` | solvers/flattening/pointer_logic.cpp:173-198 | a selected member lies at or after the walk's position; it starts at its computed start, no earlier than the current bound and no later than the offset; its size is non-zero and its range reaches past the offset; every member walked past has non-zero size |
| `OffsetResolver.SelectMember` | solvers/flattening/pointer_logic.cpp:169-198 | for a positive offset, if a member is selected, it is in the list, starts between 1 and the offset, and ends past the offset |
| `OffsetResolver.SelectMemberSpec` | solvers/flattening/pointer_logic.cpp:169-198 | the walk selects member `i` at `start` exactly when no member up to `i` has size zero, `start` is 1 plus the sizes of the earlier members, and `[start, start + size)` holds the offset |
| `OffsetResolver.ZeroSizeMemberStopsWalk` | solvers/flattening/pointer_logic.cpp:177-180 | a zero-size member whose start the offset has reached ends the walk with the whole struct |
| `OffsetResolver.Resolve` | solvers/flattening/pointer_logic.cpp:133-202 | reading members from the aggregate's own type, a non-negative offset always resolves to a value |
| `OffsetResolver.ObjectRec` | solvers/flattening/pointer_logic.cpp:133-202 | a non-negative offset always resolves; a negative offset into a struct fires the assertion; offset 0 of a struct, an array of zero-size elements, and any non-aggregate resolve to the expression itself |
| `OffsetResolver.ObjectRecAsWritten` | solvers/flattening/pointer_logic.cpp:159-167 | with a non-struct type argument, a positive offset into a struct is undefined behaviour; offset 0 of a struct and any non-aggregate resolve to the expression itself |
| `OffsetResolver.ArrayStep` | solvers/flattening/pointer_logic.cpp:141-157 | with non-zero element size the offset splits into an index and a remainder, with `index*size + rest == offset` and `abs(rest) < size`; both are non-negative for a non-negative offset and non-positive for a negative one; resolution continues at `src[index]` with `rest` |
| `OffsetResolver.StructStep` | solvers/flattening/pointer_logic.cpp:182-192 | when member `i`'s range holds a positive offset, resolution continues at `src.member_i` with the offset less that member's start |
| `OffsetResolver.ObjectRecLocates` | solvers/flattening/pointer_logic.cpp:133-202 | a non-negative offset resolves to the end of some selector path from the root; the path's byte offset is between 0 and the requested offset; if the path is not empty, the offset lies inside the returned element's byte range |
| `OffsetResolver.ArraySplitExample` | solvers/flattening/pointer_logic.cpp:147-157 | with 4-byte elements, offset 14 resolves to element 3, offset 0 to element 0 and offset -6 to element -1 |
| `OffsetResolver.StructSelectionExample` | solvers/flattening/pointer_logic.cpp:169-192 | with member sizes 4, 4 and 8, offset 6 resolves to the second member |
| `OffsetResolver.OffsetZeroIgnoresMemberSource` | solvers/flattening/pointer_logic.cpp:141-167 | at offset 0 the resolver gives the same answer whichever type the struct branch reads its members from, because offset 0 never reaches the member walk |
| `OffsetResolver.ExhaustedWalkReturnsStruct` | solvers/flattening/pointer_logic.cpp:169-201 | a positive offset at or past the end of the last member selects no member, and the struct itself is returned |
| `OffsetResolver.AsWrittenStructLayoutUndefined` | solvers/flattening/pointer_logic.cpp:162-163 | the same struct request is undefined behaviour as written, yet resolves when members come from the struct itself |
| `PointerLogic.Insert` | solvers/flattening/pointer_logic.cpp:51-55 | a new root gets the next number (the old table size); `lookup` grows by exactly that root; the table stays consistent with equal sizes |
| `PointerLogic.AddObject` | solvers/flattening/pointer_logic.cpp:32-56 | the returned number maps to the root of the expression, in both directions; a registered root leaves the table unchanged; a new root gets the next number and is appended to `lookup`; the sentinels and the size equality are kept |
| `PointerLogic.AddObjectIgnoresSelectors` | solvers/flattening/pointer_logic.cpp:36-45 | `a[i]`, `a.f` and `a` get the same number and leave the same table |
| `PointerLogic.AddObjectIdempotent` | solvers/flattening/pointer_logic.cpp:46-49 | registering an expression again returns the same number and leaves the table unchanged |
| `PointerLogic.ObjectNumbersDense` | solvers/flattening/pointer_logic.cpp:51-55 | the numbers in use are exactly 0 up to one less than the length of `lookup` |
| `PointerLogic.AddObjectKeepsSentinels` | solvers/flattening/pointer_logic.cpp:46-55 | registration never moves NULL from object 0 or INVALID from object 1 |
| `PointerLogic.Init` | solvers/flattening/pointer_logic.cpp:216-228 | after construction NULL is object 0, INVALID is object 1, and the table holds exactly these two entries |
| `PointerLogic.AddObjects` | solvers/flattening/pointer_logic.cpp:32-56 | after registering a sequence, each expression's number maps back to its root; two numbers are equal exactly when the roots are equal; every newly used number belongs to one of the expressions, so there are no gaps; earlier entries are kept |
| `PointerLogic.PointerExpr` | solvers/flattening/pointer_logic.cpp:90-119 | NULL and INVALID give their symbols; an out-of-range number gives `INVALID<n>`; a real object with a pointer type gives an address of that type when it succeeds; as written, a struct root at a positive offset is undefined behaviour; with members read from the struct, a non-negative offset always succeeds; a real object with a non-pointer type fails |
| `PointerLogic.PointerExprOfObject` | solvers/flattening/pointer_logic.cpp:70-76 | the bare-number form gives the NULL and INVALID symbols for the sentinels, `INVALID<n>` for an out-of-range number, and an address of the requested pointer type for a real object; as written it agrees with the intended reading, since offset 0 never walks a member list |
| `PointerLogic.PlaceholderIgnoresOffset` | solvers/flattening/pointer_logic.cpp:96-109 | sentinels and out-of-range numbers give a symbol that does not depend on the offset |
| `PointerLogic.OutOfRangePlaceholdersDistinct` | solvers/flattening/pointer_logic.cpp:105-109 | two different out-of-range numbers give different placeholders, and neither equals the NULL or INVALID symbol |
| `PointerLogic.PointerExprAddressesSubElement` | solvers/flattening/pointer_logic.cpp:111-118 | with members read from the struct being descended into, a real object at a non-negative offset gives the address of the end of a selector path from its root; the path's offset is at most the requested offset; if the path is not empty, the element's byte range holds the offset |
| `PointerLogic.PointerExprOfObjectAddressesStart` | solvers/flattening/pointer_logic.cpp:70-76 | the bare-number form, as written or intended, addresses a sub-element at byte offset 0 of the object |
| `PointerLogic.PointerExprAsWrittenStruct` | solvers/flattening/pointer_logic.cpp:111-118 | a struct with member sizes 4, 4 and 8 registered as a real object, asked for at offset 6 as pointer-to-scalar, is undefined behaviour as written and the address of the second member as intended |
| `Simplifier.Simplify` | util/simplify_expr2.cpp:4-66 | with the intended dispatch an addition never reports a change; as written an addition gets the base routine's answer; a shallow call reports none unless a generic-kind override answers it |
| `Simplifier.SimplifyOperands` | util/simplify_expr2.cpp:18-25 | there is one outcome per operand, each the deep simplification of that operand |
| `Simplifier.BaseSimplify` | util/simplify_expr2.cpp:3-46 | a shallow call gives "no change"; a deep call gives "no change" exactly when every operand gave it; otherwise the clone agrees with the node on everything but its operands (kind, type, name, value, member name), and has the same operand count, with each unchanged operand the original handle and each changed one its replacement |
| `Simplifier.AddSimplify` | util/simplify_expr2.cpp:48-66 | the addition routine as written always answers "no change", under either dispatch |
| `Simplifier.CopyOnWrite` | util/simplify_expr2.cpp:27-45 | the handle the caller keeps is the node with each operand replaced by that operand's own outcome; when nothing changed, it is the original node |
| `Simplifier.InertTreeUnchanged` | util/simplify_expr2.cpp:14-28 | a tree with no self-rewriting node simplifies to "no change" |
| `Simplifier.InertWithoutOverrides` | util/simplify_expr2.cpp:3-46 | without overrides, no node of any tree rewrites itself |
| `Simplifier.ShownKindsNeverSimplify` | util/simplify_expr2.cpp:3-66 | with only the routines shown, every expression simplifies to "no change", shallow or deep, under either dispatch |
| `Simplifier.AddDropsSimplifiedOperands` | util/simplify_expr2.cpp:58-64 | when a sum's operands did simplify, the shallow re-attempt on the rebuilt sum answers "no change" under either dispatch, so the addition routine answers "no change"; with the intended dispatch so does every deep call on the sum |
| `Simplifier.DispatchesDisagreeOnChangedSums` | util/simplify_expr2.cpp:4-64 | on an addition the two dispatches give different answers exactly when the call is deep and one of the operands changed |
| `Simplifier.AddDispatchExample` | util/simplify_expr2.cpp:21-64 | for `n + x` with `n` rewritten to `0`, the operands are rebuilt as `0 + x`; as written a call through an `expr2t` handle returns that sum, while the addition routine and the intended dispatch answer "no change" |

## Left out

- Object numbers are C `unsigned`. The model uses unbounded naturals, so
  wrap-around after 2^32 objects is not modelled. The `pointer.object < 0` test
  can never fire for an unsigned value and is omitted.
- `pointer_offset_size`, `config.ansi_c.int_width` and the expression
  interning behind `irep_idt` are not part of this model. The first two are
  parameters (`Platform`); names are plain strings.
- Struct and union types are one descriptor (`Struct`). The resolver treats
  the two alike. Array types carry no element count, because the resolver
  never reads it.
- A member access stores its member name as a string. The source builds a
  constant-string expression for it.
- `is_constant_expr` is modelled for integer constants only. Other constant
  kinds are not part of this model.
- The `do_simplify` overrides of kinds other than addition are not part of
  this model. They are the `Overrides` parameter, consulted for the generic
  `Node` kind.
- `Simplifier.Simplify`: `irep2.h`, where the classes declare `do_simplify`,
  is not part of this model. The model reads the two definitions' signatures:
  the base routine is `const` and the addition routine is not, so the
  addition routine hides the base one. Which routine handles additions is the
  `AddDispatch` argument. If a declaration in `irep2.h` restores the
  override, `Overriding` is the dispatch of the code as built.
- Reference counting, the allocation done by `clone_raw`, raw-pointer ownership and the leak of the
  rebuilt node on line 64 are left out. Sharing is value equality of operands.
- The solver encoding downstream of these primitives is left out.
- `src/esbmc/options.cpp` (a static option table), `src/cpp/expr2cpp.cpp` (a
  pretty-printer), `src/clang-cpp-frontend/clang_cpp_adjust_expr.cpp` and
  `src/clang-cpp-frontend/clang_cpp_language.h` (front-end lowering and its
  declarations) are outside the modelled core.
- `PointerLogic.PointerExprAddressesSubElement`: stated for the intended
  struct branch (`SourceType`). As written, a struct root at a positive offset
  is undefined behaviour (`PointerLogic.PointerExprAsWrittenStruct`), so no
  sub-element is promised there.
- `PointerLogic.PointerExpr`: the success promise for a non-negative offset is
  made for the intended struct branch only. As written it is promised only
  through `PointerExprOfObject` at offset 0.
- `OffsetResolver.ObjectRecLocates`: when the resolver stops at the root
  itself, the contract does not bound how far the offset lies past the root.
  The source promises nothing there either: an exhausted member list or a
  scalar root accepts any residual offset.

## Findings

| source | as written | input that shows it | evidently intended | confidence | as-written member | corrected member |
|---|---|---|---|---|---|---|
| solvers/flattening/pointer_logic.cpp:162-163 | the struct branch gets its member list by casting the `pointer_type` argument to a struct type. `pointer_expr` passes that argument as a pointer type and asserts so on line 117, so reading `members` through the cast is undefined behaviour | a root `s` of struct type with members of sizes 4, 4 and 8, offset 6, type pointer-to-scalar | read the members of the struct being descended into, `src->type` | not executed; high | `OffsetResolver.ObjectRecAsWritten` and `PointerLogic.PointerExpr` with `TargetType`, shown by `OffsetResolver.AsWrittenStructLayoutUndefined` and `PointerLogic.PointerExprAsWrittenStruct` | `OffsetResolver.ObjectRec` and `PointerLogic.PointerExpr` with `SourceType`, proved by `OffsetResolver.ObjectRecLocates` and `PointerLogic.PointerExprAddressesSubElement` |
| util/simplify_expr2.cpp:49 | `add2t::do_simplify(bool)` lacks the `const` of `expr2t::do_simplify(bool) const` on line 4, so it hides the base routine instead of overriding it. Calls through an `expr2t` handle, such as the operand recursion on line 21, run the base routine for an addition, and the addition routine is never reached that way | `n + x` with `n` a node rewritten to `0`, simplified deep through an `expr2t` handle: the base routine returns `0 + x` | `add2t::do_simplify` overrides the base routine, so every addition is answered by the addition routine | not executed; medium, because the class declarations in `irep2.h` are not part of this model | `Simplifier.Simplify` with `Hiding`, shown by `Simplifier.AddDispatchExample` and `Simplifier.DispatchesDisagreeOnChangedSums` | `Simplifier.Simplify` with `Overriding`, proved by `Simplifier.AddDropsSimplifiedOperands` and `Simplifier.ShownKindsNeverSimplify` |
