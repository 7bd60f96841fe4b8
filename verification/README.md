# Gera compiler core, modelled in Dafny

Gera is a small statically typed language. Its compiler infers types by
unification and emits C, which links against a reference-counting runtime.
This project models four parts of that system.

- **The type-group store of the newer frontend** (`compiler/src/frontend/types.rs`), in `frontend_scope.dfy` and `frontend_types.dfy`.
  - A `TypeScope` maps group handles to internal groups. Each internal group holds a set of possible types.
  - The store also keeps the side tables of array, object, concrete-object, closure and variant types that those types point into.
  - The model covers insertion (plain and deduplicating), group lookup, the recursive group merge with its `encountered` memo, handle redirection, transfer of a group into another scope, replacement of `Any` by `Unit`, and table deduplication.
  - The class keeps the source's fields and updates them in place. Pure specification functions over a value snapshot (`Scope`) say what each method computes.
- **The variable-type scope of the older compiler** (`src/compiler/types.rs`), in `limit_types.dfy`.
  - Variables point at type groups. Each group keeps its possible types and its member variables.
  - The model covers `register_variable`, `get_group_types`, `limit_possible_types`, `possible_types_limited` and `types_limited`.
  - A pure `Limit` on group-free types is the reference the methods are proved against.
  - `Merge` is the group merge the methods perform. `MergeAsWritten` is the merge as the source writes it, kept for the two findings below.
- **The flow part of the type checker** (`compiler/src/frontend/type_checking.rs`), in `type_checking.dfy`.
  - `type_check_modules` checks every symbol of the modules and collects the errors.
  - `type_check_symbol` checks a symbol on demand, the first time a module access or a call names it. A procedure is registered before its body is checked, so recursive calls find it. A constant is registered only after its value checked, so a constant that reaches itself is a `RecursiveConstant`. A symbol checked before is only looked up.
  - `type_check_nodes` ORs the return flags of a body.
  - `initalize_variables` moves a variable out of the uninitialised set when every branch assigns it or always returns. A `case` without an `else` is an empty branch.
  - The model also covers the variable-access rules (immutable assignment, read before assignment, capture), the arity check on calls of a procedure, and `choose_letter` and `display_group_types` (in `type_display.dfy`).
- **The C runtime** (`src/backend/gen_libs/core.c`), in `core_runtime.dfy`.
  - Allocation records hold a reference count that wraps around like a `size_t`. A record is released exactly when its count reaches zero, and its free handler is then called once.
  - `gera___string_eq` compares two NUL-terminated strings.

`wrappers.dfy` holds the `Option` and `Result` datatypes the other modules use.

## Model

| member | source | states |
|---|---|---|
| CoreRuntime.Allocation.Alloc | src/backend/gen_libs/core.c:8-15 | A new record has count 1, the given size and handler, is live, and no handler has been called. |
| CoreRuntime.Allocation.Incr | src/backend/gen_libs/core.c:17-20 | The count goes up by one, modulo 2^64 as with a `size_t`. The record stays valid. |
| CoreRuntime.Allocation.Free | src/backend/gen_libs/core.c:22-26 | The free handler is called exactly once, with the record's own handler and size. The record is then released. |
| CoreRuntime.Allocation.Decr | src/backend/gen_libs/core.c:28-32 | The count goes down by one, modulo 2^64. The record is released iff the new count is 0, and the handler was called iff it was released. |
| CoreRuntime.NulIndex | src/backend/gen_libs/core.c:40-47 | The result is the index of the first zero byte: that byte is 0 and every byte before it is not. |
| CoreRuntime.CStringEqualIff | src/backend/gen_libs/core.c:40-47 | Two C strings have equal contents iff the buffers agree up to and including the first string's NUL. This is the condition the loop tests. |
| CoreRuntime.StringEqSymmetric | src/backend/gen_libs/core.c:40-47 | The loop's condition gives the same answer with the arguments swapped, so `string_eq` is symmetric. |
| CoreRuntime.StringEq | src/backend/gen_libs/core.c:40-47 | The result is 0 or 1. It is 1 iff the two NUL-terminated strings have the same characters. |
| TypeDisplay.Letter | compiler/src/frontend/type_checking.rs:1463-1466 | The result is an upper-case letter A-Z. |
| TypeDisplay.Letters | compiler/src/frontend/type_checking.rs:1462-1476 | A type variable's name is a non-empty string of upper-case letters. |
| TypeDisplay.LettersRoundTrip | compiler/src/frontend/type_checking.rs:1462-1476 | Reading the letters back as base-26 digits, least significant first, gives the index, so the name encodes the index. |
| TypeDisplay.LettersInjective | compiler/src/frontend/type_checking.rs:1462-1476 | Different indices get different names. |
| TypeDisplay.LettersSingle | compiler/src/frontend/type_checking.rs:1462-1476 | A name is one letter iff the index is below 26, and then it is that letter. |
| TypeDisplay.ChooseLetter | compiler/src/frontend/type_checking.rs:1462-1476 | The loop builds exactly the name `Letters` specifies. |
| TypeDisplay.JoinSnoc | compiler/src/frontend/type_checking.rs:1532-1554 | Adding one more type adds exactly ` \| ` and that type to the end of the joined text. |
| TypeDisplay.DisplayGroupTypes | compiler/src/frontend/type_checking.rs:1532-1554 | An unconstrained group displays as `any`, and one type displays as itself. Two or more are joined by ` \| ` and wrapped in parentheses. |
| TypeDisplay.DisplayPrimitive | compiler/src/frontend/type_checking.rs:1561-1567 | A primitive type displays as a non-empty lower-case keyword. |
| TypeDisplay.DisplayPrimitiveInjective | compiler/src/frontend/type_checking.rs:1561-1567 | Different primitives display differently, and none displays as `any`. |
| FrontendScope.Internal | compiler/src/frontend/types.rs:237-242 | A handle of this scope resolves to an existing internal group. |
| FrontendScope.TypesEqReflexive | compiler/src/frontend/types.rs:578-628 | Every type of a valid scope compares equal to itself. |
| FrontendScope.GroupsEqSubset | compiler/src/frontend/types.rs:549-577 | `groups_eq` holds whenever the first group's types are a subset of the second's. |
| FrontendScope.GroupsEqOneSided | compiler/src/frontend/types.rs:549-577 | `groups_eq` is not symmetric: {Integer} vs {Integer, Boolean} is equal, but the reverse is not. |
| FrontendScope.NoEqualOfBoolean | compiler/src/frontend/types.rs:549-577 | A group with Boolean is not equal to a group without any Boolean. |
| FrontendScope.PrimitiveNeedsItsKind | compiler/src/frontend/types.rs:549-628 | Two groups are unequal when the first has a primitive that no type of the second matches in kind. |
| FrontendScope.ConcreteObjectsEqIgnoresNames | compiler/src/frontend/types.rs:662-677 | Concrete-object equality compares member groups by position and ignores member names. |
| FrontendScope.ClosuresEqIgnoresCaptures | compiler/src/frontend/types.rs:678-695 | Closure equality does not depend on the captured variables. |
| FrontendScope.FieldsEqNames | compiler/src/frontend/types.rs:636-661 | Equal objects or variants have the same member names. The `fixed` flag does not affect equality. |
| FrontendScope.FirstSame | compiler/src/frontend/types.rs:729-738 | The result is the first kept entry the new one matches, or None iff it matches none. |
| FrontendScope.DedupLengths | compiler/src/frontend/types.rs:727-743 | Deduplication maps every entry and keeps no more entries than it started with. |
| FrontendScope.DedupMapsToKept | compiler/src/frontend/types.rs:727-743 | Every entry maps to a kept entry that is itself or equal to it, and no earlier kept entry is equal to it, so it is the first equal one. |
| FrontendScope.DedupKeepsOriginals | compiler/src/frontend/types.rs:727-743 | Every kept entry comes from the original table. |
| FrontendScope.DedupNoDuplicates | compiler/src/frontend/types.rs:727-743 | No kept entry equals an earlier kept entry. |
| FrontendScope.RemapGroups | compiler/src/frontend/types.rs:847-855 | Remapping keeps the number of internal groups. |
| FrontendScope.DeduplicatedShape | compiler/src/frontend/types.rs:722-858 | Deduplication keeps the id, the handles and the groups, and no table grows. |
| FrontendScope.RemapIn | compiler/src/frontend/types.rs:821-855 | A remapped type points into the deduplicated tables. |
| FrontendScope.DeduplicatedValid | compiler/src/frontend/types.rs:722-858 | Deduplicating a valid scope gives a valid scope. |
| FrontendScope.DeduplicatedKeepsEntries | compiler/src/frontend/types.rs:727-762 | Every array, object, concrete object, closure and variants entry is still present after deduplication, or an equal one took its place. |
| FrontendScope.Redirected | compiler/src/frontend/types.rs:272-276 | Redirection keeps the number of handles. |
| FrontendScope.RedirectedSound | compiler/src/frontend/types.rs:268-278 | Handles at `from` move to `to`, the others stay, and handles that shared a group still share one. |
| FrontendScope.WithoutAnySound | compiler/src/frontend/types.rs:864-870 | `Any` is removed, every other type is kept, and `Unit` is present iff `Unit` or `Any` was. |
| FrontendScope.MembersMapSound | compiler/src/frontend/types.rs:327-331 | Every member name is a key. The last member with a name gives its group. |
| FrontendScope.MembersMapKeys | compiler/src/frontend/types.rs:327-331 | Every key is the name of some member. |
| FrontendScope.MembersMapOwned | compiler/src/frontend/types.rs:327-331 | The map from a concrete object's members points only at handles of the scope. |
| FrontendScope.FlatGroupMergeMeaning | compiler/src/frontend/types.rs:297-309 | For types without groups, the pairwise merge of two groups is the set of types both groups allow. |
| FrontendScope.PairInCommon | compiler/src/frontend/types.rs:297-309 | Every pair that merges contributes a common type. |
| FrontendScope.CommonInPairwise | compiler/src/frontend/types.rs:297-309 | Every common type comes from some merged pair. |
| FrontendScope.FlatGroupMergeSymmetric | compiler/src/frontend/types.rs:297-309 | For types without groups, merging a with b gives the same types as b with a. |
| FrontendScope.FlatMergeSymmetric | compiler/src/frontend/types.rs:444-446 | Merging two types without groups is symmetric. |
| FrontendScope.FlatGroupMergeAddLeft | compiler/src/frontend/types.rs:300-308 | One more left type adds exactly its row of merges. |
| FrontendScope.MergedFields | compiler/src/frontend/types.rs:348-383 | The merged object has the union of member names. Shared and left-only members keep the left group, right-only members keep the right group. It is fixed iff either side is. |
| FrontendScope.MergedClosure | compiler/src/frontend/types.rs:397-402 | The merged closure keeps the left parameters and return. It has captures iff either side has, and the left captures win. |
| FrontendTypes.DeduplicateScope | compiler/src/frontend/types.rs:722-858 | The method computes exactly the deduplicated scope of the specification. |
| FrontendTypes.RemapAll | compiler/src/frontend/types.rs:847-855 | The loop remaps every internal group as `RemapGroups` specifies. |
| FrontendTypes.DedupTable | compiler/src/frontend/types.rs:727-743 | The loop keeps first occurrences and maps each entry as `Dedup` specifies. |
| FrontendTypes.TypeScope.constructor | compiler/src/frontend/types.rs:61-77 | A new scope has the given id, no groups and empty tables, and is valid. |
| FrontendTypes.TypeScope.InsertArray | compiler/src/frontend/types.rs:82-88 | Appends the entry, returns its index, and changes nothing else. |
| FrontendTypes.TypeScope.InsertObject | compiler/src/frontend/types.rs:104-111 | Appends the object, returns its index, and changes nothing else. |
| FrontendTypes.TypeScope.InsertConcreteObject | compiler/src/frontend/types.rs:131-137 | Appends the concrete object, returns its index, and changes nothing else. |
| FrontendTypes.TypeScope.InsertClosure | compiler/src/frontend/types.rs:161-168 | Appends the closure, returns its index, and changes nothing else. |
| FrontendTypes.TypeScope.InsertVariants | compiler/src/frontend/types.rs:188-194 | Appends the variants, returns its index, and changes nothing else. |
| FrontendTypes.TypeScope.InsertDedupArray | compiler/src/frontend/types.rs:89-97 | Returns the first equal entry and changes nothing, or appends the entry when none is equal. |
| FrontendTypes.TypeScope.InsertDedupObject | compiler/src/frontend/types.rs:112-120 | Returns the first equal object and changes nothing, or appends the object when none is equal. |
| FrontendTypes.TypeScope.InsertDedupConcreteObject | compiler/src/frontend/types.rs:138-148 | Returns the first equal concrete object and changes nothing, or appends it when none is equal. |
| FrontendTypes.TypeScope.InsertDedupClosure | compiler/src/frontend/types.rs:169-179 | Returns the first equal closure and changes nothing, or appends it when none is equal. |
| FrontendTypes.TypeScope.InsertDedupVariants | compiler/src/frontend/types.rs:195-203 | Returns the first equal variants entry and changes nothing, or appends it when none is equal. |
| FrontendTypes.TypeScope.InsertGroup | compiler/src/frontend/types.rs:212-218 | Returns a new handle to a new internal group holding exactly the given types. The group is shared with no other handle. |
| FrontendTypes.TypeScope.GroupInternalId | compiler/src/frontend/types.rs:237-242 | A handle of another scope gives ForeignGroup. Otherwise the result is an existing internal group. |
| FrontendTypes.TypeScope.GroupTypes | compiler/src/frontend/types.rs:219-227 | A handle of another scope gives ForeignGroup. Otherwise the result is the group's types, which point into this scope. |
| FrontendTypes.TypeScope.SharedGroupsAgree | compiler/src/frontend/types.rs:219-227 | Two handles of one internal group see the same types. |
| FrontendTypes.TypeScope.GroupConcrete | compiler/src/frontend/types.rs:228-236 | A foreign handle gives ForeignGroup, an empty group gives NotConcrete, and a non-empty group of this scope always gives Ok. The result is one of the group's types, with `Any` read as `Unit`. |
| FrontendTypes.TypeScope.SetGroupTypes | compiler/src/frontend/types.rs:243-252 | A foreign handle gives an error and no change. Otherwise the handle's internal group gets exactly the given types and nothing else changes. |
| FrontendTypes.TypeScope.ReplaceAnyWithUnit | compiler/src/frontend/types.rs:864-870 | Every group becomes `WithoutAny` of itself, so no group contains `Any` afterwards. |
| FrontendTypes.TypeScope.Deduplicate | compiler/src/frontend/types.rs:860-863 | The new state is the deduplicated scope, and validity is kept. |
| FrontendTypes.TypeScope.TryMergeGroupsInternal | compiler/src/frontend/types.rs:282-316 | A pair already in the memo succeeds without change. A merged pair ends with equal, non-empty types and is recorded (`PairMerged`). Unless both groups are already being merged, it fails when no pair of their types may merge (`MayMerge`: `any`, the same kind, or two objects), and succeeds when `any` on one side meets a non-empty other side. For types without groups it succeeds iff the groups share a type, and both then hold exactly the shared types. |
| FrontendTypes.TypeScope.MergeNewPair | compiler/src/frontend/types.rs:295-315 | On success both groups hold the same non-empty types and the pair is recorded. It fails when no pair of types may merge and succeeds when `any` meets a non-empty side. For types without groups the result is exact. |
| FrontendTypes.TypeScope.StoreMerged | compiler/src/frontend/types.rs:309-315 | Both internal groups get the merged types, and nothing else changes. |
| FrontendTypes.TypeScope.MergePairs | compiler/src/frontend/types.rs:297-308 | The result points into the scope. It is empty when no pair of types may merge and non-empty when `any` meets a non-empty side. For types without groups it is the set of common types, with no side effects. |
| FrontendTypes.TypeScope.MergeRow | compiler/src/frontend/types.rs:301-307 | Adds the merges of one left type with every right type. Nothing is added when no right type may merge with it. A left `any` adds every right type, and a right `any` adds the left type. |
| FrontendTypes.TypeScope.RowCell | compiler/src/frontend/types.rs:302-306 | One turn of the row loop: the cell's merge is added and the row's facts so far (`RowFacts`, and the flat row) extend to one more right type. |
| FrontendTypes.TypeScope.MergeCell | compiler/src/frontend/types.rs:302-306 | Adds the merge of one pair when there is one. A pair that may not merge adds nothing. A left `any` adds the right type, and a right `any` adds the left type. For types without groups it adds exactly `FlatMerge`. |
| FrontendTypes.TypeScope.TryMergeTypesInternal | compiler/src/frontend/types.rs:318-448 | `Any` yields the other type. A pair that may not merge gives None, including a concrete object against a non-object. Types without groups merge as `FlatMerge` says. Arrays keep the left array. A merged array pair has its element groups merged (`PairMerged`), element groups that cannot merge (and are not already being merged) give None, and `any` meeting a non-empty element group gives Some. Objects (concrete or not) give an object. |
| FrontendTypes.TypeScope.MergeConcrete | compiler/src/frontend/types.rs:327-340 | The concrete object becomes a new unfixed object and the merge is retried. A pair that may not merge gives None, and two objects give an object. |
| FrontendTypes.TypeScope.MergeKinds | compiler/src/frontend/types.rs:341-447 | Different kinds give None, and equal flat kinds give the left type. Arrays give the left array exactly when their element groups merge, stated as `PairMerged` on success, None when they cannot merge, and Some when `any` meets a non-empty element group. Objects give an object. |
| FrontendTypes.TypeScope.ConcreteToObject | compiler/src/frontend/types.rs:327-340 | Appends an unfixed object with exactly the concrete object's member names and groups. |
| FrontendTypes.TypeScope.MergeObjects | compiler/src/frontend/types.rs:348-383 | Incompatible fixed objects give None. A result is a new object equal to `MergedFields` of the two. |
| FrontendTypes.TypeScope.MergeVariants | compiler/src/frontend/types.rs:404-443 | Incompatible fixed variants give None. A result is a new variants entry equal to `MergedFields` of the two. |
| FrontendTypes.TypeScope.MergeFields | compiler/src/frontend/types.rs:351-379 | A member missing from a fixed side gives None. A result is `MergedFields` of the two and points into the scope. |
| FrontendTypes.TypeScope.MergeMember | compiler/src/frontend/types.rs:355-378 | Success implies the member is compatible with both sides' `fixed` flags. A member on one side only merges iff it is compatible, with no change. A shared member's success means its two groups merged (`PairMerged`). It fails when the groups cannot merge, and succeeds when `any` meets a non-empty group. |
| FrontendTypes.TypeScope.MergeClosures | compiler/src/frontend/types.rs:384-403 | Different parameter counts give None with no change. A result is a new closure equal to `MergedClosure` of the two, and every parameter pair and the return pair were merged (`PairMerged`). |
| FrontendTypes.TypeScope.MergeReturnedAndInsert | compiler/src/frontend/types.rs:394-402 | A result is a new closure equal to `MergedClosure`, and the return groups were merged. Return groups that cannot merge give None. |
| FrontendTypes.TypeScope.MergeParameters | compiler/src/frontend/types.rs:387-393 | No parameters merge trivially with no change. On success every parameter pair was merged, or both its groups are already being merged further up. |
| FrontendTypes.TypeScope.RedirectHandles | compiler/src/frontend/types.rs:272-276 | The handles become `Redirected`, and nothing else changes. |
| FrontendTypes.TypeScope.RedirectPair | compiler/src/frontend/types.rs:269-277 | One merged pair: every handle of the second handle's group now points at the first's, and nothing else changes. The pair joins, earlier pairs stay joined, and only touched groups move. |
| FrontendTypes.TypeScope.RedirectMerged | compiler/src/frontend/types.rs:268-278 | After redirection every merged pair shares one internal group. Groups are only joined, never split. A handle whose group held neither handle of any merged pair keeps its group, and the others move only among such groups. |
| FrontendTypes.TypeScope.TryMergeGroups | compiler/src/frontend/types.rs:254-280 | Foreign handles give ForeignGroup with no change. Ok(true) means both handles share a group, and Ok(false) leaves the handles. It gives Ok(false) when no pair of the groups' types may merge, and Ok(true) when `any` meets a non-empty side. For types without groups it succeeds iff they share a type, and the group then holds exactly the shared types. On success it also returns the merged pairs (ghost): `(a, b)` is one, each pair shares a group, and a handle whose group no pair touched keeps it. |
| FrontendTypes.TypeScope.TransferGroup | compiler/src/frontend/types.rs:450-454 | The destination only grows and gets a new handle to a new group with the same kinds of type. Under some record of copies, the new group's types are the copies of the source group's types, one for one. A group without groups arrives with exactly its types. |
| FrontendTypes.TypeScope.TransferGroupInternal | compiler/src/frontend/types.rs:456-472 | The returned handle is the one the memo records for the group. An already transferred group returns it with no change. Otherwise the group is copied as in `TransferGroup` and memoised. |
| FrontendTypes.TypeScope.TransferNewGroup | compiler/src/frontend/types.rs:464-471 | The new group is registered in the memo before its types are copied. Its types are the copies of the source group's types (`SetCopied`), so it has the same kinds. |
| FrontendTypes.TypeScope.TransferTypes | compiler/src/frontend/types.rs:466-469 | The output types are the copies of the source types, one for one (`SetCopied`), with the same kinds. Types without groups are copied unchanged. |
| FrontendTypes.TypeScope.TransferNextType | compiler/src/frontend/types.rs:466-469 | One more type is copied and appended. Every earlier pair stays a copy as the destination and the memo grow. |
| FrontendTypes.TypeScope.TransferTypeInternal | compiler/src/frontend/types.rs:474-535 | The result is the copy of the type (`TypeCopied`): a type without groups unchanged, any other one a new entry of the same kind whose groups are the memoised copies of the original entry's groups. |
| FrontendTypes.TypeScope.TransferArray | compiler/src/frontend/types.rs:478-483 | Appends one array entry whose element group is the memoised copy of the original's. |
| FrontendTypes.TypeScope.TransferObject | compiler/src/frontend/types.rs:484-493 | Appends an object with the same member names and `fixed` flag. Each member's group is the memoised copy of the original member's group. |
| FrontendTypes.TypeScope.TransferConcreteObject | compiler/src/frontend/types.rs:494-503 | Appends a concrete object with the same member names in order. Each member's group is the memoised copy of the original's. |
| FrontendTypes.TypeScope.TransferClosure | compiler/src/frontend/types.rs:504-519 | Appends a closure whose parameter, return and capture groups are the memoised copies of the original's, with the same capture names. |
| FrontendTypes.TypeScope.TransferClosureGroups | compiler/src/frontend/types.rs:505-513 | Copies parameters, return and captures: each group is the memoised copy of the original, with the same count and names. |
| FrontendTypes.TypeScope.TransferVariants | compiler/src/frontend/types.rs:520-532 | Appends a variants entry with the same names and `fixed` flag. Each variant's group is the memoised copy of the original's. |
| FrontendTypes.TypeScope.TransferMembers | compiler/src/frontend/types.rs:486-491 | Every member keeps its name and gets the memoised copy of its group, a handle of the destination. |
| FrontendTypes.TypeScope.TransferMemberList | compiler/src/frontend/types.rs:496-501 | Every member keeps its name and position and gets the memoised copy of its group. |
| FrontendTypes.TypeScope.TransferGroupList | compiler/src/frontend/types.rs:506-508 | Each group, in order, becomes the memoised copy of the original, a handle of the destination. |
| FrontendTypes.TypeCopiedGrows | compiler/src/frontend/types.rs:456-535 | A copy stays a copy while the destination and the memo only grow. |
| FrontendTypes.CopiedKinds | compiler/src/frontend/types.rs:466-469 | Copied types have the kinds of their originals, and copies of types without groups are the originals. |
| FrontendTypes.KindMeansSameKind | compiler/src/frontend/types.rs:444-446 | Two types have the same kind representative iff the merge treats them as the same kind. |
| LimitTypes.RegisterSound | src/compiler/types.rs:55-64 | A new variable gets its own fresh group holding `Any`. Old variables keep their groups and types, and the scope stays valid. |
| LimitTypes.AnyAbsorbs | src/compiler/types.rs:86-91 | Limiting by `Any` keeps the other side, from either side. |
| LimitTypes.FirstMatchNone | src/compiler/types.rs:129-136 | No candidate matches iff every candidate fails to limit. |
| LimitTypes.FirstMatchIsFirst | src/compiler/types.rs:129-136 | A match is the limit with the first candidate that limits. |
| LimitTypes.FirstMatchesCount | src/compiler/types.rs:127-138 | Each left type gives at most one result, and none results iff no pair limits. |
| LimitTypes.OneOfLimit | src/compiler/types.rs:127-138 | Two candidate lists limit iff some pair limits. The result has no more candidates than the left list. |
| LimitTypes.ObjectLimit | src/compiler/types.rs:152-169 | Objects limit iff all shared members limit. The result has every member name, limits shared members and keeps one-sided members. |
| LimitTypes.ObjectMembersEqual | src/compiler/types.rs:156-168 | Any member map built as the loop builds it equals the specified object members. |
| LimitTypes.ClosureArity | src/compiler/types.rs:170-175 | Closures with different parameter counts never limit. |
| LimitTypes.KindsLimit | src/compiler/types.rs:222 | Different kinds never limit, and equal primitive kinds limit to themselves. A result has the left kind. |
| LimitTypes.Remove | src/compiler/types.rs:104 | Removing one group shifts the later ones down by one position. |
| LimitTypes.SharedGroupDeleted | src/compiler/types.rs:92-110 | As written, merging a group with itself deletes it, and the variable is left pointing at nothing. |
| LimitTypes.StaleMembersSplitGroup | src/compiler/types.rs:98-108 | As written, merging 1 with 2 and then 0 with 1 leaves variable 2 outside the merged group. |
| LimitTypes.StaleFirstMerge | src/compiler/types.rs:98-108 | The first merge of that sequence, as written, loses variable 2 from the merged group's members. |
| LimitTypes.StaleSecondMerge | src/compiler/types.rs:98-108 | The second merge, as written, regroups only the listed members. |
| LimitTypes.Redirect | src/compiler/types.rs:101-108 | Variables of the removed group move to the kept one, and all group indices shift past the removed one. |
| LimitTypes.MergedGroups | src/compiler/types.rs:100-104 | One group fewer. Every surviving group lands at its shifted index. |
| LimitTypes.MergeSound | src/compiler/types.rs:92-110 | The merge keeps the scope valid and only coarsens it. Both groups' variables end in one group holding `t`, and other variables keep their types. |
| LimitTypes.MergeDistinctValid | src/compiler/types.rs:98-108 | Merging two distinct groups keeps the scope valid. |
| LimitTypes.MergeDistinctShape | src/compiler/types.rs:98-108 | Merging two distinct groups removes exactly one group and points both groups' variables at the merged one. |
| LimitTypes.MergeVariablesValid | src/compiler/types.rs:98-108 | After the merge every variable is a member of the group it points at. |
| LimitTypes.MergeMemberValid | src/compiler/types.rs:98-108 | Every member of a merged group points back at that group. |
| LimitTypes.MergeMembersValid | src/compiler/types.rs:98-108 | Every member of every group points back at its group. |
| LimitTypes.WithTypesSound | src/compiler/types.rs:111-126 | Setting a group's types changes exactly the types of that group's variables. |
| LimitTypes.RedirectVars | src/compiler/types.rs:98-108 | The loops compute `Redirect`. |
| LimitTypes.PointAt | src/compiler/types.rs:101-103 | Listed members point at the group and the other variables stay. |
| LimitTypes.ShiftDown | src/compiler/types.rs:105-108 | Every index shifts past the removed group. |
| LimitTypes.TypeScope.constructor | src/compiler/types.rs:47-52 | A new scope is empty and valid. |
| LimitTypes.TypeScope.RegisterVariable | src/compiler/types.rs:55-64 | Returns the next variable index, and the state becomes `Registered`. The new variable's types are `Any`. |
| LimitTypes.TypeScope.GroupTypes | src/compiler/types.rs:67-69 | Every variable sharing the group sees the same types. |
| LimitTypes.TypeScope.MergeGroups | src/compiler/types.rs:94-108 | The state becomes the corrected `Merge`, and the scope stays valid. |
| LimitTypes.TypeScope.LimitPossibleTypes | src/compiler/types.rs:74-82 | Failure is the error NoPossibleTypes(a, b). For group-free inputs the result is exactly `Limit` and the state is unchanged. |
| LimitTypes.TypeScope.PossibleTypesLimited | src/compiler/types.rs:84-140 | `Any` absorbs. Groups limit by their types and are merged or updated. For group-free inputs the result is `Limit`. The state only coarsens. |
| LimitTypes.TypeScope.LimitGroups | src/compiler/types.rs:92-110 | Two groups are merged exactly when their types limit, and then hold the limit. |
| LimitTypes.TypeScope.LimitLeftGroup | src/compiler/types.rs:111-118 | The group's types become the limit when there is one, else nothing changes. |
| LimitTypes.TypeScope.LimitRightGroup | src/compiler/types.rs:119-126 | The same as `LimitLeftGroup`, with the group on the right. |
| LimitTypes.TypeScope.StoreGroupTypes | src/compiler/types.rs:70-72 | The state becomes `WithTypes`, which keeps validity. |
| LimitTypes.TypeScope.LimitCandidates | src/compiler/types.rs:127-138 | For group-free candidate lists the result is `Limit`. |
| LimitTypes.TypeScope.FirstLimited | src/compiler/types.rs:130-135 | For group-free inputs the result is the first match. |
| LimitTypes.TypeScope.TypesLimited | src/compiler/types.rs:142-224 | A result has the left kind, and different kinds give None with no change. For group-free inputs the result is `TyLimit`. |
| LimitTypes.TypeScope.LimitMember | src/compiler/types.rs:157-166 | A right-only member is kept. A shared member is limited. |
| LimitTypes.TypeScope.ObjectsLimited | src/compiler/types.rs:152-169 | A result is an object. For group-free inputs it is `TyLimit`. |
| TypeChecking.AccessVariable | compiler/src/frontend/type_checking.rs:1041-1085 | Succeeds iff the variable is readable, or an uninitialised variable is being assigned. Gives ImmutableAssignment, VariableWithoutValue or VariableDoesNotExist otherwise. Names from outer scopes are captured. |
| TypeChecking.AssignThenRead | compiler/src/frontend/type_checking.rs:1041-1085 | An uninitialised variable cannot be read, but after one assignment it can. |
| TypeChecking.Initialize | compiler/src/frontend/type_checking.rs:554-591 | A variable leaves the uninitialised set iff every branch assigns it or always returns, and it then becomes initialised with its own information. |
| TypeChecking.ScanBranches | compiler/src/frontend/type_checking.rs:567-585 | The loop decides exactly whether every branch assigns the variable or always returns. |
| TypeChecking.InitalizeVariables | compiler/src/frontend/type_checking.rs:554-591 | The method computes `Initialize`. |
| TypeChecking.CheckNode | compiler/src/frontend/type_checking.rs:593-1455 | A successful check gives exactly the node's return flags and only adds to the environment. Expressions keep the scope. The symbol tables only progress. A module access is exactly `CheckSymbol` of its path: its error, or success, with the environment unchanged. |
| TypeChecking.CheckAssignment | compiler/src/frontend/type_checking.rs:824-836 | The value, then the target as an assignment target. Success returns nothing and only adds to the environment. |
| TypeChecking.CheckArrayAccess | compiler/src/frontend/type_checking.rs:1012-1040 | The array, then the index. Success returns nothing and keeps the scope. |
| TypeChecking.CheckDeclaration | compiler/src/frontend/type_checking.rs:698-716 | A declared variable enters the scope, initialised iff it has a value. |
| TypeChecking.CheckCaseBranches | compiler/src/frontend/type_checking.rs:717-753 | The flags are those of the branches combined, with no `else` counting as an empty branch. |
| TypeChecking.CheckCaseCondition | compiler/src/frontend/type_checking.rs:754-774 | The flags are those of the two bodies combined. |
| TypeChecking.CheckCaseVariant | compiler/src/frontend/type_checking.rs:775-823 | The flags are those of the variant bodies combined. |
| TypeChecking.CheckCall | compiler/src/frontend/type_checking.rs:847-945 | A callee that is a module path is checked first, and its error is the call's error. Calling a procedure with the wrong argument count gives InvalidParameterCount(path, expected, given). Success returns nothing and keeps the scope. |
| TypeChecking.CheckAll | compiler/src/frontend/type_checking.rs:1156-1170 | Operands are checked left to right. The scope is kept and nothing is returned. |
| TypeChecking.CheckNodes | compiler/src/frontend/type_checking.rs:486-528 | A body's flags are its nodes' flags OR-ed together. |
| TypeChecking.TypeCheckNodes | compiler/src/frontend/type_checking.rs:486-528 | The loop computes `CheckNodes`. |
| TypeChecking.CheckNodesAppend | compiler/src/frontend/type_checking.rs:486-528 | Checking a concatenated body is checking the halves in sequence. |
| TypeChecking.CheckBranch | compiler/src/frontend/type_checking.rs:723-730 | A branch's flags are its body's flags. It starts from the `case`'s environment and changes only the captured names. |
| TypeChecking.CheckVariantElse | compiler/src/frontend/type_checking.rs:798-823 | The `else` body joins the variant branches, and the flags are those of the whole `case`. |
| TypeChecking.CheckBranches | compiler/src/frontend/type_checking.rs:723-731 | Each branch's flags are recorded. Branches start from the same environment and do not change it. |
| TypeChecking.CheckVariants | compiler/src/frontend/type_checking.rs:781-797 | The same as `CheckBranches`, for variant branches. |
| TypeChecking.AfterBranches | compiler/src/frontend/type_checking.rs:738-752 | After branching, the flags are the combination of the branches' flags. |
| TypeChecking.AlwaysImpliesSometimes | compiler/src/frontend/type_checking.rs:738-752 | When every case has alternatives, a node that always returns also sometimes returns. |
| TypeChecking.BlockAlwaysImpliesSometimes | compiler/src/frontend/type_checking.rs:486-528 | The same for a body. |
| TypeChecking.EmptyVariantCaseAlwaysReturns | compiler/src/frontend/type_checking.rs:821 | A variant `case` with no branches and no `else` counts as always returning but never sometimes returning. |
| TypeChecking.ParameterVariables | compiler/src/frontend/type_checking.rs:329-335 | Every parameter is an immutable variable. A repeated name keeps its last declaration. |
| TypeChecking.BranchesReturns | compiler/src/frontend/type_checking.rs:723-731 | Each branch's flags are its body's flags. |
| TypeChecking.VariantsReturns | compiler/src/frontend/type_checking.rs:781-797 | Each variant's flags are its body's flags. |
| TypeChecking.Lookup | compiler/src/frontend/type_checking.rs:474-480 | A typed symbol gives its entry. Any other gives RecursiveConstant(path). The tables are unchanged. |
| TypeChecking.CheckSymbol | compiler/src/frontend/type_checking.rs:315-481 | The symbol leaves `untyped` and the tables only progress. A symbol no longer untyped is only looked up. A procedure ends up typed with its parameter count. A constant not typed before succeeds iff it ends up typed. |
| TypeChecking.CheckProcedure | compiler/src/frontend/type_checking.rs:323-364 | The procedure is registered with its parameter count before its body is checked, and stays registered when the body fails. |
| TypeChecking.CheckConstant | compiler/src/frontend/type_checking.rs:440-470 | The value is checked with empty variable maps, and only a successful check types the constant. |
| TypeChecking.ProgressTrans | compiler/src/frontend/type_checking.rs:315-481 | Two checks in a row progress the tables as one does. |
| TypeChecking.CheckPaths | compiler/src/frontend/type_checking.rs:34-44 | At most one error per path. Every path leaves `untyped`, and with no errors every path is typed. |
| TypeChecking.AllChecked | compiler/src/frontend/type_checking.rs:23-46 | After all paths, nothing is untyped, every symbol is registered, and the symbols typed before keep their entries. |
| TypeChecking.SecondCheckIsLookup | compiler/src/frontend/type_checking.rs:474-480 | Checking a symbol again changes nothing. A procedure is found, and a failed constant is a RecursiveConstant. |
| TypeChecking.SelfReferentialConstant | compiler/src/frontend/type_checking.rs:440-480 | A constant whose value names itself gives RecursiveConstant and stays untyped. |
| TypeChecking.OnDemandCheckExample | compiler/src/frontend/type_checking.rs:847-906 | `a` calls `b` and `b` fails: `b` is checked inside `a`, its error ends `a`, and the module reports that one error once. |
| TypeChecking.TypeCheckModules | compiler/src/frontend/type_checking.rs:23-46 | The result is Ok iff no symbol check in `order` failed, otherwise all the errors in order. Every procedure ends typed with its parameter count, a constant only if checked, and on Ok every symbol is typed. Earlier symbols keep their entries. |

## Left out

- Iteration over `HashSet`/`HashMap` (group types, members, module symbols) has no order in the source. The model picks elements with `:|` and iterates symbols as a sequence.
- Panics on foreign groups in `transfer_group`/`try_merge_groups_internal` and out-of-range indices become preconditions (`Valid`, `Owns`).
- `group`, `group_concrete`, `group_internal_id`, `set_group_types` and `try_merge_groups` panic on a handle of another scope (compiler/src/frontend/types.rs:222-224, 231-233, 238-240, 246-248, 258-263). The model turns these panics into `Err(ForeignGroup)`, and the panic of `group_concrete` on an empty group into `Err(NotConcrete)`, so that callers can be stated on the error path.
- The global `NEXT_ID` counter (compiler/src/frontend/types.rs:44, 61-66) is a constructor parameter. Scope ids are assumed distinct.
- LimitTypes.TypeScope.PossibleTypesLimited: recursion is bounded by a `fuel` parameter, and running out gives None. The source has no bound.
- LimitTypes.TypeScope.TypesLimited: closure parameters and returns that point at groups (src/compiler/types.rs:176-220) are not remapped. As written, a closure with one or more parameters never limits (the first `if let Ok(_)` returns None). The model keeps that behaviour, and its exact-result contract covers only group-free inputs. Where the source would index a variable missing from the closure's fresh scope (src/compiler/types.rs:195-206, 218), a `Vec` index that panics, the model returns None.
- LimitTypes.TypeScope.PossibleTypesLimited: the exact result is stated only for group-free inputs. Results that involve groups are stated as "coarsens and stays valid".
- LimitTypes.TypeScope.PossibleTypesLimited: when two groups limit, it performs the corrected merge of the two Findings rows (`Merge`), not the merge as written at src/compiler/types.rs:94-108 (`MergeAsWritten`).
- LimitTypes.TypeScope.MergeGroups: performs the corrected merge of the two Findings rows, not src/compiler/types.rs:94-108 as written.
- LimitTypes.TypeScope.LimitGroups: performs the corrected merge of the two Findings rows, not src/compiler/types.rs:94-108 as written.
- LimitTypes.TypeScope.LimitPossibleTypes: performs the corrected merge of the two Findings rows, not src/compiler/types.rs:94-108 as written. Its exact result is stated only for group-free inputs.
- LimitTypes.TypeScope.LimitLeftGroup: the group's stored types are stated exactly only when the group's types and the right side are group-free. Otherwise the contract gives validity, coarsening and `Some(a)` on success.
- LimitTypes.TypeScope.LimitRightGroup: the same group-free-only statement as `LimitLeftGroup`, with the group on the right.
- LimitTypes.TypeScope.LimitCandidates: the exact result is stated only for group-free candidate lists.
- LimitTypes.TypeScope.FirstLimited: the exact result is stated only for group-free inputs.
- LimitTypes.TypeScope.LimitMember: the limited member is stated exactly only for group-free member types.
- LimitTypes.TypeScope.ObjectsLimited: the exact result is stated only for group-free inputs.
- FrontendTypes.TypeScope.TransferGroup: the contract proves that the new group's types are copies of the original's under some record of copies (`SetCopied`), and exact types for group-free types. It does not prove that every recorded copy ends with the copied types of its original (groups still being filled while the recursion is under way), nor full `groups_eq` equivalence of the copy.
- FrontendTypes.TypeScope.TransferGroupInternal: for a group already in the memo, only the recorded handle is returned. Its types may still be being copied further up the recursion, so nothing is stated about them.
- FrontendTypes.TypeScope.TransferNewGroup: the copy relation is one level deep. A member group is the memoised copy of the original member group, and what that copy holds is stated where that group is transferred.
- FrontendTypes.TypeScope.TransferTypes: the order of the output is the order in which the set is picked from (`:|`), as unordered as the source's `HashSet` iteration.
- FrontendTypes.TypeScope.TransferTypeInternal: the same one-level copy relation as `TransferNewGroup`.
- FrontendTypes.TypeScope.TransferArray: the element group is stated as the memoised copy, one level deep.
- FrontendTypes.TypeScope.TransferObject: member groups are stated as memoised copies, one level deep.
- FrontendTypes.TypeScope.TransferConcreteObject: member groups are stated as memoised copies, one level deep.
- FrontendTypes.TypeScope.TransferClosure: parameter, return and capture groups are stated as memoised copies, one level deep.
- FrontendTypes.TypeScope.TransferClosureGroups: the same one-level copy relation as `TransferClosure`.
- FrontendTypes.TypeScope.TransferVariants: variant groups are stated as memoised copies, one level deep.
- FrontendTypes.TypeScope.TransferMembers: member groups are stated as memoised copies, one level deep.
- FrontendTypes.TypeScope.TransferMemberList: member groups are stated as memoised copies, one level deep.
- FrontendTypes.TypeScope.TransferGroupList: groups are stated as memoised copies, one level deep.
- FrontendTypes.TypeScope.MergeParameters: on failure only the merge frame is stated. The pairs after the failing one are not merged, as in the source, but the contract does not say so.
- FrontendTypes.TypeScope.TryMergeGroupsInternal: between the two stated bounds, it fails when no pair of types may merge and succeeds when `any` meets a non-empty side. Which nested merges succeed, and so the exact merged set, is stated only for groups without array, object, closure or variants types.
- FrontendTypes.TypeScope.MergeNewPair: the same bounds as `TryMergeGroupsInternal`. The exact result is stated only for groups without side-table types.
- FrontendTypes.TypeScope.MergePairs: the same bounds. The exact merged set is stated only for types without side-table types.
- FrontendTypes.TypeScope.MergeRow: the same bounds, per left type. The exact row is stated only for types without side-table types.
- FrontendTypes.TypeScope.MergeCell: for a pair of side-table types that may merge, it is not stated that only the pair's merge result is added.
- FrontendTypes.TypeScope.TryMergeGroups: the same bounds as `TryMergeGroupsInternal` decide Ok(false) and Ok(true). In between, the result is stated only for groups without side-table types.
- FrontendTypes.TypeScope.TryMergeTypesInternal: the array arm gives None on element groups that cannot merge and Some when `any` meets. Between those, only the success direction (`PairMerged`) is stated.
- FrontendTypes.TypeScope.MergeKinds: the same array-arm bounds as `TryMergeTypesInternal`.
- FrontendTypes.TypeScope.MergeMember: for a shared member, failure is stated only when the groups cannot merge at all.
- FrontendTypes.TypeScope.MergeClosures: a failed parameter or return merge is not stated to give None. Each earlier parameter merge changes group types, so the condition cannot be read off the scope before the call.
- FrontendTypes.TypeScope.MergeReturnedAndInsert: a failed return merge is stated to give None only when the return groups cannot merge at all.
- FrontendTypes.TypeScope.MergeFields: `!FieldsCompatible ==> None` is one direction only. Success on compatible fields depends on the members' groups merging.
- FrontendTypes.TypeScope.MergeObjects: the same one-direction contract as `MergeFields`.
- FrontendTypes.TypeScope.MergeVariants: the same one-direction contract as `MergeFields`.
- FrontendTypes.TypeScope.TryMergeGroups: a failed merge leaves partial updates to group types, as in the source. The model states only that the handles are unchanged.
- TypeChecking.CheckNode: only the Ok side and the module-access arm are specified (flags, environment growth, symbol progress). Type inference itself is not modelled: `assert_types`, `register_with_types`, group duplication for recursive procedures, the argument-type bookkeeping of `rec_procedures` (compiler/src/frontend/type_checking.rs:346, 365-423), the `Function` (closure) arm (compiler/src/frontend/type_checking.rs:634-697), and the typing of objects, arrays and variants.
- TypeChecking.CheckNode: the `Static` arm (compiler/src/frontend/type_checking.rs:1444-1449) is not modelled. It checks its value against a fresh empty variable map, which the node grammar here does not represent.
- TypeChecking.CheckProcedure: the implicit-unit return assertion (compiler/src/frontend/type_checking.rs:425-431) is a type assertion and is not modelled.
- TypeChecking.TypeCheckModules: the iteration order of the symbol map is the parameter `order`. The source's order is unspecified.
- TypeChecking.CheckNode: the typed AST the checker builds is not produced. Only errors, flags and the variable environment are.
- `gera___float_mod` (floating point) and everything in `gera.h` beyond the allocation record are not part of this model.
- `malloc`/`free` and the `data[]` payload are not modelled. A record is live or released.
- `gera___free_nothing` is the `FreeNothing` handler. The effect of a handler on the payload is not modelled, only that it was called and with what.
- `display_types`: the `where` clause listing and the non-primitive arms of `display_type` are not modelled. Groups are displayed from their already-displayed member strings.

## Findings

| source | as written | input that shows it | evidently intended | confidence | as-written member | corrected member |
|---|---|---|---|---|---|---|
| src/compiler/types.rs:92-110 | When both variables already share a group, `limit_possible_types` still merges the group with itself. It removes the group at `b`'s index after moving its members, which deletes the shared group. | One variable 0 in group 0 with types `Any`, limited against itself (a == b == variable 0). Afterwards no group remains, but variable 0 still points at group 0. | Merging a group with itself leaves the scope unchanged except for the new types. | not executed | LimitTypes.SharedGroupDeleted | LimitTypes.MergeSound |
| src/compiler/types.rs:98-108 | The merge points `b`'s listed members at `a`'s group but never adds them to `a`'s member list. A later merge of that group moves only the variables still listed in it. | Variables 0..3 each in their own group. Merge 1 with 2, then 0 with 1. Variable 2 ends in a different group from 0 and 1. | `b`'s members join `a`'s member list, so every variable of both groups stays in the merged group through later merges. | not executed | LimitTypes.StaleMembersSplitGroup | LimitTypes.MergeMembersValid |
