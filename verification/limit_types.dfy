/**
 * The possible-types limiter of src/compiler/types.rs: a `TypeScope` maps
 * each variable to a type group through `varTypeGroups`; a group holds the
 * types its variables may still have. Limiting two sets of possible types
 * intersects them, and limiting two groups merges them into one.
 */
module LimitTypes {
  import opened Wrappers

  /** An interned member name (`StringIdx`). */
  type Name = nat

  /** `PossibleTypes`: no constraint, a list of candidates, or whatever a variable's group allows. */
  datatype PossibleTypes = Any | OneOf(types: seq<Ty>) | OfGroup(variable: nat)

  datatype Ty =
    | Unit
    | Boolean
    | Integer
    | Float
    | String
    | Array(element: PossibleTypes)
    | Object(members: map<Name, PossibleTypes>)
    | Closure(scope: ScopeValue, parameters: seq<nat>, returned: PossibleTypes)

  datatype TypeGroup = TypeGroup(possibleTypes: PossibleTypes, members: seq<nat>)

  /** A `TypeScope` as a value: what a closure type carries and what the scope object holds. */
  datatype ScopeValue = ScopeValue(varTypeGroups: seq<nat>, typeGroups: seq<TypeGroup>)

  const EmptyScope := ScopeValue([], [])

  // ---------------------------------------------------------------------------
  // Well-formedness
  // ---------------------------------------------------------------------------

  /** Every variable named (outside closures, which carry their own scope) is one of the first `n`. */
  predicate RefsIn(p: PossibleTypes, n: nat)
  {
    match p
    case Any => true
    case OneOf(ts) => forall i :: 0 <= i < |ts| ==> TyRefsIn(ts[i], n)
    case OfGroup(v) => v < n
  }

  predicate TyRefsIn(t: Ty, n: nat)
  {
    match t
    case Array(e) => RefsIn(e, n)
    case Object(m) => forall k :: k in m ==> RefsIn(m[k], n)
    case _ => true
  }

  /** No group is named anywhere, closures' return types included. */
  predicate GroupFree(p: PossibleTypes)
  {
    match p
    case Any => true
    case OneOf(ts) => forall i :: 0 <= i < |ts| ==> TyGroupFree(ts[i])
    case OfGroup(_) => false
  }

  predicate TyGroupFree(t: Ty)
  {
    match t
    case Array(e) => GroupFree(e)
    case Object(m) => forall k :: k in m ==> GroupFree(m[k])
    case Closure(_, _, r) => GroupFree(r)
    case _ => true
  }

  lemma {:induction false} GroupFreeRefsIn(p: PossibleTypes, n: nat)
    requires GroupFree(p)
    ensures RefsIn(p, n)
    decreases p, 0
  {
    match p
    case OneOf(ts) =>
      forall i | 0 <= i < |ts| ensures TyRefsIn(ts[i], n) { TyGroupFreeRefsIn(ts[i], n); }
    case _ =>
  }

  lemma {:induction false} TyGroupFreeRefsIn(t: Ty, n: nat)
    requires TyGroupFree(t)
    ensures TyRefsIn(t, n)
    decreases t, 0
  {
    match t
    case Array(e) => GroupFreeRefsIn(e, n);
    case Object(m) =>
      forall k | k in m ensures RefsIn(m[k], n) { GroupFreeRefsIn(m[k], n); }
    case _ =>
  }

  /**
   * The scope's tables agree: every variable's group exists and lists it as a
   * member, every member of a group maps back to that group, and every group's
   * types name only existing variables.
   */
  predicate ValidScope(s: ScopeValue)
  {
    (forall v :: 0 <= v < |s.varTypeGroups| ==>
       s.varTypeGroups[v] < |s.typeGroups| && v in s.typeGroups[s.varTypeGroups[v]].members) &&
    (forall g :: 0 <= g < |s.typeGroups| ==> RefsIn(s.typeGroups[g].possibleTypes, |s.varTypeGroups|)) &&
    (forall g, m {:trigger m in s.typeGroups[g].members} :: (0 <= g < |s.typeGroups| && m in s.typeGroups[g].members) ==>
       (m < |s.varTypeGroups| && s.varTypeGroups[m] == g))
  }

  /** The possible types of variable `v`'s group. */
  function TypesOf(s: ScopeValue, v: nat): PossibleTypes
    requires ValidScope(s) && v < |s.varTypeGroups|
  {
    s.typeGroups[s.varTypeGroups[v]].possibleTypes
  }

  /** The scope with group `g`'s possible types replaced by `t`. */
  function WithTypes(s: ScopeValue, g: nat, t: PossibleTypes): ScopeValue
    requires g < |s.typeGroups|
  {
    ScopeValue(s.varTypeGroups, s.typeGroups[g := s.typeGroups[g].(possibleTypes := t)])
  }

  /** The scope after `register_variable`: a new variable alone in a new unconstrained group. */
  function Registered(s: ScopeValue): ScopeValue
  {
    ScopeValue(s.varTypeGroups + [|s.typeGroups|], s.typeGroups + [TypeGroup(Any, [|s.varTypeGroups|])])
  }

  /**
   * Registering keeps the tables consistent: earlier variables keep their
   * groups and types, and the new one shares its group with nobody and may
   * have any type.
   */
  lemma RegisterSound(s: ScopeValue)
    requires ValidScope(s)
    ensures ValidScope(Registered(s))
    ensures Registered(s).varTypeGroups[..|s.varTypeGroups|] == s.varTypeGroups
    ensures TypesOf(Registered(s), |s.varTypeGroups|) == Any
    ensures forall v :: 0 <= v < |s.varTypeGroups| ==>
      TypesOf(Registered(s), v) == TypesOf(s, v) &&
      Registered(s).varTypeGroups[v] != Registered(s).varTypeGroups[|s.varTypeGroups|]
  {
    var r := Registered(s);
    var n := |s.varTypeGroups|;
    forall v | 0 <= v < |r.varTypeGroups|
      ensures r.varTypeGroups[v] < |r.typeGroups| && v in r.typeGroups[r.varTypeGroups[v]].members
    {
      if v < n {
        assert v in s.typeGroups[s.varTypeGroups[v]].members;
      }
    }
    forall g, m | 0 <= g < |r.typeGroups| && m in r.typeGroups[g].members
      ensures m < |r.varTypeGroups| && r.varTypeGroups[m] == g
    {
      if g < |s.typeGroups| {
        assert m in s.typeGroups[g].members;
      }
    }
    forall g | 0 <= g < |r.typeGroups| ensures RefsIn(r.typeGroups[g].possibleTypes, |r.varTypeGroups|) {
      if g < |s.typeGroups| {
        RefsInGrows(s.typeGroups[g].possibleTypes, n, n + 1);
      }
    }
  }

  /** Naming only the first `n` variables means naming only the first `n'` for any larger `n'`. */
  lemma RefsInGrows(p: PossibleTypes, n: nat, n': nat)
    requires RefsIn(p, n) && n <= n'
    ensures RefsIn(p, n')
    decreases p, 0
  {
    match p
    case OneOf(ts) =>
      forall i | 0 <= i < |ts| ensures TyRefsIn(ts[i], n') { TyRefsInGrows(ts[i], n, n'); }
    case _ =>
  }

  lemma TyRefsInGrows(t: Ty, n: nat, n': nat)
    requires TyRefsIn(t, n) && n <= n'
    ensures TyRefsIn(t, n')
    decreases t, 0
  {
    match t
    case Array(e) => RefsInGrows(e, n, n');
    case Object(m) =>
      forall k | k in m ensures RefsIn(m[k], n') { RefsInGrows(m[k], n, n'); }
    case _ =>
  }

  /** Variables that shared a group still share one: groups only ever merge. */
  predicate Coarsens(s: ScopeValue, s': ScopeValue)
  {
    |s'.varTypeGroups| == |s.varTypeGroups| &&
    forall x, y :: (0 <= x < |s.varTypeGroups| && 0 <= y < |s.varTypeGroups| &&
      s.varTypeGroups[x] == s.varTypeGroups[y]) ==> s'.varTypeGroups[x] == s'.varTypeGroups[y]
  }

  lemma CoarsensTransitive(s1: ScopeValue, s2: ScopeValue, s3: ScopeValue)
    requires Coarsens(s1, s2) && Coarsens(s2, s3)
    ensures Coarsens(s1, s3)
  {
  }

  // ---------------------------------------------------------------------------
  // Limiting, as a function (for inputs that name no group)
  // ---------------------------------------------------------------------------

  /**
   * `possible_types_limited` on inputs that name no group, where it neither
   * reads nor writes the scope: `Any` gives way to the other side; two lists
   * keep, for each left candidate in order, its limit with the first right
   * candidate it limits with, and fail if none does.
   */
  function Limit(a: PossibleTypes, b: PossibleTypes): Option<PossibleTypes>
    requires GroupFree(a) && GroupFree(b)
    decreases a, 2, 0
  {
    if a.Any? then Some(b)
    else if b.Any? then Some(a)
    else
      var limited := FirstMatches(a, b.types, |a.types|);
      if limited == [] then None else Some(OneOf(limited))
  }

  /** The limit of `t` with the first candidate in `bs` that it limits with. */
  function FirstMatch(t: Ty, bs: seq<Ty>): Option<Ty>
    requires TyGroupFree(t) && forall j :: 0 <= j < |bs| ==> TyGroupFree(bs[j])
    decreases t, 2, |bs|
  {
    if bs == [] then None
    else
      var l := TyLimit(t, bs[0]);
      if l.Some? then l else FirstMatch(t, bs[1..])
  }

  /** For each of the first `n` left candidates in order, its first match (if any). */
  function FirstMatches(a: PossibleTypes, bs: seq<Ty>, n: nat): seq<Ty>
    requires a.OneOf? && GroupFree(a) && n <= |a.types|
    requires forall j :: 0 <= j < |bs| ==> TyGroupFree(bs[j])
    decreases a, 1, n
  {
    if n == 0 then []
    else
      var init := FirstMatches(a, bs, n - 1);
      var m := FirstMatch(a.types[n - 1], bs);
      if m.Some? then init + [m.value] else init
  }

  /** The merged members of two objects: all names of both; shared ones limited. */
  function ObjectMembers(a: Ty, b: Ty): map<Name, PossibleTypes>
    requires a.Object? && b.Object? && TyGroupFree(a) && TyGroupFree(b)
    requires forall k :: k in a.members && k in b.members ==> Limit(a.members[k], b.members[k]).Some?
    decreases a, 0, 0
  {
    map k | k in a.members.Keys + b.members.Keys ::
      if k in a.members && k in b.members then Limit(a.members[k], b.members[k]).value
      else if k in b.members then b.members[k] else a.members[k]
  }

  /** A map with every member name of both objects, holding what `ObjectMembers` holds, is `ObjectMembers`. */
  lemma ObjectMembersEqual(a: Ty, b: Ty, members: map<Name, PossibleTypes>)
    requires a.Object? && b.Object? && TyGroupFree(a) && TyGroupFree(b)
    requires forall k :: k in a.members && k in b.members ==> Limit(a.members[k], b.members[k]).Some?
    requires members.Keys == a.members.Keys + b.members.Keys
    requires forall k :: k in a.members && k !in b.members ==> members[k] == a.members[k]
    requires forall k :: k in b.members && k !in a.members ==> members[k] == b.members[k]
    requires forall k :: k in b.members && k in a.members ==> members[k] == Limit(a.members[k], b.members[k]).value
    ensures members == ObjectMembers(a, b)
  {
  }

  /** The object arm's progress: b's members in `done` added to a's, the rest of a's untouched. */
  predicate MembersSoFar(a: Ty, b: Ty, members: map<Name, PossibleTypes>, done: set<Name>)
    requires a.Object? && b.Object?
  {
    done <= b.members.Keys &&
    members.Keys == a.members.Keys + done &&
    (forall k :: k in a.members && k !in done ==> members[k] == a.members[k]) &&
    (forall k :: k in done && k !in a.members ==> members[k] == b.members[k])
  }

  /** On types that name no group, every shared member handled so far holds its limited types. */
  predicate SharedLimited(a: Ty, b: Ty, members: map<Name, PossibleTypes>, done: set<Name>)
    requires a.Object? && b.Object?
  {
    TyGroupFree(a) && TyGroupFree(b) ==>
      forall k :: k in done && k in a.members && k in b.members && k in members ==>
        Limit(a.members[k], b.members[k]).Some? && members[k] == Limit(a.members[k], b.members[k]).value
  }

  /** One more member of b handled keeps the object arm's progress. */
  lemma MembersStep(a: Ty, b: Ty, members: map<Name, PossibleTypes>, done: set<Name>, k: Name, v: PossibleTypes)
    requires a.Object? && b.Object? && MembersSoFar(a, b, members, done) && SharedLimited(a, b, members, done)
    requires k in b.members && k !in done
    requires k !in a.members ==> v == b.members[k]
    requires TyGroupFree(a) && TyGroupFree(b) && k in a.members ==>
      Limit(a.members[k], b.members[k]) == Some(v)
    ensures MembersSoFar(a, b, members[k := v], done + {k}) && SharedLimited(a, b, members[k := v], done + {k})
  {
  }

  /**
   * `types_limited` on types that name no group: arrays limit their elements;
   * objects keep every member of both sides and fail if a shared member does;
   * closures need the same number of parameters; other kinds limit to the left
   * type when both are the same kind.
   */
  function TyLimit(a: Ty, b: Ty): Option<Ty>
    requires TyGroupFree(a) && TyGroupFree(b)
    decreases a, 1, 0
  {
    match (a, b)
    case (Array(ea), Array(eb)) =>
      var e := Limit(ea, eb);
      if e.Some? then Some(Array(e.value)) else None
    case (Object(am), Object(bm)) =>
      if forall k :: k in am && k in bm ==> Limit(am[k], bm[k]).Some? then
        Some(Object(ObjectMembers(a, b)))
      else None
    case (Closure(_, pa, ra), Closure(_, pb, rb)) =>
      if |pa| != |pb| || |pa| > 0 then None
      else
        var r := Limit(ra, rb);
        if r.Some? then Some(Closure(EmptyScope, [], r.value)) else None
    case _ => if SameKind(a, b) then Some(a) else None
  }

  /** `std::mem::discriminant(a) == std::mem::discriminant(b)`. */
  predicate SameKind(a: Ty, b: Ty)
  {
    (a.Unit? && b.Unit?) || (a.Boolean? && b.Boolean?) || (a.Integer? && b.Integer?) ||
    (a.Float? && b.Float?) || (a.String? && b.String?) || (a.Array? && b.Array?) ||
    (a.Object? && b.Object?) || (a.Closure? && b.Closure?)
  }

  // ---------------------------------------------------------------------------
  // Properties of limiting
  // ---------------------------------------------------------------------------

  /** `Any` on either side gives the other side unchanged. */
  lemma AnyAbsorbs(a: PossibleTypes, b: PossibleTypes)
    requires GroupFree(a) && GroupFree(b)
    ensures Limit(Any, b) == Some(b)
    ensures !b.Any? ==> Limit(b, Any) == Some(b)
    ensures Limit(a, Any) == Some(a)
  {
  }

  /** `FirstMatch` finds nothing iff `t` limits with no candidate. */
  lemma {:induction false} FirstMatchNone(t: Ty, bs: seq<Ty>)
    requires TyGroupFree(t) && forall j :: 0 <= j < |bs| ==> TyGroupFree(bs[j])
    ensures FirstMatch(t, bs).None? <==> forall j :: 0 <= j < |bs| ==> TyLimit(t, bs[j]).None?
    decreases |bs|
  {
    if bs != [] {
      var rest := bs[1..];
      FirstMatchNone(t, rest);
      if TyLimit(t, bs[0]).None? {
        forall j | 0 <= j < |bs| && TyLimit(t, bs[j]).Some? ensures FirstMatch(t, rest).Some? {
          assert bs[j] == rest[j - 1];
        }
      }
    }
  }

  /** When `FirstMatch` finds something, it is what `t` limits to with the first candidate it limits with. */
  lemma {:induction false} FirstMatchIsFirst(t: Ty, bs: seq<Ty>)
    requires TyGroupFree(t) && forall j :: 0 <= j < |bs| ==> TyGroupFree(bs[j])
    requires FirstMatch(t, bs).Some?
    ensures exists j :: (0 <= j < |bs| && TyLimit(t, bs[j]) == FirstMatch(t, bs) &&
                         forall k :: 0 <= k < j ==> TyLimit(t, bs[k]).None?)
    decreases |bs|
  {
    if TyLimit(t, bs[0]).Some? {
      assert TyLimit(t, bs[0]) == FirstMatch(t, bs);
    } else {
      var rest := bs[1..];
      FirstMatchIsFirst(t, rest);
      var j :| 0 <= j < |rest| && TyLimit(t, rest[j]) == FirstMatch(t, rest) &&
        forall k :: 0 <= k < j ==> TyLimit(t, rest[k]).None?;
      assert bs[j + 1] == rest[j];
      forall k | 0 <= k < j + 1 ensures TyLimit(t, bs[k]).None? {
        if k > 0 { assert bs[k] == rest[k - 1]; }
      }
    }
  }

  /** At most one limited type per left candidate; none at all iff no pair of candidates limits. */
  lemma {:induction false} FirstMatchesCount(a: PossibleTypes, bs: seq<Ty>, n: nat)
    requires a.OneOf? && GroupFree(a) && n <= |a.types|
    requires forall j :: 0 <= j < |bs| ==> TyGroupFree(bs[j])
    ensures |FirstMatches(a, bs, n)| <= n
    ensures FirstMatches(a, bs, n) == [] <==>
      forall i, j :: 0 <= i < n && 0 <= j < |bs| ==> TyLimit(a.types[i], bs[j]).None?
    decreases n
  {
    if n > 0 {
      FirstMatchesCount(a, bs, n - 1);
      FirstMatchNone(a.types[n - 1], bs);
    }
  }

  /** Two candidate lists limit to a list no longer than the left one, and fail iff no pair limits. */
  lemma OneOfLimit(a: PossibleTypes, b: PossibleTypes)
    requires a.OneOf? && b.OneOf? && GroupFree(a) && GroupFree(b)
    ensures Limit(a, b).None? <==>
      forall i, j :: 0 <= i < |a.types| && 0 <= j < |b.types| ==> TyLimit(a.types[i], b.types[j]).None?
    ensures Limit(a, b).Some? ==> Limit(a, b).value.OneOf? && |Limit(a, b).value.types| <= |a.types|
  {
    FirstMatchesCount(a, b.types, |a.types|);
  }

  /** Objects: the limit has every member name of both sides, and exists iff every shared member limits. */
  lemma ObjectLimit(a: Ty, b: Ty)
    requires a.Object? && b.Object? && TyGroupFree(a) && TyGroupFree(b)
    ensures TyLimit(a, b).Some? <==>
      forall k :: k in a.members && k in b.members ==> Limit(a.members[k], b.members[k]).Some?
    ensures TyLimit(a, b).Some? ==>
      TyLimit(a, b).value.Object? && TyLimit(a, b).value.members.Keys == a.members.Keys + b.members.Keys &&
      (forall k :: k in a.members && k in b.members ==>
         TyLimit(a, b).value.members[k] == Limit(a.members[k], b.members[k]).value) &&
      (forall k :: k in b.members && k !in a.members ==> TyLimit(a, b).value.members[k] == b.members[k]) &&
      (forall k :: k in a.members && k !in b.members ==> TyLimit(a, b).value.members[k] == a.members[k])
  {
  }

  /** Closures with different parameter counts never limit. */
  lemma ClosureArity(a: Ty, b: Ty)
    requires a.Closure? && b.Closure? && TyGroupFree(a) && TyGroupFree(b)
    requires |a.parameters| != |b.parameters|
    ensures TyLimit(a, b).None?
  {
  }

  /** Types of different kinds never limit; equal primitive kinds limit to the left type. */
  lemma KindsLimit(a: Ty, b: Ty)
    requires TyGroupFree(a) && TyGroupFree(b)
    ensures !SameKind(a, b) ==> TyLimit(a, b).None?
    ensures SameKind(a, b) && !a.Array? && !a.Object? && !a.Closure? ==> TyLimit(a, b) == Some(a)
    ensures TyLimit(a, b).Some? ==> SameKind(a, TyLimit(a, b).value)
  {
  }

  // ---------------------------------------------------------------------------
  // Merging two groups
  // ---------------------------------------------------------------------------

  /** A group index after the group at `removed` is taken out of `type_groups`. */
  function Shift(g: nat, removed: nat): nat
  {
    if g <= removed then g else g - 1
  }

  /** `Vec::remove`. */
  function Remove<T>(s: seq<T>, i: nat): (r: seq<T>)
    requires i < |s|
    ensures |r| == |s| - 1
    ensures forall k :: 0 <= k < |r| ==> r[k] == if k < i then s[k] else s[k + 1]
  {
    s[..i] + s[i + 1..]
  }

  /**
   * The group-with-group step of `possible_types_limited` as written: the
   * merged types go to a's group, the variables listed as b's members are
   * pointed at a's group, b's group is removed and later group indices shift
   * down. a's member list is left as it was, and nothing checks that the two
   * groups differ.
   */
  function MergeAsWritten(s: ScopeValue, ga: nat, gb: nat, t: PossibleTypes): ScopeValue
    requires ga < |s.typeGroups| && gb < |s.typeGroups|
  {
    var groups := s.typeGroups[ga := s.typeGroups[ga].(possibleTypes := t)];
    var bMembers := s.typeGroups[gb].members;
    ScopeValue(
      seq(|s.varTypeGroups|, v requires 0 <= v < |s.varTypeGroups| =>
        Shift(if v in bMembers then ga else s.varTypeGroups[v], gb)),
      Remove(groups, gb))
  }

  /** Limiting a group with itself, as written, removes the group its variable still points to. */
  lemma SharedGroupDeleted()
    ensures var s := ScopeValue([0], [TypeGroup(Any, [0])]);
      ValidScope(s) &&
      MergeAsWritten(s, 0, 0, Any) == ScopeValue([0], []) &&
      !ValidScope(MergeAsWritten(s, 0, 0, Any))
  {
    var s := ScopeValue([0], [TypeGroup(Any, [0])]);
    var r := MergeAsWritten(s, 0, 0, Any);
    assert r.varTypeGroups == [0];
  }

  /**
   * As written, a variable merged into a group earlier is missing from that
   * group's member list, so a later merge leaves it behind: with variables
   * 0..3 in groups 0..3, limiting 1 with 2 and then 0 with 1 puts variable 2
   * in the group of variable 3 instead of the group of 0 and 1.
   */
  lemma StaleMembersSplitGroup()
    ensures var s0 := ScopeValue([0, 1, 2, 3], [TypeGroup(Any, [0]), TypeGroup(Any, [1]),
                                                TypeGroup(Any, [2]), TypeGroup(Any, [3])]);
      var s1 := MergeAsWritten(s0, 1, 2, Any);
      var s2 := MergeAsWritten(s1, 0, 1, Any);
      ValidScope(s0) && s1.varTypeGroups == [0, 1, 1, 2] && s2.varTypeGroups == [0, 0, 1, 1]
  {
    StaleFirstMerge();
    StaleSecondMerge();
  }

  /** The first merge of the example: variable 2 joins group 1, whose member list stays [1]. */
  lemma StaleFirstMerge()
    ensures MergeAsWritten(ScopeValue([0, 1, 2, 3], [TypeGroup(Any, [0]), TypeGroup(Any, [1]),
                                                     TypeGroup(Any, [2]), TypeGroup(Any, [3])]), 1, 2, Any) ==
      ScopeValue([0, 1, 1, 2], [TypeGroup(Any, [0]), TypeGroup(Any, [1]), TypeGroup(Any, [3])])
  {
    var s1 := MergeAsWritten(ScopeValue([0, 1, 2, 3], [TypeGroup(Any, [0]), TypeGroup(Any, [1]),
                                                       TypeGroup(Any, [2]), TypeGroup(Any, [3])]), 1, 2, Any);
    assert s1.varTypeGroups == [0, 1, 1, 2];
  }

  /** The second merge of the example: only variable 1, listed in group 1, follows group 0. */
  lemma StaleSecondMerge()
    ensures MergeAsWritten(ScopeValue([0, 1, 1, 2], [TypeGroup(Any, [0]), TypeGroup(Any, [1]), TypeGroup(Any, [3])]),
                           0, 1, Any).varTypeGroups == [0, 0, 1, 1]
  {
    var s2 := MergeAsWritten(ScopeValue([0, 1, 1, 2], [TypeGroup(Any, [0]), TypeGroup(Any, [1]), TypeGroup(Any, [3])]),
                             0, 1, Any);
    assert s2.varTypeGroups[2] == 1;
  }

  /** Variables of group `gb` move to `ga`; every group index past `gb` moves down by one. */
  function Redirect(vtg: seq<nat>, ga: nat, gb: nat): (r: seq<nat>)
    ensures |r| == |vtg|
    ensures forall v :: 0 <= v < |vtg| ==> r[v] == Shift(if vtg[v] == gb then ga else vtg[v], gb)
  {
    seq(|vtg|, v requires 0 <= v < |vtg| => Shift(if vtg[v] == gb then ga else vtg[v], gb))
  }

  /** The group at `g` once `gb` has been merged into `ga`. */
  function MergedGroup(tg: seq<TypeGroup>, ga: nat, gb: nat, t: PossibleTypes, g: nat): TypeGroup
    requires ga < |tg| && gb < |tg| && g < |tg|
  {
    if g == ga then TypeGroup(t, tg[ga].members + tg[gb].members) else tg[g]
  }

  /** The group table once `gb` has been merged into `ga` and removed. */
  function MergedGroups(tg: seq<TypeGroup>, ga: nat, gb: nat, t: PossibleTypes): (r: seq<TypeGroup>)
    requires ga < |tg| && gb < |tg| && ga != gb
    ensures |r| == |tg| - 1
    ensures forall k :: 0 <= k < |r| ==> r[k] == MergedGroup(tg, ga, gb, t, if k < gb then k else k + 1)
    ensures forall g :: 0 <= g < |tg| && g != gb ==> r[Shift(g, gb)] == MergedGroup(tg, ga, gb, t, g)
  {
    Remove(tg[ga := TypeGroup(t, tg[ga].members + tg[gb].members)], gb)
  }

  /**
   * The merge step as intended: b's members join a's member list, and merging
   * a group with itself only stores the limited types.
   */
  function Merge(s: ScopeValue, ga: nat, gb: nat, t: PossibleTypes): ScopeValue
    requires ga < |s.typeGroups| && gb < |s.typeGroups|
  {
    if ga == gb then WithTypes(s, ga, t)
    else ScopeValue(Redirect(s.varTypeGroups, ga, gb), MergedGroups(s.typeGroups, ga, gb, t))
  }

  /**
   * Merging keeps the tables consistent, only coarsens the grouping, puts
   * every variable of either group into one group holding the limited types,
   * removes exactly one group when the two differ, and leaves every other
   * group as it was, at its shifted index when one was removed.
   */
  lemma MergeSound(s: ScopeValue, ga: nat, gb: nat, t: PossibleTypes)
    requires ValidScope(s) && ga < |s.typeGroups| && gb < |s.typeGroups|
    requires RefsIn(t, |s.varTypeGroups|)
    ensures ValidScope(Merge(s, ga, gb, t))
    ensures Coarsens(s, Merge(s, ga, gb, t))
    ensures |Merge(s, ga, gb, t).typeGroups| == |s.typeGroups| - (if ga == gb then 0 else 1)
    ensures Merge(s, ga, gb, t).typeGroups[Shift(ga, gb)].possibleTypes == t
    ensures forall v :: 0 <= v < |s.varTypeGroups| && (s.varTypeGroups[v] == ga || s.varTypeGroups[v] == gb) ==>
      Merge(s, ga, gb, t).varTypeGroups[v] == Shift(ga, gb)
    ensures ga != gb ==> forall v :: 0 <= v < |s.varTypeGroups| && s.varTypeGroups[v] != ga && s.varTypeGroups[v] != gb ==>
      Merge(s, ga, gb, t).varTypeGroups[v] == Shift(s.varTypeGroups[v], gb)
    ensures ga != gb ==> forall g :: 0 <= g < |s.typeGroups| && g != ga && g != gb ==>
      Merge(s, ga, gb, t).typeGroups[Shift(g, gb)] == s.typeGroups[g]
    ensures ga == gb ==> Merge(s, ga, gb, t).varTypeGroups == s.varTypeGroups
    ensures ga == gb ==> forall g :: 0 <= g < |s.typeGroups| && g != ga ==>
      Merge(s, ga, gb, t).typeGroups[g] == s.typeGroups[g]
  {
    if ga == gb {
      WithTypesSound(s, ga, t);
    } else {
      MergeDistinctValid(s, ga, gb, t);
      MergeDistinctShape(s, ga, gb, t);
    }
  }

  lemma MergeDistinctValid(s: ScopeValue, ga: nat, gb: nat, t: PossibleTypes)
    requires ValidScope(s) && ga < |s.typeGroups| && gb < |s.typeGroups| && ga != gb
    requires RefsIn(t, |s.varTypeGroups|)
    ensures ValidScope(Merge(s, ga, gb, t))
  {
    MergeVariablesValid(s, ga, gb, t);
    MergeMembersValid(s, ga, gb, t);
  }

  lemma MergeDistinctShape(s: ScopeValue, ga: nat, gb: nat, t: PossibleTypes)
    requires ga < |s.typeGroups| && gb < |s.typeGroups| && ga != gb
    ensures Coarsens(s, Merge(s, ga, gb, t))
    ensures |Merge(s, ga, gb, t).typeGroups| == |s.typeGroups| - 1
    ensures Merge(s, ga, gb, t).typeGroups[Shift(ga, gb)].possibleTypes == t
    ensures forall v :: 0 <= v < |s.varTypeGroups| && (s.varTypeGroups[v] == ga || s.varTypeGroups[v] == gb) ==>
      Merge(s, ga, gb, t).varTypeGroups[v] == Shift(ga, gb)
    ensures forall v :: 0 <= v < |s.varTypeGroups| && s.varTypeGroups[v] != ga && s.varTypeGroups[v] != gb ==>
      Merge(s, ga, gb, t).varTypeGroups[v] == Shift(s.varTypeGroups[v], gb)
    ensures forall g :: 0 <= g < |s.typeGroups| && g != ga && g != gb ==>
      Merge(s, ga, gb, t).typeGroups[Shift(g, gb)] == s.typeGroups[g]
  {
  }

  /**
   * Storing new types for one group keeps the tables consistent and the
   * grouping as it was, and changes the types of exactly that group's variables.
   */
  lemma WithTypesSound(s: ScopeValue, g: nat, t: PossibleTypes)
    requires ValidScope(s) && g < |s.typeGroups| && RefsIn(t, |s.varTypeGroups|)
    ensures ValidScope(WithTypes(s, g, t))
    ensures WithTypes(s, g, t).varTypeGroups == s.varTypeGroups
    ensures forall v :: 0 <= v < |s.varTypeGroups| && s.varTypeGroups[v] == g ==> TypesOf(WithTypes(s, g, t), v) == t
    ensures forall v :: 0 <= v < |s.varTypeGroups| && s.varTypeGroups[v] != g ==>
      TypesOf(WithTypes(s, g, t), v) == TypesOf(s, v)
  {
    var r := WithTypes(s, g, t);
    assert r.varTypeGroups == s.varTypeGroups;
    assert forall k :: 0 <= k < |r.typeGroups| ==> r.typeGroups[k].members == s.typeGroups[k].members;
    assert forall k :: 0 <= k < |r.typeGroups| ==> RefsIn(r.typeGroups[k].possibleTypes, |r.varTypeGroups|);
    forall k, m | 0 <= k < |r.typeGroups| && m in r.typeGroups[k].members
      ensures m < |r.varTypeGroups| && r.varTypeGroups[m] == k
    {
      assert m in s.typeGroups[k].members;
    }
  }

  /** After a merge of two different groups every variable's group exists and lists it. */
  lemma MergeVariablesValid(s: ScopeValue, ga: nat, gb: nat, t: PossibleTypes)
    requires ValidScope(s) && ga < |s.typeGroups| && gb < |s.typeGroups| && ga != gb
    ensures var r := Merge(s, ga, gb, t);
      forall v :: 0 <= v < |r.varTypeGroups| ==>
        r.varTypeGroups[v] < |r.typeGroups| && v in r.typeGroups[r.varTypeGroups[v]].members
  {
    var r := Merge(s, ga, gb, t);
    forall v | 0 <= v < |r.varTypeGroups|
      ensures r.varTypeGroups[v] < |r.typeGroups| && v in r.typeGroups[r.varTypeGroups[v]].members
    {
      var g := if s.varTypeGroups[v] == gb then ga else s.varTypeGroups[v];
      assert v < |s.varTypeGroups|;
      assert v in s.typeGroups[s.varTypeGroups[v]].members;
      assert g < |s.typeGroups| && g != gb;
      assert r.varTypeGroups[v] == Shift(g, gb);
      assert r.typeGroups[Shift(g, gb)] == MergedGroup(s.typeGroups, ga, gb, t, g);
    }
  }

  /** After a merge of two different groups, one member of one group maps back to it. */
  lemma MergeMemberValid(s: ScopeValue, ga: nat, gb: nat, t: PossibleTypes, k: nat, m: nat)
    requires ValidScope(s) && ga < |s.typeGroups| && gb < |s.typeGroups| && ga != gb
    requires k < |s.typeGroups| - 1
    requires m in MergedGroups(s.typeGroups, ga, gb, t)[k].members
    ensures m < |s.varTypeGroups| && Redirect(s.varTypeGroups, ga, gb)[m] == k
  {
    var g := if k < gb then k else k + 1;
    var tg := s.typeGroups;
    assert MergedGroups(tg, ga, gb, t)[k] == MergedGroup(tg, ga, gb, t, g);
    if g == ga {
      assert m in tg[ga].members || m in tg[gb].members;
      assert s.varTypeGroups[m] == ga || s.varTypeGroups[m] == gb;
    } else {
      assert m in tg[g].members;
      assert s.varTypeGroups[m] == g;
    }
  }

  /** After a merge of two different groups every member of a group maps back to it. */
  lemma MergeMembersValid(s: ScopeValue, ga: nat, gb: nat, t: PossibleTypes)
    requires ValidScope(s) && ga < |s.typeGroups| && gb < |s.typeGroups| && ga != gb
    ensures var r := Merge(s, ga, gb, t);
      forall k, m :: (0 <= k < |r.typeGroups| && m in r.typeGroups[k].members) ==>
        (m < |r.varTypeGroups| && r.varTypeGroups[m] == k)
  {
    var r := Merge(s, ga, gb, t);
    forall k, m | 0 <= k < |r.typeGroups| && m in r.typeGroups[k].members
      ensures m < |r.varTypeGroups| && r.varTypeGroups[m] == k
    {
      MergeMemberValid(s, ga, gb, t, k, m);
    }
  }

  // ---------------------------------------------------------------------------
  // The scope object
  // ---------------------------------------------------------------------------

  /** `limit_possible_types` fails with both operands, for the error message. */
  datatype LimitError = NoPossibleTypes(left: PossibleTypes, right: PossibleTypes)

  /** Both loops of the merge step on the variable table: b's members pointed at a, then indices shifted. */
  method RedirectVars(s: ScopeValue, ga: nat, gb: nat) returns (r: seq<nat>)
    requires ValidScope(s) && ga < |s.typeGroups| && gb < |s.typeGroups|
    ensures r == Redirect(s.varTypeGroups, ga, gb)
  {
    var bMembers := s.typeGroups[gb].members;
    forall k | 0 <= k < |bMembers| ensures bMembers[k] < |s.varTypeGroups| {
      assert bMembers[k] in s.typeGroups[gb].members;
    }
    var pointed := PointAt(s.varTypeGroups, bMembers, ga);
    forall v | 0 <= v < |pointed|
      ensures pointed[v] == if s.varTypeGroups[v] == gb then ga else s.varTypeGroups[v]
    {
      if v in bMembers {
        assert v in s.typeGroups[gb].members;
      } else {
        assert v in s.typeGroups[s.varTypeGroups[v]].members;
      }
    }
    r := ShiftDown(pointed, gb);
  }

  /** The first loop of the merge step: each listed variable pointed at group `g`. */
  method PointAt(vtg: seq<nat>, members: seq<nat>, g: nat) returns (r: seq<nat>)
    requires forall k :: 0 <= k < |members| ==> members[k] < |vtg|
    ensures |r| == |vtg|
    ensures forall v :: 0 <= v < |vtg| ==> r[v] == if v in members then g else vtg[v]
  {
    r := vtg;
    for i := 0 to |members|
      invariant |r| == |vtg|
      invariant forall v :: 0 <= v < |vtg| ==> r[v] == if v in members[..i] then g else vtg[v]
    {
      assert members[..i + 1] == members[..i] + [members[i]];
      r := r[members[i] := g];
    }
    assert members[..|members|] == members;
  }

  /** The second loop of the merge step: every group index after the removed one moved down by one. */
  method ShiftDown(vtg: seq<nat>, removed: nat) returns (r: seq<nat>)
    ensures |r| == |vtg|
    ensures forall v :: 0 <= v < |vtg| ==> r[v] == Shift(vtg[v], removed)
  {
    r := vtg;
    for i := 0 to |r|
      invariant |r| == |vtg|
      invariant forall j :: 0 <= j < i ==> r[j] == Shift(vtg[j], removed)
      invariant forall j :: i <= j < |r| ==> r[j] == vtg[j]
    {
      if r[i] > removed {
        r := r[i := r[i] - 1];
      }
    }
  }


  /**
   * `TypeScope`: the variable-to-group table and the groups, updated in place.
   * The limiting methods take `fuel`, the number of group look-ups they may
   * still make on one path; running out of it gives `None`.
   */
  class TypeScope {
    var varTypeGroups: seq<nat>
    var typeGroups: seq<TypeGroup>

    function Value(): ScopeValue
      reads this
    {
      ScopeValue(varTypeGroups, typeGroups)
    }

    ghost predicate Valid()
      reads this
    {
      ValidScope(Value())
    }

    /** `TypeScope::new`. */
    constructor ()
      ensures Value() == EmptyScope && Valid()
    {
      varTypeGroups := [];
      typeGroups := [];
    }

    /** `register_variable`: the new variable's index, alone in a new group of any type. */
    method RegisterVariable() returns (v: nat)
      modifies this
      ensures v == |old(varTypeGroups)|
      ensures Value() == Registered(old(Value()))
      ensures old(Valid()) ==> Valid() && TypesOf(Value(), v) == Any
    {
      v := |varTypeGroups|;
      var g := |typeGroups|;
      varTypeGroups := varTypeGroups + [g];
      typeGroups := typeGroups + [TypeGroup(Any, [v])];
      if old(Valid()) {
        RegisterSound(old(Value()));
      }
    }

    /** `get_group_types`. */
    function GroupTypes(v: nat): (r: PossibleTypes)
      reads this
      requires Valid() && v < |varTypeGroups|
      ensures RefsIn(r, |varTypeGroups|)
      ensures forall w :: 0 <= w < |varTypeGroups| && varTypeGroups[w] == varTypeGroups[v] ==> TypesOf(Value(), w) == r
    {
      typeGroups[varTypeGroups[v]].possibleTypes
    }

    /**
     * The group-with-group step of `possible_types_limited`: store the
     * limited types, point b's members at a's group, remove b's group and
     * shift later group indices down. Unlike the source, a's member list
     * takes b's members and a group is never merged with itself.
     */
    method MergeGroups(ga: nat, gb: nat, t: PossibleTypes)
      requires Valid() && ga < |typeGroups| && gb < |typeGroups| && RefsIn(t, |varTypeGroups|)
      modifies this
      ensures Value() == Merge(old(Value()), ga, gb, t)
      ensures Valid()
    {
      MergeSound(Value(), ga, gb, t);
      if ga == gb {
        typeGroups := typeGroups[ga := typeGroups[ga].(possibleTypes := t)];
        return;
      }
      var bMembers := typeGroups[gb].members;
      var redirected := RedirectVars(Value(), ga, gb);
      varTypeGroups := redirected;
      typeGroups := Remove(typeGroups[ga := TypeGroup(t, typeGroups[ga].members + bMembers)], gb);
    }
  
    /** `limit_possible_types`: `possible_types_limited`, with its failure turned into an error. */
    method LimitPossibleTypes(a: PossibleTypes, b: PossibleTypes, fuel: nat) returns (r: Result<PossibleTypes, LimitError>)
      requires Valid() && RefsIn(a, |varTypeGroups|) && RefsIn(b, |varTypeGroups|)
      modifies this
      ensures Valid() && Coarsens(old(Value()), Value())
      ensures r.Ok? ==> RefsIn(r.value, |varTypeGroups|)
      ensures r.Err? ==> r.error == NoPossibleTypes(a, b)
      ensures GroupFree(a) && GroupFree(b) ==>
        Value() == old(Value()) && (r.Ok? <==> Limit(a, b).Some?) && (r.Ok? ==> r.value == Limit(a, b).value)
    {
      var l := PossibleTypesLimited(a, b, fuel);
      if l.Some? {
        r := Ok(l.value);
      } else {
        r := Err(NoPossibleTypes(a, b));
      }
    }

    /**
     * `possible_types_limited`. `Any` gives way to the other side; a group is
     * limited through its types, which then hold the result, and two groups
     * are merged; two candidate lists limit as `Limit` says. On inputs naming
     * no group this is `Limit` and leaves the scope alone.
     */
    method PossibleTypesLimited(a: PossibleTypes, b: PossibleTypes, fuel: nat) returns (r: Option<PossibleTypes>)
      requires Valid() && RefsIn(a, |varTypeGroups|) && RefsIn(b, |varTypeGroups|)
      modifies this
      decreases fuel, a, 3
      ensures Valid() && Coarsens(old(Value()), Value())
      ensures r.Some? ==> RefsIn(r.value, |varTypeGroups|)
      ensures a.Any? ==> r == Some(b) && Value() == old(Value())
      ensures !a.Any? && b.Any? ==> r == Some(a) && Value() == old(Value())
      ensures a.OfGroup? && !b.Any? && r.Some? ==> r == Some(a)
      ensures a.OneOf? && b.OfGroup? && r.Some? ==> r == Some(b)
      ensures a.OfGroup? && b.OfGroup? && r.Some? ==> varTypeGroups[a.variable] == varTypeGroups[b.variable]
      ensures GroupFree(a) && GroupFree(b) ==> r == Limit(a, b) && Value() == old(Value())
      ensures fuel == 0 && (a.OfGroup? || b.OfGroup?) && !a.Any? && !b.Any? ==> r.None? && Value() == old(Value())
      ensures (fuel > 0 && a.OfGroup? && b.OfGroup? &&
               GroupFree(old(GroupTypes(a.variable))) && GroupFree(old(GroupTypes(b.variable)))) ==>
        var l := Limit(old(GroupTypes(a.variable)), old(GroupTypes(b.variable)));
        r.Some? == l.Some? &&
        Value() == if l.Some? then Merge(old(Value()), old(varTypeGroups[a.variable]), old(varTypeGroups[b.variable]), l.value)
                   else old(Value())
      ensures fuel > 0 && a.OfGroup? && b.OneOf? && GroupFree(old(GroupTypes(a.variable))) && GroupFree(b) ==>
        var l := Limit(old(GroupTypes(a.variable)), b);
        r.Some? == l.Some? &&
        Value() == if l.Some? then WithTypes(old(Value()), old(varTypeGroups[a.variable]), l.value) else old(Value())
      ensures fuel > 0 && a.OneOf? && b.OfGroup? && GroupFree(a) && GroupFree(old(GroupTypes(b.variable))) ==>
        var l := Limit(a, old(GroupTypes(b.variable)));
        r.Some? == l.Some? &&
        Value() == if l.Some? then WithTypes(old(Value()), old(varTypeGroups[b.variable]), l.value) else old(Value())
    {
      if a.Any? {
        return Some(b);
      } else if b.Any? {
        return Some(a);
      } else if a.OfGroup? && b.OfGroup? {
        r := LimitGroups(a, b, fuel);
      } else if a.OfGroup? {
        r := LimitLeftGroup(a, b, fuel);
      } else if b.OfGroup? {
        r := LimitRightGroup(a, b, fuel);
      } else {
        r := LimitCandidates(a, b, fuel);
      }
    }

    /** Two groups: limit their types, then merge b's group into a's. */
    method LimitGroups(a: PossibleTypes, b: PossibleTypes, fuel: nat) returns (r: Option<PossibleTypes>)
      requires Valid() && a.OfGroup? && b.OfGroup? && RefsIn(a, |varTypeGroups|) && RefsIn(b, |varTypeGroups|)
      modifies this
      decreases fuel, a, 2
      ensures Valid() && Coarsens(old(Value()), Value())
      ensures r.Some? ==> r == Some(a) && varTypeGroups[a.variable] == varTypeGroups[b.variable]
      ensures fuel == 0 ==> r.None? && Value() == old(Value())
      ensures fuel > 0 && GroupFree(old(GroupTypes(a.variable))) && GroupFree(old(GroupTypes(b.variable))) ==>
        var l := Limit(old(GroupTypes(a.variable)), old(GroupTypes(b.variable)));
        r.Some? == l.Some? &&
        Value() == if l.Some? then Merge(old(Value()), old(varTypeGroups[a.variable]), old(varTypeGroups[b.variable]), l.value)
                   else old(Value())
    {
      if fuel == 0 {
        return None;
      }
      var limited := PossibleTypesLimited(GroupTypes(a.variable), GroupTypes(b.variable), fuel - 1);
      if limited.None? {
        return None;
      }
      var ga := varTypeGroups[a.variable];
      var gb := varTypeGroups[b.variable];
      ghost var before := Value();
      MergeGroups(ga, gb, limited.value);
      MergeSound(before, ga, gb, limited.value);
      CoarsensTransitive(old(Value()), before, Value());
      return Some(a);
    }

    /** A group on the left: limit its types with the right side and store the result in the group. */
    method LimitLeftGroup(a: PossibleTypes, b: PossibleTypes, fuel: nat) returns (r: Option<PossibleTypes>)
      requires Valid() && a.OfGroup? && b.OneOf? && RefsIn(a, |varTypeGroups|) && RefsIn(b, |varTypeGroups|)
      modifies this
      decreases fuel, a, 2
      ensures Valid() && Coarsens(old(Value()), Value())
      ensures r.Some? ==> r == Some(a)
      ensures fuel == 0 ==> r.None? && Value() == old(Value())
      ensures fuel > 0 && GroupFree(old(GroupTypes(a.variable))) && GroupFree(b) ==>
        var l := Limit(old(GroupTypes(a.variable)), b);
        r.Some? == l.Some? &&
        Value() == if l.Some? then WithTypes(old(Value()), old(varTypeGroups[a.variable]), l.value) else old(Value())
    {
      if fuel == 0 {
        return None;
      }
      var limited := PossibleTypesLimited(GroupTypes(a.variable), b, fuel - 1);
      if limited.None? {
        return None;
      }
      StoreGroupTypes(a.variable, limited.value);
      return Some(a);
    }

    /** A group on the right: limit the left side with its types and store the result in the group. */
    method LimitRightGroup(a: PossibleTypes, b: PossibleTypes, fuel: nat) returns (r: Option<PossibleTypes>)
      requires Valid() && a.OneOf? && b.OfGroup? && RefsIn(a, |varTypeGroups|) && RefsIn(b, |varTypeGroups|)
      modifies this
      decreases fuel, a, 2
      ensures Valid() && Coarsens(old(Value()), Value())
      ensures r.Some? ==> r == Some(b)
      ensures fuel == 0 ==> r.None? && Value() == old(Value())
      ensures fuel > 0 && GroupFree(a) && GroupFree(old(GroupTypes(b.variable))) ==>
        var l := Limit(a, old(GroupTypes(b.variable)));
        r.Some? == l.Some? &&
        Value() == if l.Some? then WithTypes(old(Value()), old(varTypeGroups[b.variable]), l.value) else old(Value())
    {
      if fuel == 0 {
        return None;
      }
      var limited := PossibleTypesLimited(a, GroupTypes(b.variable), fuel - 1);
      if limited.None? {
        return None;
      }
      StoreGroupTypes(b.variable, limited.value);
      return Some(b);
    }

    /** Writing through `get_group_types_mut`: variable `v`'s group now has types `t`. */
    method StoreGroupTypes(v: nat, t: PossibleTypes)
      requires Valid() && v < |varTypeGroups| && RefsIn(t, |varTypeGroups|)
      modifies this
      ensures Value() == WithTypes(old(Value()), old(varTypeGroups[v]), t)
      ensures Valid() && Coarsens(old(Value()), Value())
    {
      var g := varTypeGroups[v];
      WithTypesSound(Value(), g, t);
      typeGroups := typeGroups[g := typeGroups[g].(possibleTypes := t)];
    }

    /** Two candidate lists: for each left candidate in order, keep its first limit with a right candidate. */
    method LimitCandidates(a: PossibleTypes, b: PossibleTypes, fuel: nat) returns (r: Option<PossibleTypes>)
      requires Valid() && a.OneOf? && b.OneOf? && RefsIn(a, |varTypeGroups|) && RefsIn(b, |varTypeGroups|)
      modifies this
      decreases fuel, a, 2
      ensures Valid() && Coarsens(old(Value()), Value())
      ensures r.Some? ==> RefsIn(r.value, |varTypeGroups|)
      ensures GroupFree(a) && GroupFree(b) ==> r == Limit(a, b) && Value() == old(Value())
    {
      var limited: seq<Ty> := [];
      for i := 0 to |a.types|
        invariant Valid() && Coarsens(old(Value()), Value())
        invariant forall k :: 0 <= k < |limited| ==> TyRefsIn(limited[k], |varTypeGroups|)
        invariant GroupFree(a) && GroupFree(b) ==> limited == FirstMatches(a, b.types, i) && Value() == old(Value())
      {
        ghost var before := Value();
        var m := FirstLimited(a.types[i], b.types, fuel);
        CoarsensTransitive(old(Value()), before, Value());
        if m.Some? {
          limited := limited + [m.value];
        }
      }
      if |limited| == 0 {
        return None;
      }
      return Some(OneOf(limited));
    }

    /** The inner loop over the right candidates: the first limit of `t` with one of `bs`. */
    method FirstLimited(t: Ty, bs: seq<Ty>, fuel: nat) returns (m: Option<Ty>)
      requires Valid() && TyRefsIn(t, |varTypeGroups|) && forall j :: 0 <= j < |bs| ==> TyRefsIn(bs[j], |varTypeGroups|)
      modifies this
      decreases fuel, t, 3
      ensures Valid() && Coarsens(old(Value()), Value())
      ensures m.Some? ==> TyRefsIn(m.value, |varTypeGroups|)
      ensures TyGroupFree(t) && (forall j :: 0 <= j < |bs| ==> TyGroupFree(bs[j])) ==>
        m == FirstMatch(t, bs) && Value() == old(Value())
    {
      for j := 0 to |bs|
        invariant Valid() && Coarsens(old(Value()), Value())
        invariant TyGroupFree(t) && (forall k :: 0 <= k < |bs| ==> TyGroupFree(bs[k])) ==>
          FirstMatch(t, bs) == FirstMatch(t, bs[j..]) && Value() == old(Value())
      {
        ghost var before := Value();
        m := TypesLimited(t, bs[j], fuel);
        CoarsensTransitive(old(Value()), before, Value());
        if m.Some? {
          return;
        }
        assert bs[j..][1..] == bs[j + 1..];
      }
      assert bs[|bs|..] == [];
      return None;
    }

    /**
     * `types_limited`: arrays limit their elements; objects keep every member
     * of both sides and limit the shared ones; closures must agree on their
     * parameters and limit their return types; other kinds limit to the left
     * type when both are the same kind.
     */
    method TypesLimited(a: Ty, b: Ty, fuel: nat) returns (r: Option<Ty>)
      requires Valid() && TyRefsIn(a, |varTypeGroups|) && TyRefsIn(b, |varTypeGroups|)
      modifies this
      decreases fuel, a, 2
      ensures Valid() && Coarsens(old(Value()), Value())
      ensures r.Some? ==> TyRefsIn(r.value, |varTypeGroups|) && SameKind(a, r.value)
      ensures !SameKind(a, b) ==> r.None? && Value() == old(Value())
      ensures TyGroupFree(a) && TyGroupFree(b) ==> r == TyLimit(a, b) && Value() == old(Value())
    {
      if a.Array? && b.Array? {
        var e := PossibleTypesLimited(a.element, b.element, fuel);
        if e.None? {
          return None;
        }
        return Some(Array(e.value));
      } else if a.Object? && b.Object? {
        r := ObjectsLimited(a, b, fuel);
      } else if a.Closure? && b.Closure? {
        if |a.parameters| != |b.parameters| || |a.parameters| > 0 {
          return None;
        }
        if a.returned.OfGroup? || b.returned.OfGroup? || !GroupFree(a.returned) || !GroupFree(b.returned) {
          assert !(TyGroupFree(a) && TyGroupFree(b));
          return None;
        }
        var returned := Limit(a.returned, b.returned);
        if returned.None? {
          return None;
        }
        return Some(Closure(EmptyScope, [], returned.value));
      } else if SameKind(a, b) {
        return Some(a);
      } else {
        return None;
      }
    }

    /** One member of b in the object arm: limited with a's member of that name, or taken as it is. */
    method LimitMember(a: Ty, b: Ty, k: Name, fuel: nat) returns (v: Option<PossibleTypes>)
      requires Valid() && a.Object? && b.Object? && TyRefsIn(a, |varTypeGroups|) && TyRefsIn(b, |varTypeGroups|)
      requires k in b.members
      modifies this
      decreases fuel, a, 0
      ensures Valid() && Coarsens(old(Value()), Value())
      ensures v.Some? ==> RefsIn(v.value, |varTypeGroups|)
      ensures k !in a.members ==> v == Some(b.members[k]) && Value() == old(Value())
      ensures TyGroupFree(a) && TyGroupFree(b) && k in a.members ==>
        v == Limit(a.members[k], b.members[k]) && Value() == old(Value())
    {
      if k in a.members {
        v := PossibleTypesLimited(a.members[k], b.members[k], fuel);
      } else {
        v := Some(b.members[k]);
      }
    }

    /** The object arm of `types_limited`: start from a's members and work through b's. */
    method ObjectsLimited(a: Ty, b: Ty, fuel: nat) returns (r: Option<Ty>)
      requires Valid() && a.Object? && b.Object? && TyRefsIn(a, |varTypeGroups|) && TyRefsIn(b, |varTypeGroups|)
      modifies this
      decreases fuel, a, 1
      ensures Valid() && Coarsens(old(Value()), Value())
      ensures r.Some? ==> TyRefsIn(r.value, |varTypeGroups|) && r.value.Object?
      ensures TyGroupFree(a) && TyGroupFree(b) ==> r == TyLimit(a, b) && Value() == old(Value())
    {
      var members := a.members;
      var todo := b.members.Keys;
      ghost var done: set<Name> := {};
      ghost var n := |varTypeGroups|;
      while todo != {}
        invariant todo == b.members.Keys - done
        invariant Valid() && Coarsens(old(Value()), Value()) && |varTypeGroups| == n
        invariant MembersSoFar(a, b, members, done) && SharedLimited(a, b, members, done)
        invariant forall k :: k in members ==> RefsIn(members[k], n)
        invariant TyGroupFree(a) && TyGroupFree(b) ==> Value() == old(Value())
        decreases todo
      {
        var k :| k in todo;
        ghost var before := Value();
        var limited := LimitMember(a, b, k, fuel);
        CoarsensTransitive(old(Value()), before, Value());
        if limited.None? {
          return None;
        }
        MembersStep(a, b, members, done, k, limited.value);
        members := members[k := limited.value];
        todo := todo - {k};
        done := done + {k};
      }
      if TyGroupFree(a) && TyGroupFree(b) {
        ObjectMembersEqual(a, b, members);
      }
      return Some(Object(members));
    }
  }
}
