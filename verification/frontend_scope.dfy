/**
 * The type-group store of compiler/src/frontend/types.rs, as values: handles
 * (`TypeGroup`) index `groups`, which points each handle at an internal group
 * in `groupTypes`; side tables hold the element group of each array type, the
 * members of each object, concrete object, closure and variants type. This
 * module holds the scope as a value, its consistency condition and the
 * read-only structural comparisons (`internal_*_eq`); the in-place operations
 * are in `FrontendTypes`.
 */
module FrontendScope {
  import opened Wrappers

  /** An interned member or variant name (`StringIdx`). */
  type Name = nat

  /** `TypeGroup(index into groups, id of the owning scope)`. */
  datatype Group = Group(index: nat, scopeId: nat)

  /** `Type`: the primitive kinds, and the others by index into their side table. */
  datatype Type =
    | Any
    | Unit
    | Boolean
    | Integer
    | Float
    | String
    | Array(id: nat)
    | Object(id: nat)
    | ConcreteObject(id: nat)
    | Closure(id: nat)
    | Variants(id: nat)

  /** An object's (or a variants type's) members and whether more may be added. */
  datatype Fields = Fields(members: map<Name, Group>, fixed: bool)

  /** One member of a concrete object, in declaration order. */
  datatype Member = Member(name: Name, group: Group)

  /** A closure's parameter groups, return group and captured variables. */
  datatype ClosureSig = ClosureSig(parameters: seq<Group>, returned: Group, captures: Option<map<Name, Group>>)

  /** `TypeScope` as a value. */
  datatype Scope = Scope(
    id: nat,
    groups: seq<nat>,
    groupTypes: seq<set<Type>>,
    arrays: seq<Group>,
    objects: seq<Fields>,
    concreteObjects: seq<seq<Member>>,
    closures: seq<ClosureSig>,
    variants: seq<Fields>)

  function EmptyScope(id: nat): Scope
  {
    Scope(id, [], [], [], [], [], [], [])
  }

  // ---------------------------------------------------------------------------
  // Consistency of the tables
  // ---------------------------------------------------------------------------

  /** The handle belongs to `s` and indexes its `groups`. */
  predicate Owns(s: Scope, g: Group)
  {
    g.scopeId == s.id && g.index < |s.groups|
  }

  /** A type's side-table index exists. */
  predicate TypeIn(s: Scope, t: Type)
  {
    match t
    case Array(i) => i < |s.arrays|
    case Object(i) => i < |s.objects|
    case ConcreteObject(i) => i < |s.concreteObjects|
    case Closure(i) => i < |s.closures|
    case Variants(i) => i < |s.variants|
    case _ => true
  }

  predicate FieldsOwned(s: Scope, f: Fields)
  {
    forall k :: k in f.members ==> Owns(s, f.members[k])
  }

  predicate MembersOwned(s: Scope, ms: seq<Member>)
  {
    forall j :: 0 <= j < |ms| ==> Owns(s, ms[j].group)
  }

  predicate ClosureOwned(s: Scope, c: ClosureSig)
  {
    (forall j :: 0 <= j < |c.parameters| ==> Owns(s, c.parameters[j])) &&
    Owns(s, c.returned) &&
    (c.captures.Some? ==> forall k :: k in c.captures.value ==> Owns(s, c.captures.value[k]))
  }

  predicate TypesIn(s: Scope, ts: set<Type>)
  {
    forall t :: t in ts ==> TypeIn(s, t)
  }

  /**
   * Every handle points at an existing internal group, every type in a group
   * names an existing side-table entry, and every handle stored in a side
   * table belongs to the scope. Under this condition no look-up panics.
   */
  predicate ValidScope(s: Scope)
  {
    (forall i :: 0 <= i < |s.groups| ==> s.groups[i] < |s.groupTypes|) &&
    (forall i :: 0 <= i < |s.groupTypes| ==> TypesIn(s, s.groupTypes[i])) &&
    (forall i :: 0 <= i < |s.arrays| ==> Owns(s, s.arrays[i])) &&
    (forall i :: 0 <= i < |s.objects| ==> FieldsOwned(s, s.objects[i])) &&
    (forall i :: 0 <= i < |s.concreteObjects| ==> MembersOwned(s, s.concreteObjects[i])) &&
    (forall i :: 0 <= i < |s.closures| ==> ClosureOwned(s, s.closures[i])) &&
    (forall i :: 0 <= i < |s.variants| ==> FieldsOwned(s, s.variants[i]))
  }

  /** The internal group a handle points at. */
  function Internal(s: Scope, g: Group): (i: nat)
    requires ValidScope(s) && Owns(s, g)
    ensures i < |s.groupTypes|
  {
    s.groups[g.index]
  }

  /**
   * `s'` extends `s`: same id, same handles, as many internal groups, and
   * every side table is an extension of the old one. Inserting and merging
   * only ever do this.
   */
  predicate Extends(s: Scope, s': Scope)
  {
    s'.id == s.id && s'.groups == s.groups && |s'.groupTypes| == |s.groupTypes| &&
    |s.arrays| <= |s'.arrays| && s'.arrays[..|s.arrays|] == s.arrays &&
    |s.objects| <= |s'.objects| && s'.objects[..|s.objects|] == s.objects &&
    |s.concreteObjects| <= |s'.concreteObjects| && s'.concreteObjects[..|s.concreteObjects|] == s.concreteObjects &&
    |s.closures| <= |s'.closures| && s'.closures[..|s.closures|] == s.closures &&
    |s.variants| <= |s'.variants| && s'.variants[..|s.variants|] == s.variants
  }

  lemma ExtendsTransitive(s1: Scope, s2: Scope, s3: Scope)
    requires Extends(s1, s2) && Extends(s2, s3)
    ensures Extends(s1, s3)
  {
    assert s3.arrays[..|s1.arrays|] == s3.arrays[..|s2.arrays|][..|s1.arrays|];
    assert s3.objects[..|s1.objects|] == s3.objects[..|s2.objects|][..|s1.objects|];
    assert s3.concreteObjects[..|s1.concreteObjects|] == s3.concreteObjects[..|s2.concreteObjects|][..|s1.concreteObjects|];
    assert s3.closures[..|s1.closures|] == s3.closures[..|s2.closures|][..|s1.closures|];
    assert s3.variants[..|s1.variants|] == s3.variants[..|s2.variants|][..|s1.variants|];
  }

  /** Pointing handles at other existing internal groups keeps a scope consistent. */
  lemma RegroupKeepsValid(s: Scope, g: seq<nat>)
    requires ValidScope(s) && |g| == |s.groups|
    requires forall i :: 0 <= i < |g| ==> g[i] < |s.groupTypes|
    ensures ValidScope(s.(groups := g))
  {
    var s' := s.(groups := g);
    assert forall h: Group :: Owns(s, h) == Owns(s', h);
    assert forall t :: TypeIn(s, t) == TypeIn(s', t);
  }

  /** Giving two internal groups types the scope already knows keeps it consistent. */
  lemma RetypeKeepsValid(s: Scope, i: nat, j: nat, ts: set<Type>)
    requires ValidScope(s) && i < |s.groupTypes| && j < |s.groupTypes| && TypesIn(s, ts)
    ensures ValidScope(s.(groupTypes := s.groupTypes[i := ts][j := ts]))
  {
    var s' := s.(groupTypes := s.groupTypes[i := ts][j := ts]);
    assert forall h: Group :: Owns(s, h) == Owns(s', h);
    assert forall t :: TypeIn(s, t) == TypeIn(s', t);
  }

  /** What was valid in a scope stays valid in any extension of it. */
  lemma ExtendsKeepsValid(s: Scope, s': Scope, t: Type)
    requires Extends(s, s') && TypeIn(s, t)
    ensures TypeIn(s', t)
  {
  }

  // ---------------------------------------------------------------------------
  // Structural comparison (`internal_*_eq`)
  // ---------------------------------------------------------------------------

  /** All pairs of internal groups of the two scopes. */
  function Pairs(n: nat, m: nat): set<(nat, nat)>
  {
    set i, j | 0 <= i < n && 0 <= j < m :: (i, j)
  }

  /** How many pairs of internal groups are not yet being compared: the comparisons' measure. */
  function Unvisited(sa: Scope, sb: Scope, encountered: set<(nat, nat)>): nat
  {
    |Pairs(|sa.groupTypes|, |sb.groupTypes|) - encountered|
  }

  lemma UnvisitedShrinks(sa: Scope, sb: Scope, encountered: set<(nat, nat)>, ai: nat, bi: nat)
    requires ai < |sa.groupTypes| && bi < |sb.groupTypes| && (ai, bi) !in encountered
    ensures Unvisited(sa, sb, encountered + {(ai, bi)}) < Unvisited(sa, sb, encountered)
  {
    var all := Pairs(|sa.groupTypes|, |sb.groupTypes|);
    assert (ai, bi) in all;
    var rest := all - (encountered + {(ai, bi)});
    assert all - encountered == rest + {(ai, bi)};
  }

  /**
   * `internal_groups_eq`: equal internal groups, or a pair already under
   * comparison, are equal; otherwise every type of `a`'s group must equal some
   * type of `b`'s group, with this pair assumed equal meanwhile.
   */
  function GroupsEq(a: Group, sa: Scope, b: Group, sb: Scope, encountered: set<(nat, nat)>): bool
    requires ValidScope(sa) && ValidScope(sb) && Owns(sa, a) && Owns(sb, b)
    decreases Unvisited(sa, sb, encountered), 0
  {
    var ai := Internal(sa, a);
    var bi := Internal(sb, b);
    if ai == bi || (ai, bi) in encountered then true
    else
      UnvisitedShrinks(sa, sb, encountered, ai, bi);
      forall ta :: ta in sa.groupTypes[ai] ==>
        exists tb :: tb in sb.groupTypes[bi] && TypesEq(ta, sa, tb, sb, encountered + {(ai, bi)})
  }

  /** `std::mem::discriminant(a) == std::mem::discriminant(b)`. */
  predicate SameKind(a: Type, b: Type)
  {
    (a.Any? && b.Any?) || (a.Unit? && b.Unit?) || (a.Boolean? && b.Boolean?) ||
    (a.Integer? && b.Integer?) || (a.Float? && b.Float?) || (a.String? && b.String?) ||
    (a.Array? && b.Array?) || (a.Object? && b.Object?) || (a.ConcreteObject? && b.ConcreteObject?) ||
    (a.Closure? && b.Closure?) || (a.Variants? && b.Variants?)
  }

  /** `internal_types_eq`: the same table entry, or entries that compare equal; primitives by kind. */
  function TypesEq(a: Type, sa: Scope, b: Type, sb: Scope, encountered: set<(nat, nat)>): bool
    requires ValidScope(sa) && ValidScope(sb) && TypeIn(sa, a) && TypeIn(sb, b)
    decreases Unvisited(sa, sb, encountered), 2
  {
    match (a, b)
    case (Array(x), Array(y)) => x == y || GroupsEq(sa.arrays[x], sa, sb.arrays[y], sb, encountered)
    case (Object(x), Object(y)) => x == y || FieldsEq(sa.objects[x], sa, sb.objects[y], sb, encountered)
    case (ConcreteObject(x), ConcreteObject(y)) =>
      x == y || ConcreteObjectsEq(sa.concreteObjects[x], sa, sb.concreteObjects[y], sb, encountered)
    case (Closure(x), Closure(y)) => x == y || ClosuresEq(sa.closures[x], sa, sb.closures[y], sb, encountered)
    case (Variants(x), Variants(y)) => x == y || FieldsEq(sa.variants[x], sa, sb.variants[y], sb, encountered)
    case _ => SameKind(a, b)
  }

  /**
   * `internal_objects_eq` and `internal_variants_eq`, which compare alike:
   * every name of either side is on the other, with equal groups. Whether
   * either side is fixed is not compared.
   */
  function FieldsEq(a: Fields, sa: Scope, b: Fields, sb: Scope, encountered: set<(nat, nat)>): bool
    requires ValidScope(sa) && ValidScope(sb) && FieldsOwned(sa, a) && FieldsOwned(sb, b)
    decreases Unvisited(sa, sb, encountered), 1
  {
    (forall k :: k in a.members ==>
       k in b.members && GroupsEq(a.members[k], sa, b.members[k], sb, encountered)) &&
    (forall k :: k in b.members ==>
       k in a.members && GroupsEq(a.members[k], sa, b.members[k], sb, encountered))
  }

  /** `internal_concrete_objects_eq`: the same length and equal groups position by position. */
  function ConcreteObjectsEq(a: seq<Member>, sa: Scope, b: seq<Member>, sb: Scope, encountered: set<(nat, nat)>): bool
    requires ValidScope(sa) && ValidScope(sb) && MembersOwned(sa, a) && MembersOwned(sb, b)
    decreases Unvisited(sa, sb, encountered), 1
  {
    |a| == |b| && forall i :: 0 <= i < |a| ==> GroupsEq(a[i].group, sa, b[i].group, sb, encountered)
  }

  /** `internal_closures_eq`: the same number of parameters, equal parameter and return groups. */
  function ClosuresEq(a: ClosureSig, sa: Scope, b: ClosureSig, sb: Scope, encountered: set<(nat, nat)>): bool
    requires ValidScope(sa) && ValidScope(sb) && ClosureOwned(sa, a) && ClosureOwned(sb, b)
    decreases Unvisited(sa, sb, encountered), 1
  {
    |a.parameters| == |b.parameters| &&
    (forall i :: 0 <= i < |a.parameters| ==> GroupsEq(a.parameters[i], sa, b.parameters[i], sb, encountered)) &&
    GroupsEq(a.returned, sa, b.returned, sb, encountered)
  }

  // ---------------------------------------------------------------------------
  // Properties of the comparison
  // ---------------------------------------------------------------------------

  /** A type equals itself. */
  lemma TypesEqReflexive(t: Type, s: Scope, encountered: set<(nat, nat)>)
    requires ValidScope(s) && TypeIn(s, t)
    ensures TypesEq(t, s, t, s, encountered)
  {
  }

  /**
   * Within one scope, a group compares equal to any group holding at least
   * its types: in particular to itself and to any handle of the same
   * internal group.
   */
  lemma GroupsEqSubset(a: Group, b: Group, s: Scope, encountered: set<(nat, nat)>)
    requires ValidScope(s) && Owns(s, a) && Owns(s, b)
    requires s.groupTypes[Internal(s, a)] <= s.groupTypes[Internal(s, b)]
    ensures GroupsEq(a, s, b, s, encountered)
  {
    var ai := Internal(s, a);
    var bi := Internal(s, b);
    if ai != bi && (ai, bi) !in encountered {
      forall ta | ta in s.groupTypes[ai]
        ensures exists tb :: tb in s.groupTypes[bi] && TypesEq(ta, s, tb, s, encountered + {(ai, bi)})
      {
        TypesEqReflexive(ta, s, encountered + {(ai, bi)});
      }
    }
  }

  /** Two handles: one to a group of `integer`, one to a group of `integer | boolean`. */
  function OneSidedScope(): (s: Scope)
    ensures ValidScope(s)
  {
    var s := Scope(0, [0, 1], [{Integer}, {Integer, Boolean}], [], [], [], [], []);
    assert forall i :: 0 <= i < |s.groupTypes| ==> TypesIn(s, s.groupTypes[i]);
    s
  }

  /**
   * The comparison is one-sided: it only asks that each type of the left
   * group have an equal on the right. A group of `integer` compares equal to
   * a group of `integer | boolean`, but not the other way round.
   */
  lemma GroupsEqOneSided()
    ensures GroupsEq(Group(0, 0), OneSidedScope(), Group(1, 0), OneSidedScope(), {})
    ensures !GroupsEq(Group(1, 0), OneSidedScope(), Group(0, 0), OneSidedScope(), {})
  {
    var s := OneSidedScope();
    GroupsEqSubset(Group(0, 0), Group(1, 0), s, {});
    NoEqualOfBoolean(s);
  }

  lemma NoEqualOfBoolean(s: Scope)
    requires s == OneSidedScope()
    ensures !GroupsEq(Group(1, 0), s, Group(0, 0), s, {})
  {
    assert Internal(s, Group(1, 0)) == 1 && Internal(s, Group(0, 0)) == 0;
    assert Boolean in s.groupTypes[1];
    assert forall tb :: tb in s.groupTypes[0] ==> tb == Integer;
    PrimitiveNeedsItsKind(Group(1, 0), s, Group(0, 0), s, {}, Boolean);
  }

  /** A primitive type in the left group needs a type of the same kind in the right group. */
  lemma PrimitiveNeedsItsKind(a: Group, sa: Scope, b: Group, sb: Scope, encountered: set<(nat, nat)>, t: Type)
    requires ValidScope(sa) && ValidScope(sb) && Owns(sa, a) && Owns(sb, b)
    requires Internal(sa, a) != Internal(sb, b) && (Internal(sa, a), Internal(sb, b)) !in encountered
    requires t in sa.groupTypes[Internal(sa, a)]
    requires !t.Array? && !t.Object? && !t.ConcreteObject? && !t.Closure? && !t.Variants?
    requires forall tb :: tb in sb.groupTypes[Internal(sb, b)] ==> !SameKind(t, tb)
    ensures !GroupsEq(a, sa, b, sb, encountered)
  {
    var e := encountered + {(Internal(sa, a), Internal(sb, b))};
    assert forall tb :: tb in sb.groupTypes[Internal(sb, b)] ==> !TypesEq(t, sa, tb, sb, e);
  }

  /** Concrete objects compare by position only: their member names play no part. */
  lemma ConcreteObjectsEqIgnoresNames(a: seq<Member>, a': seq<Member>, sa: Scope, b: seq<Member>, sb: Scope,
                                      encountered: set<(nat, nat)>)
    requires ValidScope(sa) && ValidScope(sb) && MembersOwned(sa, a) && MembersOwned(sb, b)
    requires |a'| == |a| && forall i :: 0 <= i < |a| ==> a'[i].group == a[i].group
    ensures MembersOwned(sa, a')
    ensures ConcreteObjectsEq(a', sa, b, sb, encountered) == ConcreteObjectsEq(a, sa, b, sb, encountered)
  {
  }

  /** Closures compare without regard to what they capture. */
  lemma ClosuresEqIgnoresCaptures(a: ClosureSig, sa: Scope, b: ClosureSig, sb: Scope,
                                  captures: Option<map<Name, Group>>, encountered: set<(nat, nat)>)
    requires ValidScope(sa) && ValidScope(sb) && ClosureOwned(sa, a) && ClosureOwned(sb, b)
    requires captures.Some? ==> forall k :: k in captures.value ==> Owns(sa, captures.value[k])
    ensures ClosureOwned(sa, a.(captures := captures))
    ensures ClosuresEq(a.(captures := captures), sa, b, sb, encountered) == ClosuresEq(a, sa, b, sb, encountered)
  {
  }

  /** Objects (and variants) with different member names never compare equal; fixedness is ignored. */
  lemma FieldsEqNames(a: Fields, sa: Scope, b: Fields, sb: Scope, encountered: set<(nat, nat)>)
    requires ValidScope(sa) && ValidScope(sb) && FieldsOwned(sa, a) && FieldsOwned(sb, b)
    ensures FieldsEq(a, sa, b, sb, encountered) ==> a.members.Keys == b.members.Keys
    ensures FieldsOwned(sa, a.(fixed := !a.fixed))
    ensures FieldsEq(a.(fixed := !a.fixed), sa, b, sb, encountered) == FieldsEq(a, sa, b, sb, encountered)
  {
  }

  // ---------------------------------------------------------------------------
  // Total forms of the comparisons, as used to deduplicate the side tables
  // ---------------------------------------------------------------------------

  predicate SameArray(s: Scope, x: Group, y: Group)
  {
    ValidScope(s) && Owns(s, x) && Owns(s, y) && GroupsEq(x, s, y, s, {})
  }

  predicate SameFields(s: Scope, x: Fields, y: Fields)
  {
    ValidScope(s) && FieldsOwned(s, x) && FieldsOwned(s, y) && FieldsEq(x, s, y, s, {})
  }

  predicate SameConcreteObject(s: Scope, x: seq<Member>, y: seq<Member>)
  {
    ValidScope(s) && MembersOwned(s, x) && MembersOwned(s, y) && ConcreteObjectsEq(x, s, y, s, {})
  }

  predicate SameClosure(s: Scope, x: ClosureSig, y: ClosureSig)
  {
    ValidScope(s) && ClosureOwned(s, x) && ClosureOwned(s, y) && ClosuresEq(x, s, y, s, {})
  }

  // ---------------------------------------------------------------------------
  // Deduplicating a side table
  // ---------------------------------------------------------------------------

  /** The first entry of `kept` that `x` compares equal to. */
  function FirstSame<T>(x: T, kept: seq<T>, same: (T, T) -> bool): (r: Option<nat>)
    ensures r.Some? ==> r.value < |kept| && same(x, kept[r.value]) && forall k :: 0 <= k < r.value ==> !same(x, kept[k])
    ensures r.None? ==> forall k :: 0 <= k < |kept| ==> !same(x, kept[k])
    decreases |kept|
  {
    if kept == [] then None
    else if same(x, kept[|kept| - 1]) && FirstSame(x, kept[..|kept| - 1], same).None? then Some(|kept| - 1)
    else FirstSame(x, kept[..|kept| - 1], same)
  }

  /**
   * One side table deduplicated, in table order: the entries kept, and for
   * each original entry the index it now has, which is the first kept entry
   * it compares equal to, or its own new place when there is none.
   */
  function Dedup<T>(table: seq<T>, same: (T, T) -> bool): (seq<T>, seq<nat>)
    decreases |table|
  {
    if table == [] then ([], [])
    else
      var prefix := Dedup(table[..|table| - 1], same);
      var x := table[|table| - 1];
      match FirstSame(x, prefix.0, same)
      case Some(k) => (prefix.0, prefix.1 + [k])
      case None => (prefix.0 + [x], prefix.1 + [|prefix.0|])
  }

  /** Every entry gets a new index, and no more entries are kept than there were. */
  lemma {:induction false} DedupLengths<T>(table: seq<T>, same: (T, T) -> bool)
    ensures |Dedup(table, same).1| == |table|
    ensures |Dedup(table, same).0| <= |table|
    decreases |table|
  {
    if table != [] {
      DedupLengths(table[..|table| - 1], same);
    }
  }

  /** Every entry is mapped to a kept entry that is it or that it compares equal to. */
  lemma {:induction false} DedupMapsToKept<T>(table: seq<T>, same: (T, T) -> bool, i: nat)
    requires i < |table|
    ensures |Dedup(table, same).1| == |table|
    ensures Dedup(table, same).1[i] < |Dedup(table, same).0|
    ensures var kept := Dedup(table, same).0[Dedup(table, same).1[i]];
      kept == table[i] || same(table[i], kept)
    ensures forall k :: 0 <= k < Dedup(table, same).1[i] ==> !same(table[i], Dedup(table, same).0[k])
    decreases |table|
  {
    DedupLengths(table, same);
    var init := table[..|table| - 1];
    DedupLengths(init, same);
    var prefix := Dedup(init, same);
    assert |prefix.0| <= |Dedup(table, same).0| && Dedup(table, same).0[..|prefix.0|] == prefix.0;
    if i < |init| {
      DedupMapsToKept(init, same, i);
      assert init[i] == table[i];
      forall k | 0 <= k < Dedup(table, same).1[i] ensures !same(table[i], Dedup(table, same).0[k]) {
        assert Dedup(table, same).0[k] == prefix.0[k];
      }
    }
  }

  /** Only original entries are kept. */
  lemma {:induction false} DedupKeepsOriginals<T>(table: seq<T>, same: (T, T) -> bool)
    ensures forall k :: 0 <= k < |Dedup(table, same).0| ==> Dedup(table, same).0[k] in table
    decreases |table|
  {
    if table != [] {
      var init := table[..|table| - 1];
      DedupKeepsOriginals(init, same);
      assert table == init + [table[|table| - 1]];
      var prefix := Dedup(init, same);
      forall k | 0 <= k < |prefix.0| ensures prefix.0[k] in table {
        assert prefix.0[k] in init;
      }
    }
  }

  /** No kept entry compares equal to an earlier kept entry. */
  lemma {:induction false} DedupNoDuplicates<T>(table: seq<T>, same: (T, T) -> bool)
    ensures forall k1, k2 :: 0 <= k1 < k2 < |Dedup(table, same).0| ==>
      !same(Dedup(table, same).0[k2], Dedup(table, same).0[k1])
    decreases |table|
  {
    if table != [] {
      DedupNoDuplicates(table[..|table| - 1], same);
    }
  }

  /** Each original index's index after deduplication; indices outside the table stay as they are. */
  function MapIndex(mapping: seq<nat>, i: nat): nat
  {
    if i < |mapping| then mapping[i] else i
  }

  /** The new index of every side-table entry, table by table. */
  datatype Mappings = Mappings(arrays: seq<nat>, objects: seq<nat>, concreteObjects: seq<nat>,
                               closures: seq<nat>, variants: seq<nat>)

  /** `apply_mappings_type`: a type with its side-table index renumbered. */
  function Remap(t: Type, m: Mappings): Type
  {
    match t
    case Array(i) => Array(MapIndex(m.arrays, i))
    case Object(i) => Object(MapIndex(m.objects, i))
    case ConcreteObject(i) => ConcreteObject(MapIndex(m.concreteObjects, i))
    case Closure(i) => Closure(MapIndex(m.closures, i))
    case Variants(i) => Variants(MapIndex(m.variants, i))
    case _ => t
  }

  function RemapTypes(ts: set<Type>, m: Mappings): set<Type>
  {
    set t | t in ts :: Remap(t, m)
  }

  /** The comparisons deduplication uses, as values. */
  function ArraysSame(s: Scope): (Group, Group) -> bool
  {
    (x, y) => SameArray(s, x, y)
  }

  function FieldsSame(s: Scope): (Fields, Fields) -> bool
  {
    (x, y) => SameFields(s, x, y)
  }

  function ConcreteObjectsSame(s: Scope): (seq<Member>, seq<Member>) -> bool
  {
    (x, y) => SameConcreteObject(s, x, y)
  }

  function ClosuresSame(s: Scope): (ClosureSig, ClosureSig) -> bool
  {
    (x, y) => SameClosure(s, x, y)
  }

  function DedupArrays(s: Scope): (seq<Group>, seq<nat>)
  {
    Dedup(s.arrays, ArraysSame(s))
  }

  function DedupObjects(s: Scope): (seq<Fields>, seq<nat>)
  {
    Dedup(s.objects, FieldsSame(s))
  }

  function DedupConcreteObjects(s: Scope): (seq<seq<Member>>, seq<nat>)
  {
    Dedup(s.concreteObjects, ConcreteObjectsSame(s))
  }

  function DedupClosures(s: Scope): (seq<ClosureSig>, seq<nat>)
  {
    Dedup(s.closures, ClosuresSame(s))
  }

  function DedupVariants(s: Scope): (seq<Fields>, seq<nat>)
  {
    Dedup(s.variants, FieldsSame(s))
  }

  function DedupMappings(s: Scope): Mappings
  {
    Mappings(DedupArrays(s).1, DedupObjects(s).1, DedupConcreteObjects(s).1, DedupClosures(s).1, DedupVariants(s).1)
  }

  /** Every group's types renumbered. */
  function RemapGroups(groupTypes: seq<set<Type>>, m: Mappings): (r: seq<set<Type>>)
    ensures |r| == |groupTypes|
  {
    seq(|groupTypes|, i requires 0 <= i < |groupTypes| => RemapTypes(groupTypes[i], m))
  }

  /**
   * `deduplicated`: each side table deduplicated, the handles kept, and every
   * type in every group renumbered to its entry's new index. All comparisons
   * are made in the original scope.
   */
  function Deduplicated(s: Scope): Scope
  {
    var m := DedupMappings(s);
    Scope(s.id, s.groups, RemapGroups(s.groupTypes, m),
          DedupArrays(s).0, DedupObjects(s).0, DedupConcreteObjects(s).0, DedupClosures(s).0, DedupVariants(s).0)
  }

  /** A deduplicated scope has the same handles and no larger side tables. */
  lemma DeduplicatedShape(s: Scope)
    ensures Deduplicated(s).id == s.id && Deduplicated(s).groups == s.groups
    ensures |Deduplicated(s).groupTypes| == |s.groupTypes|
    ensures |Deduplicated(s).arrays| <= |s.arrays| && |Deduplicated(s).objects| <= |s.objects|
    ensures |Deduplicated(s).concreteObjects| <= |s.concreteObjects|
    ensures |Deduplicated(s).closures| <= |s.closures| && |Deduplicated(s).variants| <= |s.variants|
  {
    DedupLengths(s.arrays, ArraysSame(s));
    DedupLengths(s.objects, FieldsSame(s));
    DedupLengths(s.concreteObjects, ConcreteObjectsSame(s));
    DedupLengths(s.closures, ClosuresSame(s));
    DedupLengths(s.variants, FieldsSame(s));
  }

  /** A remapped type names an entry of the deduplicated tables. */
  lemma RemapIn(s: Scope, t: Type)
    requires ValidScope(s) && TypeIn(s, t)
    ensures TypeIn(Deduplicated(s), Remap(t, DedupMappings(s)))
  {
    match t
    case Array(i) => DedupMapsToKept(s.arrays, ArraysSame(s), i);
    case Object(i) => DedupMapsToKept(s.objects, FieldsSame(s), i);
    case ConcreteObject(i) => DedupMapsToKept(s.concreteObjects, ConcreteObjectsSame(s), i);
    case Closure(i) => DedupMapsToKept(s.closures, ClosuresSame(s), i);
    case Variants(i) => DedupMapsToKept(s.variants, FieldsSame(s), i);
    case _ =>
  }

  /** Deduplicating a valid scope gives a valid scope. */
  lemma DeduplicatedValid(s: Scope)
    requires ValidScope(s)
    ensures ValidScope(Deduplicated(s))
  {
    var d := Deduplicated(s);
    var m := DedupMappings(s);
    DeduplicatedShape(s);
    forall i | 0 <= i < |d.groupTypes| ensures TypesIn(d, d.groupTypes[i]) {
      forall t' | t' in d.groupTypes[i] ensures TypeIn(d, t') {
        var t :| t in s.groupTypes[i] && t' == Remap(t, m);
        RemapIn(s, t);
      }
    }
    DedupKeepsOriginals(s.arrays, ArraysSame(s));
    DedupKeepsOriginals(s.objects, FieldsSame(s));
    DedupKeepsOriginals(s.concreteObjects, ConcreteObjectsSame(s));
    DedupKeepsOriginals(s.closures, ClosuresSame(s));
    DedupKeepsOriginals(s.variants, FieldsSame(s));
    forall i | 0 <= i < |d.arrays| ensures Owns(d, d.arrays[i]) {
      assert d.arrays[i] in s.arrays;
    }
    forall i | 0 <= i < |d.objects| ensures FieldsOwned(d, d.objects[i]) {
      assert d.objects[i] in s.objects;
    }
    forall i | 0 <= i < |d.concreteObjects| ensures MembersOwned(d, d.concreteObjects[i]) {
      assert d.concreteObjects[i] in s.concreteObjects;
    }
    forall i | 0 <= i < |d.closures| ensures ClosureOwned(d, d.closures[i]) {
      assert d.closures[i] in s.closures;
    }
    forall i | 0 <= i < |d.variants| ensures FieldsOwned(d, d.variants[i]) {
      assert d.variants[i] in s.variants;
    }
  }

  /**
   * A type keeps its meaning: after deduplication an array type names the
   * same element group or one that compared equal to it, and an object type
   * the same fields or fields that compared equal to them.
   */
  lemma DeduplicatedKeepsEntries(s: Scope, i: nat)
    requires ValidScope(s)
    ensures i < |s.arrays| ==>
      var y := MapIndex(DedupMappings(s).arrays, i);
      y < |Deduplicated(s).arrays| &&
      (Deduplicated(s).arrays[y] == s.arrays[i] || SameArray(s, s.arrays[i], Deduplicated(s).arrays[y]))
    ensures i < |s.objects| ==>
      var y := MapIndex(DedupMappings(s).objects, i);
      y < |Deduplicated(s).objects| &&
      (Deduplicated(s).objects[y] == s.objects[i] || SameFields(s, s.objects[i], Deduplicated(s).objects[y]))
    ensures i < |s.concreteObjects| ==>
      var y := MapIndex(DedupMappings(s).concreteObjects, i);
      y < |Deduplicated(s).concreteObjects| &&
      (Deduplicated(s).concreteObjects[y] == s.concreteObjects[i] ||
       SameConcreteObject(s, s.concreteObjects[i], Deduplicated(s).concreteObjects[y]))
    ensures i < |s.closures| ==>
      var y := MapIndex(DedupMappings(s).closures, i);
      y < |Deduplicated(s).closures| &&
      (Deduplicated(s).closures[y] == s.closures[i] || SameClosure(s, s.closures[i], Deduplicated(s).closures[y]))
    ensures i < |s.variants| ==>
      var y := MapIndex(DedupMappings(s).variants, i);
      y < |Deduplicated(s).variants| &&
      (Deduplicated(s).variants[y] == s.variants[i] || SameFields(s, s.variants[i], Deduplicated(s).variants[y]))
  {
    if i < |s.arrays| {
      DedupMapsToKept(s.arrays, ArraysSame(s), i);
    }
    if i < |s.objects| {
      DedupMapsToKept(s.objects, FieldsSame(s), i);
    }
    if i < |s.concreteObjects| {
      DedupMapsToKept(s.concreteObjects, ConcreteObjectsSame(s), i);
    }
    if i < |s.closures| {
      DedupMapsToKept(s.closures, ClosuresSame(s), i);
    }
    if i < |s.variants| {
      DedupMapsToKept(s.variants, FieldsSame(s), i);
    }
  }

  // ---------------------------------------------------------------------------
  // Redirecting handles, replacing `Any`, collecting members
  // ---------------------------------------------------------------------------

  /** Every handle that pointed at internal group `from` now points at `to`. */
  function Redirected(groups: seq<nat>, from: nat, to: nat): (r: seq<nat>)
    ensures |r| == |groups|
  {
    seq(|groups|, i requires 0 <= i < |groups| => if groups[i] == from then to else groups[i])
  }

  /**
   * Redirecting moves exactly the handles of `from`, joins them with the
   * handles of `to`, keeps every other handle, and separates no two handles
   * that shared a group.
   */
  lemma RedirectedSound(groups: seq<nat>, from: nat, to: nat)
    ensures forall i :: 0 <= i < |groups| && groups[i] == from ==> Redirected(groups, from, to)[i] == to
    ensures forall i :: 0 <= i < |groups| && groups[i] != from ==> Redirected(groups, from, to)[i] == groups[i]
    ensures forall i :: 0 <= i < |groups| ==> Redirected(groups, from, to)[i] != from || from == to
    ensures forall i, j :: 0 <= i < |groups| && 0 <= j < |groups| && groups[i] == groups[j] ==>
      Redirected(groups, from, to)[i] == Redirected(groups, from, to)[j]
  {
  }

  /** A group's types with `Any` replaced by `Unit`. */
  function WithoutAny(ts: set<Type>): set<Type>
  {
    set t | t in ts :: if t.Any? then Unit else t
  }

  /** After the replacement no `Any` is left, every other type is kept, and `Unit` is present iff it or `Any` was. */
  lemma WithoutAnySound(ts: set<Type>)
    ensures Any !in WithoutAny(ts)
    ensures forall t :: t in ts && !t.Any? ==> t in WithoutAny(ts)
    ensures forall t :: t in WithoutAny(ts) ==> t in ts || t == Unit
    ensures Unit in WithoutAny(ts) <==> Unit in ts || Any in ts
  {
    if Any in ts {
      assert Unit == (if Any.Any? then Unit else Any);
    }
  }

  /** A concrete object's members collected into a map: a later member of the same name wins. */
  function MembersMap(ms: seq<Member>): map<Name, Group>
    decreases |ms|
  {
    if ms == [] then map[]
    else MembersMap(ms[..|ms| - 1])[ms[|ms| - 1].name := ms[|ms| - 1].group]
  }

  /** The map has exactly the members' names, each bound to the last member of that name. */
  lemma {:induction false} MembersMapSound(ms: seq<Member>, j: nat)
    requires j < |ms|
    ensures ms[j].name in MembersMap(ms)
    ensures (forall j' :: j < j' < |ms| ==> ms[j'].name != ms[j].name) ==> MembersMap(ms)[ms[j].name] == ms[j].group
    decreases |ms|
  {
    if j < |ms| - 1 {
      MembersMapSound(ms[..|ms| - 1], j);
    }
  }

  /** Every name in the map is some member's name. */
  lemma {:induction false} MembersMapKeys(ms: seq<Member>, k: Name)
    requires k in MembersMap(ms)
    ensures exists j :: 0 <= j < |ms| && ms[j].name == k
    decreases |ms|
  {
    var init := ms[..|ms| - 1];
    if k != ms[|ms| - 1].name {
      MembersMapKeys(init, k);
      var j :| 0 <= j < |init| && init[j].name == k;
      assert ms[j] == init[j];
    }
  }

  /** The members of a concrete object keep belonging to the scope once collected into a map. */
  lemma {:induction false} MembersMapOwned(s: Scope, ms: seq<Member>, fixed: bool)
    requires MembersOwned(s, ms)
    ensures FieldsOwned(s, Fields(MembersMap(ms), fixed))
    decreases |ms|
  {
    if ms != [] {
      var init := ms[..|ms| - 1];
      assert MembersOwned(s, init) by {
        forall j | 0 <= j < |init| ensures Owns(s, init[j].group) {
          assert init[j] == ms[j];
        }
      }
      MembersMapOwned(s, init, fixed);
    }
  }

  // ---------------------------------------------------------------------------
  // Merging, as values
  // ---------------------------------------------------------------------------

  /** A type that names no side-table entry: `any` or a primitive. */
  predicate Flat(t: Type)
  {
    !t.Array? && !t.Object? && !t.ConcreteObject? && !t.Closure? && !t.Variants?
  }

  predicate FlatTypes(ts: set<Type>)
  {
    forall t :: t in ts ==> Flat(t)
  }

  /** `try_merge_types_internal` on two flat types: `any` gives way to the other, otherwise the kinds must agree. */
  function FlatMerge(a: Type, b: Type): Option<Type>
  {
    if a.Any? then Some(b)
    else if b.Any? then Some(a)
    else if SameKind(a, b) then Some(a)
    else None
  }

  /** The types of a merged group when both groups hold only flat types: every pair that merges. */
  function PairwiseMerge(xs: set<Type>, ys: set<Type>): set<Type>
  {
    set a, b | a in xs && b in ys && FlatMerge(a, b).Some? :: FlatMerge(a, b).value
  }

  /** The types two groups have in common, or all of one group's types where the other allows `any`. */
  function CommonTypes(xs: set<Type>, ys: set<Type>): set<Type>
  {
    (xs * ys) + (if Any in xs then ys else {}) + (if Any in ys then xs else {})
  }

  /**
   * Merging two groups of flat types pair by pair keeps the types they have
   * in common; a group that allows `any` takes on all of the other group's
   * types.
   */
  lemma FlatGroupMergeMeaning(xs: set<Type>, ys: set<Type>)
    requires FlatTypes(xs) && FlatTypes(ys)
    ensures PairwiseMerge(xs, ys) == CommonTypes(xs, ys)
  {
    forall a, b | a in xs && b in ys && FlatMerge(a, b).Some?
      ensures FlatMerge(a, b).value in CommonTypes(xs, ys)
    {
      PairInCommon(xs, ys, a, b);
    }
    forall t | t in CommonTypes(xs, ys) ensures t in PairwiseMerge(xs, ys) {
      CommonInPairwise(xs, ys, t);
    }
  }

  lemma PairInCommon(xs: set<Type>, ys: set<Type>, a: Type, b: Type)
    requires a in xs && b in ys && Flat(a) && Flat(b) && FlatMerge(a, b).Some?
    ensures FlatMerge(a, b).value in CommonTypes(xs, ys)
  {
    if !a.Any? && !b.Any? {
      assert a == b;
    }
  }

  lemma CommonInPairwise(xs: set<Type>, ys: set<Type>, t: Type)
    requires t in CommonTypes(xs, ys)
    ensures t in PairwiseMerge(xs, ys)
  {
    if t in xs * ys {
      assert FlatMerge(t, t) == Some(t);
    } else if Any in xs && t in ys {
      assert FlatMerge(Any, t) == Some(t);
    } else {
      assert FlatMerge(t, Any) == Some(t);
    }
  }

  /** Merging flat groups does not depend on their order. */
  lemma FlatGroupMergeSymmetric(xs: set<Type>, ys: set<Type>)
    requires FlatTypes(xs) && FlatTypes(ys)
    ensures PairwiseMerge(xs, ys) == PairwiseMerge(ys, xs)
  {
    forall t | t in PairwiseMerge(xs, ys) ensures t in PairwiseMerge(ys, xs) {
      var a, b :| a in xs && b in ys && FlatMerge(a, b).Some? && t == FlatMerge(a, b).value;
      FlatMergeSymmetric(a, b);
    }
    forall t | t in PairwiseMerge(ys, xs) ensures t in PairwiseMerge(xs, ys) {
      var b, a :| b in ys && a in xs && FlatMerge(b, a).Some? && t == FlatMerge(b, a).value;
      FlatMergeSymmetric(a, b);
    }
  }

  lemma FlatMergeSymmetric(a: Type, b: Type)
    requires Flat(a) && Flat(b)
    ensures FlatMerge(a, b) == FlatMerge(b, a)
  {
  }

  /** The results of merging one flat type with each type of a group. */
  function FlatRow(x: Type, ys: set<Type>): set<Type>
  {
    set y | y in ys && FlatMerge(x, y).Some? :: FlatMerge(x, y).value
  }

  /** Merging row by row: the merged pairs of a growing left side. */
  lemma FlatGroupMergeAddLeft(xs: set<Type>, x: Type, ys: set<Type>)
    ensures PairwiseMerge(xs + {x}, ys) == PairwiseMerge(xs, ys) + FlatRow(x, ys)
  {
  }

  /** One type merged against a growing right side. */
  lemma FlatRowAdd(x: Type, ys: set<Type>, y: Type, acc: set<Type>, acc': set<Type>)
    requires acc' == acc + (if FlatMerge(x, y).Some? then {FlatMerge(x, y).value} else {})
    ensures acc' + FlatRow(x, ys) == acc + FlatRow(x, ys + {y})
  {
  }

  /** A member only one side has may stay only if the other side is not fixed. */
  predicate FieldsCompatible(a: Fields, b: Fields)
  {
    (forall k :: k in a.members && k !in b.members ==> !b.fixed) &&
    (forall k :: k in b.members && k !in a.members ==> !a.fixed)
  }

  /**
   * The fields of a merged object (or variants type): every name of either
   * side, with the left side's group where both have it, fixed if either was.
   */
  function MergedFields(a: Fields, b: Fields): (r: Fields)
    ensures r.members.Keys == a.members.Keys + b.members.Keys
    ensures r.fixed <==> a.fixed || b.fixed
    ensures forall k :: k in a.members ==> r.members[k] == a.members[k]
    ensures forall k :: k in b.members && k !in a.members ==> r.members[k] == b.members[k]
  {
    Fields(map k | k in a.members.Keys + b.members.Keys :: if k in a.members then a.members[k] else b.members[k],
           a.fixed || b.fixed)
  }

  /**
   * The closure a successful merge inserts: the left side's parameter and
   * return groups (already merged with the right side's), and the left
   * side's captures if it has any, else the right side's.
   */
  function MergedClosure(a: ClosureSig, b: ClosureSig): (r: ClosureSig)
    ensures r.parameters == a.parameters && r.returned == a.returned
    ensures r.captures.Some? <==> a.captures.Some? || b.captures.Some?
    ensures a.captures.Some? ==> r.captures == a.captures
  {
    ClosureSig(a.parameters, a.returned, if a.captures.Some? then a.captures else b.captures)
  }
}
