/**
 * `TypeScope` of compiler/src/frontend/types.rs as a mutable object: the
 * insertions into the side tables (plain and deduplicating), the handle
 * look-ups, group merging with its redirect pass, copying a group into
 * another scope, deduplication and the final `any` to `unit` pass. The
 * value-level definitions these are proved against are in `FrontendScope`.
 */
module FrontendTypes {
  import opened Wrappers
  import opened FrontendScope

  /** The panics of the look-ups, as errors. */
  datatype ScopeError =
    | ForeignGroup(scopeId: nat, groupScopeId: nat)  // a handle of another scope
    | NotConcrete                                    // a group with no type at all

  /** `e'` is `e` with entries pushed at the end: what a merge leaves of `encountered`. */
  predicate Grows(e: seq<nat>, e': seq<nat>)
  {
    |e| <= |e'| && e'[..|e|] == e
  }

  /** The internal groups not yet being merged: the merge recursion's measure. */
  ghost function Unseen(n: nat, e: seq<nat>): set<nat>
  {
    set i | 0 <= i < n && i !in e
  }

  lemma GrowsTransitive(e1: seq<nat>, e2: seq<nat>, e3: seq<nat>)
    requires Grows(e1, e2) && Grows(e2, e3)
    ensures Grows(e1, e3)
  {
    assert e3[..|e1|] == e3[..|e2|][..|e1|];
  }

  lemma UnseenShrinks(n: nat, e: seq<nat>, e': seq<nat>)
    requires Grows(e, e')
    ensures Unseen(n, e') <= Unseen(n, e)
  {
    forall i | i in e ensures i in e' {
      var k :| 0 <= k < |e| && e[k] == i;
      assert e'[..|e|][k] == i;
    }
  }

  /** Pushing a group not yet being merged strictly shrinks the measure. */
  lemma UnseenPush(n: nat, e: seq<nat>, x: nat, y: nat)
    requires x < n && y < n && !(x in e && y in e)
    ensures Unseen(n, e + [x, y]) < Unseen(n, e)
  {
    if x !in e {
      assert x in Unseen(n, e) && x !in Unseen(n, e + [x, y]);
    } else {
      assert y in Unseen(n, e) && y !in Unseen(n, e + [x, y]);
    }
  }

  /** Dropping the two marks pushed last keeps what was there before them. */
  lemma PopGrows(e: seq<nat>, x: nat, y: nat, pushed: seq<nat>)
    requires Grows(e + [x, y], pushed)
    ensures |pushed| >= 2 && Grows(e, pushed[..|pushed| - 2])
    ensures pushed == e + [x, y] ==> pushed[..|pushed| - 2] == e
  {
    assert pushed[..|e| + 2][..|e|] == e;
    assert pushed[..|pushed| - 2][..|e|] == pushed[..|e| + 2][..|e|];
  }

  /** Every pair recorded as merged is a pair of handles of the scope. */
  predicate MergedOwned(s: Scope, merged: set<(Group, Group)>)
  {
    forall p :: p in merged ==> Owns(s, p.0) && Owns(s, p.1)
  }

  /**
   * What every step of a merge keeps: the scope stays valid and only
   * extends, `encountered` only grows at the end, and pairs are only ever
   * added to `merged`, all of them handles of the scope.
   */
  ghost predicate MergeFrame(s0: Scope, e0: seq<nat>, m0: set<(Group, Group)>,
                             s: Scope, e: seq<nat>, m: set<(Group, Group)>)
  {
    ValidScope(s) && Extends(s0, s) && MergedOwned(s, m) && Grows(e0, e) && m0 <= m
  }

  /** Storing the merged types and popping the pair keeps the merge frame of the whole call. */
  lemma StoreFrame(s0: Scope, e0: seq<nat>, m0: set<(Group, Group)>, s1: Scope, e1: seq<nat>, m1: set<(Group, Group)>,
                   s2: Scope, a: Group, b: Group, x: nat, y: nat)
    requires MergeFrame(s0, e0 + [x, y], m0, s1, e1, m1)
    requires ValidScope(s2) && Extends(s1, s2) && Owns(s0, a) && Owns(s0, b)
    ensures |e1| >= 2 && MergeFrame(s0, e0, m0, s2, e1[..|e1| - 2], m1 + {(a, b)})
    ensures e1 == e0 + [x, y] ==> e1[..|e1| - 2] == e0
  {
    PopGrows(e0, x, y, e1);
    ExtendsTransitive(s0, s1, s2);
  }

  /**
   * The pair `(a, b)` was merged, or both its internal groups are being
   * merged further up the recursion (so the outer call completes it).
   */
  predicate PairMerged(s: Scope, e: seq<nat>, m: set<(Group, Group)>, a: Group, b: Group)
  {
    (a, b) in m || (a.index < |s.groups| && b.index < |s.groups| && s.groups[a.index] in e && s.groups[b.index] in e)
  }

  /**
   * The pairs for which `try_merge_types_internal` can give a type at all:
   * `any` on either side, two types of the same kind, or two objects one of
   * which may still be concrete. Every other pair reaches the discriminant
   * test and gives nothing.
   */
  predicate MayMerge(a: Type, b: Type)
  {
    a.Any? || b.Any? || SameKind(a, b) || ((a.Object? || a.ConcreteObject?) && (b.Object? || b.ConcreteObject?))
  }

  /** Some type of the first set may merge with some type of the second. */
  predicate SomePairMayMerge(xs: set<Type>, ys: set<Type>)
  {
    exists x, y :: x in xs && y in ys && MayMerge(x, y)
  }

  /** `any` on one side meets a type on the other, which always merges. */
  predicate AnyMeets(xs: set<Type>, ys: set<Type>)
  {
    (Any in xs && ys != {}) || (Any in ys && xs != {})
  }

  /** The types of a handle's group (none for a handle out of range). */
  function TypesOf(s: Scope, g: Group): set<Type>
  {
    if g.index < |s.groups| && s.groups[g.index] < |s.groupTypes| then s.groupTypes[s.groups[g.index]] else {}
  }

  /**
   * A group merge that may succeed: both internal groups are already being
   * merged further up, or some pair of their types may merge.
   */
  predicate GroupsMayMerge(s: Scope, e: seq<nat>, a: Group, b: Group)
  {
    (a.index < |s.groups| && b.index < |s.groups| && s.groups[a.index] in e && s.groups[b.index] in e) ||
    SomePairMayMerge(TypesOf(s, a), TypesOf(s, b))
  }

  /** What a row of the merge has gathered after the right types `done`. */
  predicate RowFacts(ta: Type, bTypes: set<Type>, done: set<Type>, accIn: set<Type>, acc: set<Type>)
  {
    accIn <= acc &&
    ((forall tb :: tb in bTypes ==> !MayMerge(ta, tb)) ==> acc == accIn) &&
    (ta.Any? ==> acc == accIn + done) &&
    (!ta.Any? && Any in done ==> ta in acc)
  }

  /** What the merge of two groups' types has gathered after the left types `done`. */
  predicate PairsFacts(aTypes: set<Type>, bTypes: set<Type>, done: set<Type>, acc: set<Type>)
  {
    (!SomePairMayMerge(aTypes, bTypes) ==> acc == {}) &&
    ((Any in done && bTypes != {}) || (Any in bTypes && done != {}) ==> acc != {})
  }

  /** One more row keeps `PairsFacts`. */
  lemma PairsStep(aTypes: set<Type>, bTypes: set<Type>, done: set<Type>, ta: Type, acc0: set<Type>, acc1: set<Type>)
    requires PairsFacts(aTypes, bTypes, done, acc0) && ta in aTypes && acc0 <= acc1
    requires (forall tb :: tb in bTypes ==> !MayMerge(ta, tb)) ==> acc1 == acc0
    requires ta.Any? ==> acc1 == acc0 + bTypes
    requires !ta.Any? && Any in bTypes ==> ta in acc1
    ensures PairsFacts(aTypes, bTypes, done + {ta}, acc1)
  {
    if !SomePairMayMerge(aTypes, bTypes) {
      forall tb | tb in bTypes ensures !MayMerge(ta, tb) {
      }
    }
  }

  /** One more cell of the row keeps `RowFacts`. */
  lemma RowStep(ta: Type, bTypes: set<Type>, done: set<Type>, tb: Type, accIn: set<Type>, acc0: set<Type>, acc1: set<Type>)
    requires RowFacts(ta, bTypes, done, accIn, acc0) && tb in bTypes && acc0 <= acc1
    requires !MayMerge(ta, tb) ==> acc1 == acc0
    requires ta.Any? ==> acc1 == acc0 + {tb}
    requires !ta.Any? && tb.Any? ==> acc1 == acc0 + {ta}
    ensures RowFacts(ta, bTypes, done + {tb}, accIn, acc1)
  {
  }

  lemma PairsMergedGrow(s1: Scope, e1: seq<nat>, m1: set<(Group, Group)>, s2: Scope, e2: seq<nat>, m2: set<(Group, Group)>,
                        xs: seq<Group>, ys: seq<Group>)
    requires MergeFrame(s1, e1, m1, s2, e2, m2) && |xs| == |ys|
    requires forall j :: 0 <= j < |xs| ==> PairMerged(s1, e1, m1, xs[j], ys[j])
    ensures forall j :: 0 <= j < |xs| ==> PairMerged(s2, e2, m2, xs[j], ys[j])
  {
    forall j | 0 <= j < |xs| ensures PairMerged(s2, e2, m2, xs[j], ys[j]) {
      if (xs[j], ys[j]) !in m1 {
        assert e1 == e2[..|e1|];
        assert s1.groups[xs[j].index] in e2[..|e1|] && s1.groups[ys[j].index] in e2[..|e1|];
      }
    }
  }

  lemma MergeFrameTransitive(s0: Scope, e0: seq<nat>, m0: set<(Group, Group)>,
                             s1: Scope, e1: seq<nat>, m1: set<(Group, Group)>,
                             s2: Scope, e2: seq<nat>, m2: set<(Group, Group)>)
    requires MergeFrame(s0, e0, m0, s1, e1, m1) && MergeFrame(s1, e1, m1, s2, e2, m2)
    ensures MergeFrame(s0, e0, m0, s2, e2, m2)
  {
    ExtendsTransitive(s0, s1, s2);
    GrowsTransitive(e0, e1, e2);
  }

  /** A step that only extends a valid scope is a merge step that touches nothing else. */
  lemma MergeFrameExtends(s0: Scope, e: seq<nat>, m: set<(Group, Group)>, s1: Scope)
    requires ValidScope(s1) && Extends(s0, s1) && MergedOwned(s0, m)
    ensures MergeFrame(s0, e, m, s1, e, m)
  {
    assert forall h: Group :: Owns(s0, h) == Owns(s1, h);
  }

  /** A closure's handles stay handles of any extension of the scope. */
  lemma ClosureOwnedExtends(s: Scope, s': Scope, c: ClosureSig)
    requires Extends(s, s') && ClosureOwned(s, c)
    ensures ClosureOwned(s', c)
  {
    assert forall h: Group :: Owns(s, h) == Owns(s', h);
  }

  lemma TypesInExtends(s: Scope, s': Scope, ts: set<Type>)
    requires Extends(s, s') && TypesIn(s, ts)
    ensures TypesIn(s', ts)
  {
    forall t | t in ts ensures TypeIn(s', t) {
      ExtendsKeepsValid(s, s', t);
    }
  }

  /** Two handles that shared an internal group before still share one after. */
  ghost predicate Joins(g0: seq<nat>, g: seq<nat>)
  {
    |g0| == |g| && forall i, j :: 0 <= i < |g| && 0 <= j < |g| && g0[i] == g0[j] ==> g[i] == g[j]
  }

  /** Every handle points where `f` sends the group it started in. */
  ghost predicate Tracks(g0: seq<nat>, g: seq<nat>, f: map<nat, nat>)
  {
    |g0| == |g| && forall i :: 0 <= i < |g| ==> g0[i] in f && g[i] == f[g0[i]]
  }

  /** The two handles of every pair in `done` share an internal group. */
  ghost predicate PairsJoined(g: seq<nat>, done: set<(Group, Group)>)
  {
    forall p :: p in done ==> p.0.index < |g| && p.1.index < |g| && g[p.0.index] == g[p.1.index]
  }

  /** `f` followed by redirecting `from` to `to`. */
  ghost function Retarget(f: map<nat, nat>, from: nat, to: nat): map<nat, nat>
  {
    map k | k in f :: if f[k] == from then to else f[k]
  }

  /** Internal group `k` is where, in `g0`, one of the handles of a pair in `merged` pointed. */
  ghost predicate Touched(g0: seq<nat>, merged: set<(Group, Group)>, k: nat)
  {
    exists p :: p in merged && p.0.index < |g0| && p.1.index < |g0| && (g0[p.0.index] == k || g0[p.1.index] == k)
  }

  /** `f` sends touched groups only to touched groups and leaves every other group where it is. */
  ghost predicate MovesTouched(g0: seq<nat>, merged: set<(Group, Group)>, f: map<nat, nat>)
  {
    forall k :: k in f ==> if Touched(g0, merged, k) then Touched(g0, merged, f[k]) else f[k] == k
  }

  /** Redirecting one merged pair's second group onto its first moves touched groups only. */
  lemma RetargetMovesTouched(g0: seq<nat>, g: seq<nat>, f: map<nat, nat>, merged: set<(Group, Group)>, p: (Group, Group))
    requires Tracks(g0, g, f) && MovesTouched(g0, merged, f)
    requires p in merged && p.0.index < |g| && p.1.index < |g|
    ensures MovesTouched(g0, merged, Retarget(f, g[p.1.index], g[p.0.index]))
  {
    assert Touched(g0, merged, g0[p.0.index]) && Touched(g0, merged, g0[p.1.index]);
    assert Touched(g0, merged, g[p.0.index]) && Touched(g0, merged, g[p.1.index]);
  }

  /** A handle whose group no merged pair touched has not moved; a touched one stays among touched groups. */
  lemma UntouchedStay(g0: seq<nat>, g: seq<nat>, f: map<nat, nat>, merged: set<(Group, Group)>)
    requires Tracks(g0, g, f) && MovesTouched(g0, merged, f)
    ensures forall i :: 0 <= i < |g| && !Touched(g0, merged, g0[i]) ==> g[i] == g0[i]
    ensures forall i :: 0 <= i < |g| && Touched(g0, merged, g0[i]) ==> Touched(g0, merged, g[i])
  {
  }

  /** Handles that move as a function of where they pointed only join. */
  lemma JoinsBy(g0: seq<nat>, g: seq<nat>, f: map<nat, nat>)
    requires Tracks(g0, g, f)
    ensures Joins(g0, g)
  {
  }

  /** One redirect step of the merge: joined pairs stay joined, `p` joins them, and handles still move as a function. */
  lemma RedirectStep(g0: seq<nat>, g: seq<nat>, f: map<nat, nat>, done: set<(Group, Group)>, p: (Group, Group), n: nat)
    requires Tracks(g0, g, f) && PairsJoined(g, done)
    requires p.0.index < |g| && p.1.index < |g|
    requires forall i :: 0 <= i < |g| ==> g[i] < n
    ensures forall i :: 0 <= i < |g| ==> Redirected(g, g[p.1.index], g[p.0.index])[i] < n
    ensures Tracks(g0, Redirected(g, g[p.1.index], g[p.0.index]), Retarget(f, g[p.1.index], g[p.0.index]))
    ensures PairsJoined(Redirected(g, g[p.1.index], g[p.0.index]), done + {p})
  {
    RedirectedSound(g, g[p.1.index], g[p.0.index]);
  }

  /** A name only one side has is acceptable if the other side is not fixed. */
  predicate MemberCompatible(fa: Fields, fb: Fields, k: Name)
  {
    (k in fa.members && k !in fb.members ==> !fb.fixed) &&
    (k in fb.members && k !in fa.members ==> !fa.fixed)
  }

  /** How many of the two types still need converting from concrete objects. */
  function ConcreteCount(a: Type, b: Type): nat
  {
    (if a.ConcreteObject? then 1 else 0) + (if b.ConcreteObject? then 1 else 0)
  }

  /** `deduplicated` on a scope value: each table through `DedupTable`, then every group renumbered. */
  method DeduplicateScope(s: Scope)
    returns (newTypes: seq<set<Type>>, newArrays: seq<Group>, newObjects: seq<Fields>,
             newConcrete: seq<seq<Member>>, newClosures: seq<ClosureSig>, newVariants: seq<Fields>)
    ensures Scope(s.id, s.groups, newTypes, newArrays, newObjects, newConcrete, newClosures, newVariants) == Deduplicated(s)
  {
    var arrayMap, objectMap, concreteMap, closureMap, variantMap;
    newArrays, arrayMap := DedupTable(s.arrays, ArraysSame(s));
    newObjects, objectMap := DedupTable(s.objects, FieldsSame(s));
    newConcrete, concreteMap := DedupTable(s.concreteObjects, ConcreteObjectsSame(s));
    newClosures, closureMap := DedupTable(s.closures, ClosuresSame(s));
    newVariants, variantMap := DedupTable(s.variants, FieldsSame(s));
    var m := Mappings(arrayMap, objectMap, concreteMap, closureMap, variantMap);
    assert m == DedupMappings(s);
    newTypes := RemapAll(s.groupTypes, m);
  }

  /** The renumbering loop of `deduplicated`: each group's types, in order. */
  method RemapAll(groupTypes: seq<set<Type>>, m: Mappings) returns (r: seq<set<Type>>)
    ensures r == RemapGroups(groupTypes, m)
  {
    r := [];
    for i := 0 to |groupTypes|
      invariant |r| == i && forall k :: 0 <= k < i ==> r[k] == RemapTypes(groupTypes[k], m)
    {
      r := r + [RemapTypes(groupTypes[i], m)];
    }
  }

  /**
   * One side table deduplicated in place of the source's nested loops:
   * for each entry, search the entries kept so far for the first one it
   * compares equal to, and keep the entry only if there is none.
   */
  method DedupTable<T>(table: seq<T>, same: (T, T) -> bool) returns (kept: seq<T>, mapping: seq<nat>)
    ensures (kept, mapping) == Dedup(table, same)
  {
    kept, mapping := [], [];
    for i := 0 to |table|
      invariant (kept, mapping) == Dedup(table[..i], same)
    {
      assert table[..i + 1][..i] == table[..i];
      var x := table[i];
      var found := false;
      var j := 0;
      while j < |kept| && !found
        invariant 0 <= j <= |kept|
        invariant found ==> j < |kept| && same(x, kept[j])
        invariant forall k :: 0 <= k < j ==> !same(x, kept[k])
        decreases |kept| - j, if found then 0 else 1
      {
        if same(x, kept[j]) {
          found := true;
        } else {
          j := j + 1;
        }
      }
      if found {
        mapping := mapping + [j];
      } else {
        mapping := mapping + [|kept|];
        kept := kept + [x];
      }
    }
    assert table[..|table|] == table;
  }

  class TypeScope {
    const id: nat
    var groups: seq<nat>
    var groupTypes: seq<set<Type>>
    var arrays: seq<Group>
    var objects: seq<Fields>
    var concreteObjects: seq<seq<Member>>
    var closures: seq<ClosureSig>
    var variants: seq<Fields>

    /** The scope's state as a value. */
    function Value(): Scope
      reads this
    {
      Scope(id, groups, groupTypes, arrays, objects, concreteObjects, closures, variants)
    }

    ghost predicate Valid()
      reads this
    {
      ValidScope(Value())
    }

    /** `TypeScope::new`: an empty scope; the fresh id the source draws from a global counter is a parameter. */
    constructor (id: nat)
      ensures Value() == EmptyScope(id)
      ensures Valid()
    {
      this.id := id;
      groups, groupTypes := [], [];
      arrays, objects, concreteObjects, closures, variants := [], [], [], [], [];
    }

    // -------------------------------------------------------------------------
    // Side tables
    // -------------------------------------------------------------------------

    /** `insert_array`: append an array type's element group; its index names the new type. */
    method InsertArray(element: Group) returns (r: nat)
      modifies this
      ensures r == |old(arrays)|
      ensures Value() == old(Value()).(arrays := old(arrays) + [element])
      ensures arrays[r] == element
      ensures Extends(old(Value()), Value())
      ensures old(Valid()) && Owns(Value(), element) ==> Valid()
    {
      r := |arrays|;
      arrays := arrays + [element];
    }

    /** `insert_object`: append an object type's members. */
    method InsertObject(members: map<Name, Group>, fixed: bool) returns (r: nat)
      modifies this
      ensures r == |old(objects)|
      ensures Value() == old(Value()).(objects := old(objects) + [Fields(members, fixed)])
      ensures objects[r] == Fields(members, fixed)
      ensures Extends(old(Value()), Value())
      ensures old(Valid()) && FieldsOwned(Value(), Fields(members, fixed)) ==> Valid()
    {
      r := |objects|;
      objects := objects + [Fields(members, fixed)];
    }

    /** `insert_concrete_object`: append a concrete object's members, in order. */
    method InsertConcreteObject(members: seq<Member>) returns (r: nat)
      modifies this
      ensures r == |old(concreteObjects)|
      ensures Value() == old(Value()).(concreteObjects := old(concreteObjects) + [members])
      ensures concreteObjects[r] == members
      ensures Extends(old(Value()), Value())
      ensures old(Valid()) && MembersOwned(Value(), members) ==> Valid()
    {
      r := |concreteObjects|;
      concreteObjects := concreteObjects + [members];
    }

    /** `insert_closure`: append a closure's parameter, return and captured groups. */
    method InsertClosure(parameters: seq<Group>, returned: Group, captures: Option<map<Name, Group>>)
      returns (r: nat)
      modifies this
      ensures r == |old(closures)|
      ensures Value() == old(Value()).(closures := old(closures) + [ClosureSig(parameters, returned, captures)])
      ensures closures[r] == ClosureSig(parameters, returned, captures)
      ensures Extends(old(Value()), Value())
      ensures old(Valid()) && ClosureOwned(Value(), ClosureSig(parameters, returned, captures)) ==> Valid()
    {
      r := |closures|;
      closures := closures + [ClosureSig(parameters, returned, captures)];
    }

    /** `insert_variants`: append a variants type's variants. */
    method InsertVariants(members: map<Name, Group>, fixed: bool) returns (r: nat)
      modifies this
      ensures r == |old(variants)|
      ensures Value() == old(Value()).(variants := old(variants) + [Fields(members, fixed)])
      ensures variants[r] == Fields(members, fixed)
      ensures Extends(old(Value()), Value())
      ensures old(Valid()) && FieldsOwned(Value(), Fields(members, fixed)) ==> Valid()
    {
      r := |variants|;
      variants := variants + [Fields(members, fixed)];
    }

    /**
     * `insert_dedup_array`: the first existing entry that compares equal to
     * `v` (entry on the left), or else a new entry.
     */
    method InsertDedupArray(v: Group) returns (r: nat)
      requires Valid() && Owns(Value(), v)
      modifies this
      ensures Valid() && r < |arrays| && r <= |old(arrays)|
      ensures forall i :: 0 <= i < r ==> !SameArray(old(Value()), old(arrays)[i], v)
      ensures r < |old(arrays)| ==> Value() == old(Value()) && SameArray(Value(), arrays[r], v)
      ensures r == |old(arrays)| ==> Value() == old(Value()).(arrays := old(arrays) + [v])
    {
      for i := 0 to |arrays|
        invariant forall k :: 0 <= k < i ==> !SameArray(Value(), arrays[k], v)
      {
        if SameArray(Value(), arrays[i], v) {
          return i;
        }
      }
      r := InsertArray(v);
    }

    /** `insert_dedup_object`: the first existing object that compares equal to `v`, or else a new one. */
    method InsertDedupObject(v: Fields) returns (r: nat)
      requires Valid() && FieldsOwned(Value(), v)
      modifies this
      ensures Valid() && r < |objects| && r <= |old(objects)|
      ensures forall i :: 0 <= i < r ==> !SameFields(old(Value()), old(objects)[i], v)
      ensures r < |old(objects)| ==> Value() == old(Value()) && SameFields(Value(), objects[r], v)
      ensures r == |old(objects)| ==> Value() == old(Value()).(objects := old(objects) + [v])
    {
      for i := 0 to |objects|
        invariant forall k :: 0 <= k < i ==> !SameFields(Value(), objects[k], v)
      {
        if SameFields(Value(), objects[i], v) {
          return i;
        }
      }
      r := InsertObject(v.members, v.fixed);
    }

    /** `insert_dedup_concrete_object`: the first existing concrete object that compares equal, or else a new one. */
    method InsertDedupConcreteObject(v: seq<Member>) returns (r: nat)
      requires Valid() && MembersOwned(Value(), v)
      modifies this
      ensures Valid() && r < |concreteObjects| && r <= |old(concreteObjects)|
      ensures forall i :: 0 <= i < r ==> !SameConcreteObject(old(Value()), old(concreteObjects)[i], v)
      ensures r < |old(concreteObjects)| ==>
        Value() == old(Value()) && SameConcreteObject(Value(), concreteObjects[r], v)
      ensures r == |old(concreteObjects)| ==>
        Value() == old(Value()).(concreteObjects := old(concreteObjects) + [v])
    {
      for i := 0 to |concreteObjects|
        invariant forall k :: 0 <= k < i ==> !SameConcreteObject(Value(), concreteObjects[k], v)
      {
        if SameConcreteObject(Value(), concreteObjects[i], v) {
          return i;
        }
      }
      r := InsertConcreteObject(v);
    }

    /** `insert_dedup_closure`: the first existing closure that compares equal, or else a new one. */
    method InsertDedupClosure(v: ClosureSig) returns (r: nat)
      requires Valid() && ClosureOwned(Value(), v)
      modifies this
      ensures Valid() && r < |closures| && r <= |old(closures)|
      ensures forall i :: 0 <= i < r ==> !SameClosure(old(Value()), old(closures)[i], v)
      ensures r < |old(closures)| ==> Value() == old(Value()) && SameClosure(Value(), closures[r], v)
      ensures r == |old(closures)| ==> Value() == old(Value()).(closures := old(closures) + [v])
    {
      for i := 0 to |closures|
        invariant forall k :: 0 <= k < i ==> !SameClosure(Value(), closures[k], v)
      {
        if SameClosure(Value(), closures[i], v) {
          return i;
        }
      }
      r := InsertClosure(v.parameters, v.returned, v.captures);
    }

    /** `insert_dedup_variants`: the first existing variants type that compares equal, or else a new one. */
    method InsertDedupVariants(v: Fields) returns (r: nat)
      requires Valid() && FieldsOwned(Value(), v)
      modifies this
      ensures Valid() && r < |variants| && r <= |old(variants)|
      ensures forall i :: 0 <= i < r ==> !SameFields(old(Value()), old(variants)[i], v)
      ensures r < |old(variants)| ==> Value() == old(Value()) && SameFields(Value(), variants[r], v)
      ensures r == |old(variants)| ==> Value() == old(Value()).(variants := old(variants) + [v])
    {
      for i := 0 to |variants|
        invariant forall k :: 0 <= k < i ==> !SameFields(Value(), variants[k], v)
      {
        if SameFields(Value(), variants[i], v) {
          return i;
        }
      }
      r := InsertVariants(v.members, v.fixed);
    }

    // -------------------------------------------------------------------------
    // Groups and handles
    // -------------------------------------------------------------------------

    /**
     * `insert_group`: a new internal group holding `types` and a new handle
     * to it, shared with no other handle.
     */
    method InsertGroup(types: seq<Type>) returns (g: Group)
      modifies this
      ensures g == Group(|old(groups)|, id)
      ensures Value() == old(Value()).(groups := old(groups) + [|old(groupTypes)|],
                                       groupTypes := old(groupTypes) + [set t | t in types])
      ensures Owns(Value(), g) && groups[g.index] == |old(groupTypes)|
      ensures forall i :: 0 <= i < |old(groups)| && old(Valid()) ==> groups[i] != groups[g.index]
      ensures old(Valid()) && (forall t :: t in types ==> TypeIn(Value(), t)) ==> Valid()
    {
      var internal := |groupTypes|;
      groupTypes := groupTypes + [set t | t in types];
      g := Group(|groups|, id);
      groups := groups + [internal];
    }

    /** `group_internal_id`: the internal group of a handle of this scope; a foreign handle is an error. */
    function GroupInternalId(g: Group): (r: Result<nat, ScopeError>)
      reads this
      requires Valid() && (g.scopeId == id ==> g.index < |groups|)
      ensures r.Err? <==> g.scopeId != id
      ensures r.Err? ==> r.error == ForeignGroup(id, g.scopeId)
      ensures r.Ok? ==> r.value < |groupTypes|
    {
      if g.scopeId != id then Err(ForeignGroup(id, g.scopeId)) else Ok(groups[g.index])
    }

    /** `group`: the possible types of a handle's group. */
    function GroupTypes(g: Group): (r: Result<set<Type>, ScopeError>)
      reads this
      requires Valid() && (g.scopeId == id ==> g.index < |groups|)
      ensures r.Err? <==> g.scopeId != id
      ensures r.Err? ==> r.error == ForeignGroup(id, g.scopeId)
      ensures r.Ok? ==> TypesIn(Value(), r.value)
    {
      if g.scopeId != id then Err(ForeignGroup(id, g.scopeId)) else Ok(groupTypes[groups[g.index]])
    }

    /** Handles that share an internal group see the same types. */
    lemma SharedGroupsAgree(g: Group, h: Group)
      requires Valid() && Owns(Value(), g) && Owns(Value(), h)
      requires GroupInternalId(g) == GroupInternalId(h)
      ensures GroupTypes(g) == GroupTypes(h)
    {
    }

    /**
     * `group_concrete`: one of the group's types, `unit` standing in for
     * `any`; which one, when there are several, is not specified.
     */
    method GroupConcrete(g: Group) returns (r: Result<Type, ScopeError>)
      requires Valid() && (g.scopeId == id ==> g.index < |groups|)
      ensures g.scopeId != id ==> r == Err(ForeignGroup(id, g.scopeId))
      ensures g.scopeId == id && groupTypes[groups[g.index]] == {} ==> r == Err(NotConcrete)
      ensures g.scopeId == id && groupTypes[groups[g.index]] != {} ==> r.Ok?
      ensures r.Ok? ==> !r.value.Any? && TypeIn(Value(), r.value)
      ensures r.Ok? ==> r.value in groupTypes[groups[g.index]] ||
                        (r.value == Unit && Any in groupTypes[groups[g.index]])
    {
      if g.scopeId != id {
        return Err(ForeignGroup(id, g.scopeId));
      }
      var types := groupTypes[groups[g.index]];
      if types == {} {
        return Err(NotConcrete);
      }
      var t :| t in types;
      r := Ok(if t.Any? then Unit else t);
    }

    /** `set_group_types`: replace the types of a handle's group, which every handle sharing it then sees. */
    method SetGroupTypes(g: Group, types: seq<Type>) returns (r: Result<(), ScopeError>)
      requires Valid() && (g.scopeId == id ==> g.index < |groups|)
      modifies this
      ensures g.scopeId != id ==> r == Err(ForeignGroup(id, g.scopeId)) && Value() == old(Value())
      ensures g.scopeId == id ==> (r.Ok? &&
        Value() == old(Value()).(groupTypes := old(groupTypes)[old(groups)[g.index] := set t | t in types]))
      ensures (forall t :: t in types ==> TypeIn(Value(), t)) ==> Valid()
    {
      if g.scopeId != id {
        return Err(ForeignGroup(id, g.scopeId));
      }
      var internal := groups[g.index];
      groupTypes := groupTypes[internal := set t | t in types];
      r := Ok(());
    }

    /** `replace_any_with_unit`: every `any` left in a group becomes `unit`. */
    method ReplaceAnyWithUnit()
      modifies this
      ensures Value() == old(Value()).(groupTypes := seq(|old(groupTypes)|, i requires 0 <= i < |old(groupTypes)| =>
                                                        WithoutAny(old(groupTypes)[i])))
      ensures forall i :: 0 <= i < |groupTypes| ==> Any !in groupTypes[i]
      ensures old(Valid()) ==> Valid()
    {
      ghost var before := groupTypes;
      for i := 0 to |groupTypes|
        invariant |groupTypes| == |before|
        invariant Value() == old(Value()).(groupTypes := groupTypes)
        invariant forall k :: 0 <= k < i ==> groupTypes[k] == WithoutAny(before[k])
        invariant forall k :: i <= k < |groupTypes| ==> groupTypes[k] == before[k]
      {
        groupTypes := groupTypes[i := WithoutAny(groupTypes[i])];
      }
      forall i | 0 <= i < |groupTypes| ensures Any !in groupTypes[i] {
        WithoutAnySound(before[i]);
      }
      if ValidScope(old(Value())) {
        forall i | 0 <= i < |groupTypes| ensures TypesIn(Value(), groupTypes[i]) {
          WithoutAnySound(before[i]);
          assert TypesIn(old(Value()), before[i]);
          forall t | t in groupTypes[i] ensures TypeIn(Value(), t) {
            if t != Unit {
              assert TypeIn(old(Value()), t);
            }
          }
        }
      }
    }

    /**
     * `deduplicate`: the scope replaced by `deduplicated`, which keeps one
     * entry of each side table per class of entries that compare equal and
     * renumbers every group's types.
     */
    method Deduplicate()
      modifies this
      ensures Value() == Deduplicated(old(Value()))
      ensures old(Valid()) ==> Valid()
    {
      var s := Value();
      var newTypes, newArrays, newObjects, newConcrete, newClosures, newVariants := DeduplicateScope(s);
      groupTypes := newTypes;
      arrays, objects, concreteObjects, closures, variants := newArrays, newObjects, newConcrete, newClosures, newVariants;
      assert Value() == Scope(s.id, s.groups, newTypes, newArrays, newObjects, newConcrete, newClosures, newVariants);
      if ValidScope(s) {
        DeduplicatedValid(s);
      }
    }
  
    // -------------------------------------------------------------------------
    // Merging
    // -------------------------------------------------------------------------

    /**
     * `try_merge_groups_internal`: merge the groups of two handles. A pair
     * whose internal groups are both already being merged counts as merged.
     * Otherwise both are marked as being merged, every type of the one is
     * merged with every type of the other, and if any merge succeeds both
     * internal groups get the set of results and the pair is recorded; if
     * none does, the merge fails, leaving the marks in place.
     */
    method TryMergeGroupsInternal(a: Group, b: Group, encIn: seq<nat>, mergedIn: set<(Group, Group)>)
      returns (ok: bool, enc: seq<nat>, merged: set<(Group, Group)>)
      requires Valid() && Owns(Value(), a) && Owns(Value(), b) && MergedOwned(Value(), mergedIn)
      modifies this
      decreases Unseen(|groupTypes|, encIn), 0, 1
      ensures MergeFrame(old(Value()), encIn, mergedIn, Value(), enc, merged)
      ensures old(groups[a.index] in encIn && groups[b.index] in encIn) ==>
        ok && Value() == old(Value()) && enc == encIn && merged == mergedIn
      ensures ok && !old(groups[a.index] in encIn && groups[b.index] in encIn) ==>
        groupTypes[groups[a.index]] == groupTypes[groups[b.index]] != {} && (a, b) in merged
      ensures !old(groups[a.index] in encIn && groups[b.index] in encIn) &&
              old(FlatTypes(groupTypes[groups[a.index]]) && FlatTypes(groupTypes[groups[b.index]])) ==>
        var m := old(CommonTypes(groupTypes[groups[a.index]], groupTypes[groups[b.index]]));
        (ok <==> m != {}) &&
        (ok ==> Value() == old(Value()).(groupTypes := old(groupTypes)[groups[a.index] := m][groups[b.index] := m]) &&
                enc == encIn && merged == mergedIn + {(a, b)}) &&
        (!ok ==> Value() == old(Value()) && enc == encIn + [groups[a.index], groups[b.index]] && merged == mergedIn)
      ensures ok ==> PairMerged(Value(), enc, merged, a, b)
      ensures !old(GroupsMayMerge(Value(), encIn, a, b)) ==> !ok
      ensures old(AnyMeets(TypesOf(Value(), a), TypesOf(Value(), b))) ==> ok
    {
      var ai := groups[a.index];
      var bi := groups[b.index];
      if ai in encIn && bi in encIn {
        return true, encIn, mergedIn;
      }
      ok, enc, merged := MergeNewPair(a, b, ai, bi, encIn, mergedIn);
    }

    /** `try_merge_groups_internal` on a pair not being merged already: merge their types, store them if any. */
    method MergeNewPair(a: Group, b: Group, ai: nat, bi: nat, encIn: seq<nat>, mergedIn: set<(Group, Group)>)
      returns (ok: bool, enc: seq<nat>, merged: set<(Group, Group)>)
      requires Valid() && Owns(Value(), a) && Owns(Value(), b) && MergedOwned(Value(), mergedIn)
      requires ai == groups[a.index] && bi == groups[b.index] && !(ai in encIn && bi in encIn)
      modifies this
      decreases Unseen(|groupTypes|, encIn), 0, 0
      ensures MergeFrame(old(Value()), encIn, mergedIn, Value(), enc, merged)
      ensures ok ==> groupTypes[ai] == groupTypes[bi] != {} && (a, b) in merged
      ensures old(FlatTypes(groupTypes[ai]) && FlatTypes(groupTypes[bi])) ==>
        var m := old(CommonTypes(groupTypes[ai], groupTypes[bi]));
        (ok <==> m != {}) &&
        (ok ==> Value() == old(Value()).(groupTypes := old(groupTypes)[ai := m][bi := m]) &&
                enc == encIn && merged == mergedIn + {(a, b)}) &&
        (!ok ==> Value() == old(Value()) && enc == encIn + [ai, bi] && merged == mergedIn)
      ensures !old(SomePairMayMerge(groupTypes[ai], groupTypes[bi])) ==> !ok
      ensures old(AnyMeets(groupTypes[ai], groupTypes[bi])) ==> ok
    {
      UnseenPush(|groupTypes|, encIn, ai, bi);
      var mergedTypes;
      mergedTypes, enc, merged := MergePairs(groupTypes[ai], groupTypes[bi], encIn + [ai, bi], mergedIn);
      if mergedTypes == {} {
        GrowsTransitive(encIn, encIn + [ai, bi], enc);
        return false, enc, merged;
      }
      ghost var s1 := Value();
      StoreMerged(ai, bi, mergedTypes);
      StoreFrame(old(Value()), encIn, mergedIn, s1, enc, merged, Value(), a, b, ai, bi);
      merged := merged + {(a, b)};
      enc := enc[..|enc| - 2];
      ok := true;
    }

    /** The end of a successful `try_merge_groups_internal`: both internal groups get the merged types. */
    method StoreMerged(ai: nat, bi: nat, ts: set<Type>)
      requires Valid() && ai < |groupTypes| && bi < |groupTypes| && TypesIn(Value(), ts)
      modifies this
      ensures Valid() && Extends(old(Value()), Value())
      ensures Value() == old(Value()).(groupTypes := old(groupTypes)[ai := ts][bi := ts])
      ensures groupTypes[ai] == groupTypes[bi] == ts
    {
      RetypeKeepsValid(Value(), ai, bi, ts);
      groupTypes := groupTypes[ai := ts][bi := ts];
    }

    /**
     * The two loops of `try_merge_groups_internal`: every type of the first
     * group against every type of the second, in no particular order,
     * collecting the results of the merges that succeed.
     */
    method MergePairs(aTypes: set<Type>, bTypes: set<Type>, encIn: seq<nat>, mergedIn: set<(Group, Group)>)
      returns (mergedTypes: set<Type>, enc: seq<nat>, merged: set<(Group, Group)>)
      requires Valid() && TypesIn(Value(), aTypes) && TypesIn(Value(), bTypes) && MergedOwned(Value(), mergedIn)
      modifies this
      decreases Unseen(|groupTypes|, encIn), 6, 0
      ensures MergeFrame(old(Value()), encIn, mergedIn, Value(), enc, merged)
      ensures TypesIn(Value(), mergedTypes)
      ensures FlatTypes(aTypes) && FlatTypes(bTypes) ==>
        mergedTypes == CommonTypes(aTypes, bTypes) && Value() == old(Value()) && enc == encIn && merged == mergedIn
      ensures !SomePairMayMerge(aTypes, bTypes) ==> mergedTypes == {}
      ensures AnyMeets(aTypes, bTypes) ==> mergedTypes != {}
    {
      mergedTypes, enc, merged := {}, encIn, mergedIn;
      ghost var flat := FlatTypes(aTypes) && FlatTypes(bTypes);
      var rest := aTypes;
      ghost var done: set<Type> := {};
      while rest != {}
        invariant done + rest == aTypes
        invariant MergeFrame(old(Value()), encIn, mergedIn, Value(), enc, merged)
        invariant TypesIn(Value(), mergedTypes)
        invariant flat ==> mergedTypes == PairwiseMerge(done, bTypes) &&
                           Value() == old(Value()) && enc == encIn && merged == mergedIn
        invariant PairsFacts(aTypes, bTypes, done, mergedTypes)
        decreases rest
      {
        var ta :| ta in rest;
        ghost var s1, e1, m1 := Value(), enc, merged;
        ExtendsKeepsValid(old(Value()), s1, ta);
        TypesInExtends(old(Value()), s1, bTypes);
        UnseenShrinks(|groupTypes|, encIn, enc);
        ghost var before := mergedTypes;
        mergedTypes, enc, merged := MergeRow(ta, bTypes, mergedTypes, enc, merged);
        PairsStep(aTypes, bTypes, done, ta, before, mergedTypes);
        MergeFrameTransitive(old(Value()), encIn, mergedIn, s1, e1, m1, Value(), enc, merged);
        if flat {
          FlatGroupMergeAddLeft(done, ta, bTypes);
        }
        rest := rest - {ta};
        done := done + {ta};
      }
      if flat {
        FlatGroupMergeMeaning(aTypes, bTypes);
      }
    }

    /** The inner loop of `try_merge_groups_internal`: one type against every type of the second group. */
    method MergeRow(ta: Type, bTypes: set<Type>, accIn: set<Type>, encIn: seq<nat>, mergedIn: set<(Group, Group)>)
      returns (acc: set<Type>, enc: seq<nat>, merged: set<(Group, Group)>)
      requires Valid() && TypeIn(Value(), ta) && TypesIn(Value(), bTypes) && TypesIn(Value(), accIn)
      requires MergedOwned(Value(), mergedIn)
      modifies this
      decreases Unseen(|groupTypes|, encIn), 5, 2
      ensures MergeFrame(old(Value()), encIn, mergedIn, Value(), enc, merged)
      ensures TypesIn(Value(), acc) && accIn <= acc
      ensures Flat(ta) && FlatTypes(bTypes) ==>
        acc == accIn + FlatRow(ta, bTypes) && Value() == old(Value()) && enc == encIn && merged == mergedIn
      ensures (forall tb :: tb in bTypes ==> !MayMerge(ta, tb)) ==> acc == accIn
      ensures ta.Any? ==> acc == accIn + bTypes
      ensures !ta.Any? && Any in bTypes ==> ta in acc
    {
      acc, enc, merged := accIn, encIn, mergedIn;
      ghost var flat := Flat(ta) && FlatTypes(bTypes);
      var rest := bTypes;
      ghost var done: set<Type> := {};
      while rest != {}
        invariant done + rest == bTypes
        invariant MergeFrame(old(Value()), encIn, mergedIn, Value(), enc, merged)
        invariant TypesIn(Value(), acc) && accIn <= acc
        invariant flat ==> acc == accIn + FlatRow(ta, done) &&
                           Value() == old(Value()) && enc == encIn && merged == mergedIn
        invariant RowFacts(ta, bTypes, done, accIn, acc)
        decreases rest
      {
        var tb :| tb in rest;
        ghost var s1, e1, m1 := Value(), enc, merged;
        ExtendsKeepsValid(old(Value()), s1, ta);
        ExtendsKeepsValid(old(Value()), s1, tb);
        UnseenShrinks(|groupTypes|, encIn, enc);
        acc, enc, merged := RowCell(ta, tb, bTypes, done, accIn, acc, enc, merged);
        MergeFrameTransitive(old(Value()), encIn, mergedIn, s1, e1, m1, Value(), enc, merged);
        rest := rest - {tb};
        done := done + {tb};
      }
    }

    /** One turn of the row loop: `MergeCell` on `tb`, with what the row has gathered carried over. */
    method RowCell(ta: Type, tb: Type, ghost bTypes: set<Type>, ghost done: set<Type>, ghost accIn: set<Type>,
                   acc0: set<Type>, encIn: seq<nat>, mergedIn: set<(Group, Group)>)
      returns (acc: set<Type>, enc: seq<nat>, merged: set<(Group, Group)>)
      requires Valid() && TypeIn(Value(), ta) && TypeIn(Value(), tb) && TypesIn(Value(), acc0)
      requires MergedOwned(Value(), mergedIn)
      requires tb in bTypes && RowFacts(ta, bTypes, done, accIn, acc0)
      requires Flat(ta) && FlatTypes(bTypes) ==> acc0 == accIn + FlatRow(ta, done)
      modifies this
      decreases Unseen(|groupTypes|, encIn), 5, 1
      ensures MergeFrame(old(Value()), encIn, mergedIn, Value(), enc, merged)
      ensures TypesIn(Value(), acc) && acc0 <= acc && RowFacts(ta, bTypes, done + {tb}, accIn, acc)
      ensures Flat(ta) && FlatTypes(bTypes) ==>
        acc == accIn + FlatRow(ta, done + {tb}) && Value() == old(Value()) && enc == encIn && merged == mergedIn
    {
      acc, enc, merged := MergeCell(ta, tb, acc0, encIn, mergedIn);
      if Flat(ta) && FlatTypes(bTypes) {
        FlatRowAdd(ta, done, tb, acc0, acc);
      }
      RowStep(ta, bTypes, done, tb, accIn, acc0, acc);
    }

    /** One pair of a row: the merge of `ta` with `tb`, added to the accumulated types when there is one. */
    method MergeCell(ta: Type, tb: Type, accIn: set<Type>, encIn: seq<nat>, mergedIn: set<(Group, Group)>)
      returns (acc: set<Type>, enc: seq<nat>, merged: set<(Group, Group)>)
      requires Valid() && TypeIn(Value(), ta) && TypeIn(Value(), tb) && TypesIn(Value(), accIn)
      requires MergedOwned(Value(), mergedIn)
      modifies this
      decreases Unseen(|groupTypes|, encIn), 5, 0
      ensures MergeFrame(old(Value()), encIn, mergedIn, Value(), enc, merged)
      ensures TypesIn(Value(), acc) && accIn <= acc
      ensures Flat(ta) && Flat(tb) ==>
        acc == accIn + (if FlatMerge(ta, tb).Some? then {FlatMerge(ta, tb).value} else {}) &&
        Value() == old(Value()) && enc == encIn && merged == mergedIn
      ensures !MayMerge(ta, tb) ==> acc == accIn
      ensures ta.Any? ==> acc == accIn + {tb}
      ensures !ta.Any? && tb.Any? ==> acc == accIn + {ta}
    {
      var r;
      r, enc, merged := TryMergeTypesInternal(ta, tb, encIn, mergedIn);
      TypesInExtends(old(Value()), Value(), accIn);
      acc := if r.Some? then accIn + {r.value} else accIn;
    }

    /**
     * `try_merge_types_internal`: `any` gives way to the other type; a
     * concrete object is first turned into a new non-fixed object and merged
     * as that; the remaining pairs are merged by `MergeKinds`.
     */
    method TryMergeTypesInternal(a: Type, b: Type, encIn: seq<nat>, mergedIn: set<(Group, Group)>)
      returns (r: Option<Type>, enc: seq<nat>, merged: set<(Group, Group)>)
      requires Valid() && TypeIn(Value(), a) && TypeIn(Value(), b) && MergedOwned(Value(), mergedIn)
      modifies this
      decreases Unseen(|groupTypes|, encIn), 4, ConcreteCount(a, b), 1
      ensures MergeFrame(old(Value()), encIn, mergedIn, Value(), enc, merged)
      ensures r.Some? ==> TypeIn(Value(), r.value)
      ensures a.Any? ==> r == Some(b) && Value() == old(Value()) && enc == encIn && merged == mergedIn
      ensures !a.Any? && b.Any? ==> r == Some(a) && Value() == old(Value()) && enc == encIn && merged == mergedIn
      ensures Flat(a) && Flat(b) ==>
        r == FlatMerge(a, b) && Value() == old(Value()) && enc == encIn && merged == mergedIn
      ensures !a.Any? && !b.Any? && !a.ConcreteObject? && !b.ConcreteObject? && !SameKind(a, b) ==>
        r == None && Value() == old(Value()) && enc == encIn && merged == mergedIn
      ensures a.Array? && b.Array? && r.Some? ==> r == Some(a)
      ensures (a.Object? || a.ConcreteObject?) && (b.Object? || b.ConcreteObject?) && r.Some? ==> r.value.Object?
      ensures !MayMerge(a, b) ==> r == None
      ensures a.Array? && b.Array? && r.Some? ==> PairMerged(Value(), enc, merged, old(arrays[a.id]), old(arrays[b.id]))
      ensures a.Array? && b.Array? && !old(GroupsMayMerge(Value(), encIn, arrays[a.id], arrays[b.id])) ==> r == None
      ensures a.Array? && b.Array? && old(AnyMeets(TypesOf(Value(), arrays[a.id]), TypesOf(Value(), arrays[b.id]))) ==>
        r == Some(a)
    {
      if a.Any? {
        return Some(b), encIn, mergedIn;
      }
      if b.Any? {
        return Some(a), encIn, mergedIn;
      }
      if a.ConcreteObject? || b.ConcreteObject? {
        r, enc, merged := MergeConcrete(a, b, encIn, mergedIn);
        return;
      }
      r, enc, merged := MergeKinds(a, b, encIn, mergedIn);
    }

    /**
     * The concrete-object arms of `try_merge_types_internal`: the concrete
     * object (the left one first) becomes a new non-fixed object, and the
     * merge is tried again with it.
     */
    method MergeConcrete(a: Type, b: Type, encIn: seq<nat>, mergedIn: set<(Group, Group)>)
      returns (r: Option<Type>, enc: seq<nat>, merged: set<(Group, Group)>)
      requires Valid() && TypeIn(Value(), a) && TypeIn(Value(), b) && MergedOwned(Value(), mergedIn)
      requires !a.Any? && !b.Any? && (a.ConcreteObject? || b.ConcreteObject?)
      modifies this
      decreases Unseen(|groupTypes|, encIn), 4, ConcreteCount(a, b), 0
      ensures MergeFrame(old(Value()), encIn, mergedIn, Value(), enc, merged)
      ensures r.Some? ==> TypeIn(Value(), r.value)
      ensures !MayMerge(a, b) ==> r == None
      ensures (a.Object? || a.ConcreteObject?) && (b.Object? || b.ConcreteObject?) && r.Some? ==> r.value.Object?
    {
      var o := ConcreteToObject(if a.ConcreteObject? then a.id else b.id);
      ghost var s1 := Value();
      assert MergeFrame(old(Value()), encIn, mergedIn, s1, encIn, mergedIn);
      if a.ConcreteObject? {
        r, enc, merged := TryMergeTypesInternal(Object(o), b, encIn, mergedIn);
      } else {
        r, enc, merged := TryMergeTypesInternal(a, Object(o), encIn, mergedIn);
      }
      MergeFrameTransitive(old(Value()), encIn, mergedIn, s1, encIn, mergedIn, Value(), enc, merged);
    }

    /**
     * The remaining arms of `try_merge_types_internal`: arrays merge their
     * element groups; objects, variants and closures merge in their own
     * arms; any other pair merges only if both are of the same kind.
     */
    method MergeKinds(a: Type, b: Type, encIn: seq<nat>, mergedIn: set<(Group, Group)>)
      returns (r: Option<Type>, enc: seq<nat>, merged: set<(Group, Group)>)
      requires Valid() && TypeIn(Value(), a) && TypeIn(Value(), b) && MergedOwned(Value(), mergedIn)
      requires !a.Any? && !b.Any? && !a.ConcreteObject? && !b.ConcreteObject?
      modifies this
      decreases Unseen(|groupTypes|, encIn), 3, 1
      ensures MergeFrame(old(Value()), encIn, mergedIn, Value(), enc, merged)
      ensures r.Some? ==> TypeIn(Value(), r.value)
      ensures !SameKind(a, b) || (Flat(a) && Flat(b)) ==>
        r == (if SameKind(a, b) then Some(a) else None) && Value() == old(Value()) && enc == encIn && merged == mergedIn
      ensures a.Array? && b.Array? && r.Some? ==> r == Some(a)
      ensures a.Object? && b.Object? && r.Some? ==> r.value.Object?
      ensures a.Array? && b.Array? && r.Some? ==> PairMerged(Value(), enc, merged, old(arrays[a.id]), old(arrays[b.id]))
      ensures a.Array? && b.Array? && !old(GroupsMayMerge(Value(), encIn, arrays[a.id], arrays[b.id])) ==> r == None
      ensures a.Array? && b.Array? && old(AnyMeets(TypesOf(Value(), arrays[a.id]), TypesOf(Value(), arrays[b.id]))) ==>
        r == Some(a)
    {
      if a.Array? && b.Array? {
        var ok;
        ok, enc, merged := TryMergeGroupsInternal(arrays[a.id], arrays[b.id], encIn, mergedIn);
        r := if ok then Some(a) else None;
      } else if a.Object? && b.Object? {
        r, enc, merged := MergeObjects(a.id, b.id, encIn, mergedIn);
      } else if a.Closure? && b.Closure? {
        r, enc, merged := MergeClosures(a.id, b.id, encIn, mergedIn);
      } else if a.Variants? && b.Variants? {
        r, enc, merged := MergeVariants(a.id, b.id, encIn, mergedIn);
      } else {
        r, enc, merged := if SameKind(a, b) then Some(a) else None, encIn, mergedIn;
      }
    }

    /**
     * The concrete-object arms of `try_merge_types_internal`: a new non-fixed
     * object with the concrete object's members (a later member of the same
     * name winning).
     */
    method ConcreteToObject(x: nat) returns (o: nat)
      requires Valid() && x < |concreteObjects|
      modifies this
      ensures Valid() && Extends(old(Value()), Value())
      ensures o == |old(objects)| && o < |objects|
      ensures objects[o] == Fields(MembersMap(old(concreteObjects[x])), false)
      ensures objects[o].members.Keys == set j | 0 <= j < |old(concreteObjects[x])| :: old(concreteObjects[x])[j].name
    {
      var ms := concreteObjects[x];
      MembersMapOwned(Value(), ms, false);
      o := InsertObject(MembersMap(ms), false);
      forall k | k in objects[o].members
        ensures k in set j | 0 <= j < |ms| :: ms[j].name
      {
        MembersMapKeys(ms, k);
      }
      forall j | 0 <= j < |ms| ensures ms[j].name in objects[o].members {
        MembersMapSound(ms, j);
      }
    }

    /** The object arm of `try_merge_types_internal`: a new object holding the merged members. */
    method MergeObjects(x: nat, y: nat, encIn: seq<nat>, mergedIn: set<(Group, Group)>)
      returns (r: Option<Type>, enc: seq<nat>, merged: set<(Group, Group)>)
      requires Valid() && x < |objects| && y < |objects| && MergedOwned(Value(), mergedIn)
      modifies this
      decreases Unseen(|groupTypes|, encIn), 3, 0
      ensures MergeFrame(old(Value()), encIn, mergedIn, Value(), enc, merged)
      ensures !FieldsCompatible(old(objects[x]), old(objects[y])) ==> r == None
      ensures r.Some? ==> (r.value.Object? && r.value.id < |objects| &&
        objects[r.value.id] == MergedFields(old(objects[x]), old(objects[y])))
    {
      var f;
      f, enc, merged := MergeFields(objects[x], objects[y], encIn, mergedIn);
      if f.None? {
        return None, enc, merged;
      }
      ghost var s1 := Value();
      var o := InsertObject(f.value.members, f.value.fixed);
      MergeFrameTransitive(old(Value()), encIn, mergedIn, s1, enc, merged, Value(), enc, merged);
      r := Some(Object(o));
    }

    /** The variants arm of `try_merge_types_internal`: a new variants type holding the merged variants. */
    method MergeVariants(x: nat, y: nat, encIn: seq<nat>, mergedIn: set<(Group, Group)>)
      returns (r: Option<Type>, enc: seq<nat>, merged: set<(Group, Group)>)
      requires Valid() && x < |variants| && y < |variants| && MergedOwned(Value(), mergedIn)
      modifies this
      decreases Unseen(|groupTypes|, encIn), 3, 0
      ensures MergeFrame(old(Value()), encIn, mergedIn, Value(), enc, merged)
      ensures !FieldsCompatible(old(variants[x]), old(variants[y])) ==> r == None
      ensures r.Some? ==> (r.value.Variants? && r.value.id < |variants| &&
        variants[r.value.id] == MergedFields(old(variants[x]), old(variants[y])))
    {
      var f;
      f, enc, merged := MergeFields(variants[x], variants[y], encIn, mergedIn);
      if f.None? {
        return None, enc, merged;
      }
      ghost var s1 := Value();
      var v := InsertVariants(f.value.members, f.value.fixed);
      MergeFrameTransitive(old(Value()), encIn, mergedIn, s1, enc, merged, Value(), enc, merged);
      r := Some(Variants(v));
    }

    /**
     * The member loop shared by the object and variants arms: every name of
     * either side, in no particular order, each handled by `MergeMember`.
     */
    method MergeFields(fa: Fields, fb: Fields, encIn: seq<nat>, mergedIn: set<(Group, Group)>)
      returns (r: Option<Fields>, enc: seq<nat>, merged: set<(Group, Group)>)
      requires Valid() && FieldsOwned(Value(), fa) && FieldsOwned(Value(), fb) && MergedOwned(Value(), mergedIn)
      modifies this
      decreases Unseen(|groupTypes|, encIn), 2, 0
      ensures MergeFrame(old(Value()), encIn, mergedIn, Value(), enc, merged)
      ensures !FieldsCompatible(fa, fb) ==> r.None?
      ensures r.Some? ==> r.value == MergedFields(fa, fb) && FieldsOwned(Value(), r.value)
    {
      var names := fa.members.Keys + fb.members.Keys;
      var rest := names;
      var members: map<Name, Group> := map[];
      enc, merged := encIn, mergedIn;
      while rest != {}
        invariant rest <= names
        invariant MergeFrame(old(Value()), encIn, mergedIn, Value(), enc, merged)
        invariant members.Keys == names - rest
        invariant forall k :: k in members ==> members[k] == MergedFields(fa, fb).members[k]
        invariant forall k :: k in names - rest ==> MemberCompatible(fa, fb, k)
        decreases rest
      {
        var k :| k in rest;
        ghost var s1, e1, m1 := Value(), enc, merged;
        UnseenShrinks(|groupTypes|, encIn, enc);
        var ok;
        ok, enc, merged := MergeMember(fa, fb, k, enc, merged);
        MergeFrameTransitive(old(Value()), encIn, mergedIn, s1, e1, m1, Value(), enc, merged);
        if !ok {
          return None, enc, merged;
        }
        members := members[k := if k in fa.members then fa.members[k] else fb.members[k]];
        rest := rest - {k};
      }
      assert members == MergedFields(fa, fb).members;
      r := Some(Fields(members, fa.fixed || fb.fixed));
    }

    /**
     * One name of the member loop: on both sides the two groups must merge;
     * on one side only, the other side must not be fixed.
     */
    method MergeMember(fa: Fields, fb: Fields, k: Name, encIn: seq<nat>, mergedIn: set<(Group, Group)>)
      returns (ok: bool, enc: seq<nat>, merged: set<(Group, Group)>)
      requires Valid() && FieldsOwned(Value(), fa) && FieldsOwned(Value(), fb) && MergedOwned(Value(), mergedIn)
      requires k in fa.members || k in fb.members
      modifies this
      decreases Unseen(|groupTypes|, encIn), 1, 0
      ensures MergeFrame(old(Value()), encIn, mergedIn, Value(), enc, merged)
      ensures ok ==> MemberCompatible(fa, fb, k)
      ensures !(k in fa.members && k in fb.members) ==>
        (ok <==> MemberCompatible(fa, fb, k)) && Value() == old(Value()) && enc == encIn && merged == mergedIn
      ensures k in fa.members && k in fb.members && ok ==> PairMerged(Value(), enc, merged, fa.members[k], fb.members[k])
      ensures k in fa.members && k in fb.members && !old(GroupsMayMerge(Value(), encIn, fa.members[k], fb.members[k])) ==> !ok
      ensures k in fa.members && k in fb.members && old(AnyMeets(TypesOf(Value(), fa.members[k]), TypesOf(Value(), fb.members[k]))) ==> ok
    {
      if k in fa.members && k in fb.members {
        ok, enc, merged := TryMergeGroupsInternal(fa.members[k], fb.members[k], encIn, mergedIn);
      } else {
        ok := if k in fa.members then !fb.fixed else !fa.fixed;
        enc, merged := encIn, mergedIn;
      }
    }

    /** The closure arm of `try_merge_types_internal`. */
    method MergeClosures(x: nat, y: nat, encIn: seq<nat>, mergedIn: set<(Group, Group)>)
      returns (r: Option<Type>, enc: seq<nat>, merged: set<(Group, Group)>)
      requires Valid() && x < |closures| && y < |closures| && MergedOwned(Value(), mergedIn)
      modifies this
      decreases Unseen(|groupTypes|, encIn), 3, 0
      ensures MergeFrame(old(Value()), encIn, mergedIn, Value(), enc, merged)
      ensures |old(closures[x]).parameters| != |old(closures[y]).parameters| ==>
        r == None && Value() == old(Value()) && enc == encIn && merged == mergedIn
      ensures r.Some? ==>
        r.value.Closure? && r.value.id < |closures| &&
        closures[r.value.id] == MergedClosure(old(closures[x]), old(closures[y]))
      ensures r.Some? ==> forall j :: 0 <= j < |old(closures[x]).parameters| ==>
        PairMerged(Value(), enc, merged, old(closures[x]).parameters[j], old(closures[y]).parameters[j])
      ensures r.Some? ==> PairMerged(Value(), enc, merged, old(closures[x]).returned, old(closures[y]).returned)
    {
      var ca := closures[x];
      var cb := closures[y];
      if |ca.parameters| != |cb.parameters| {
        return None, encIn, mergedIn;
      }
      var ok;
      ok, enc, merged := MergeParameters(ca.parameters, cb.parameters, encIn, mergedIn);
      if !ok {
        return None, enc, merged;
      }
      ClosureOwnedExtends(old(Value()), Value(), ca);
      ClosureOwnedExtends(old(Value()), Value(), cb);
      ghost var s1, e1, m1 := Value(), enc, merged;
      UnseenShrinks(|groupTypes|, encIn, enc);
      r, enc, merged := MergeReturnedAndInsert(ca, cb, enc, merged);
      MergeFrameTransitive(old(Value()), encIn, mergedIn, s1, e1, m1, Value(), enc, merged);
      PairsMergedGrow(s1, e1, m1, Value(), enc, merged, ca.parameters, cb.parameters);
    }

    /** The end of the closure arm: merge the return groups, then append the merged closure. */
    method MergeReturnedAndInsert(ca: ClosureSig, cb: ClosureSig, encIn: seq<nat>, mergedIn: set<(Group, Group)>)
      returns (r: Option<Type>, enc: seq<nat>, merged: set<(Group, Group)>)
      requires Valid() && ClosureOwned(Value(), ca) && ClosureOwned(Value(), cb) && MergedOwned(Value(), mergedIn)
      modifies this
      decreases Unseen(|groupTypes|, encIn), 2, 2
      ensures MergeFrame(old(Value()), encIn, mergedIn, Value(), enc, merged)
      ensures r.Some? ==>
        r.value.Closure? && r.value.id < |closures| && closures[r.value.id] == MergedClosure(ca, cb)
      ensures r.Some? ==> PairMerged(Value(), enc, merged, ca.returned, cb.returned)
      ensures !old(GroupsMayMerge(Value(), encIn, ca.returned, cb.returned)) ==> r == None
    {
      var ok;
      ok, enc, merged := TryMergeGroupsInternal(ca.returned, cb.returned, encIn, mergedIn);
      if !ok {
        return None, enc, merged;
      }
      ghost var s1 := Value();
      ClosureOwnedExtends(old(Value()), s1, MergedClosure(ca, cb));
      var c := InsertClosure(ca.parameters, ca.returned, if ca.captures.Some? then ca.captures else cb.captures);
      MergeFrameExtends(s1, enc, merged, Value());
      MergeFrameTransitive(old(Value()), encIn, mergedIn, s1, enc, merged, Value(), enc, merged);
      r := Some(Closure(c));
    }

    /** The parameter loop of the closure arm: merge the parameter groups pairwise, stopping at the first that fails. */
    method MergeParameters(xs: seq<Group>, ys: seq<Group>, encIn: seq<nat>, mergedIn: set<(Group, Group)>)
      returns (ok: bool, enc: seq<nat>, merged: set<(Group, Group)>)
      requires Valid() && |xs| == |ys| && MergedOwned(Value(), mergedIn)
      requires forall j :: 0 <= j < |xs| ==> Owns(Value(), xs[j]) && Owns(Value(), ys[j])
      modifies this
      decreases Unseen(|groupTypes|, encIn), 2, 1
      ensures MergeFrame(old(Value()), encIn, mergedIn, Value(), enc, merged)
      ensures |xs| == 0 ==> ok && Value() == old(Value()) && enc == encIn && merged == mergedIn
      ensures ok ==> forall j :: 0 <= j < |xs| ==> PairMerged(Value(), enc, merged, xs[j], ys[j])
    {
      enc, merged := encIn, mergedIn;
      for p := 0 to |xs|
        invariant MergeFrame(old(Value()), encIn, mergedIn, Value(), enc, merged)
        invariant p == 0 ==> Value() == old(Value()) && enc == encIn && merged == mergedIn
        invariant forall j :: 0 <= j < p ==> PairMerged(Value(), enc, merged, xs[j], ys[j])
      {
        ghost var s1, e1, m1 := Value(), enc, merged;
        UnseenShrinks(|groupTypes|, encIn, enc);
        ok, enc, merged := TryMergeGroupsInternal(xs[p], ys[p], enc, merged);
        MergeFrameTransitive(old(Value()), encIn, mergedIn, s1, e1, m1, Value(), enc, merged);
        PairsMergedGrow(s1, e1, m1, Value(), enc, merged, xs[..p], ys[..p]);
        if !ok {
          return false, enc, merged;
        }
      }
      ok := true;
    }

    /** Points every handle of internal group `from` at internal group `to`. */
    method RedirectHandles(from: nat, to: nat)
      modifies this
      ensures Value() == old(Value()).(groups := Redirected(old(groups), from, to))
    {
      for i := 0 to |groups|
        invariant |groups| == |old(groups)|
        invariant Value() == old(Value()).(groups := groups)
        invariant forall k :: 0 <= k < i ==> groups[k] == Redirected(old(groups), from, to)[k]
        invariant forall k :: i <= k < |groups| ==> groups[k] == old(groups)[k]
      {
        if groups[i] == from {
          groups := groups[i := to];
        }
      }
    }

    /** One pair of the redirect pass: the second handle's group is pointed at the first's, if they differ. */
    method RedirectPair(p: (Group, Group), ghost g0: seq<nat>, ghost f: map<nat, nat>,
                        ghost done: set<(Group, Group)>, ghost merged: set<(Group, Group)>)
      returns (ghost f': map<nat, nat>)
      requires p in merged && p.0.index < |groups| && p.1.index < |groups|
      requires forall i :: 0 <= i < |groups| ==> groups[i] < |groupTypes|
      requires Tracks(g0, groups, f) && PairsJoined(groups, done) && MovesTouched(g0, merged, f)
      modifies this
      ensures Value() == old(Value()).(groups := Redirected(old(groups), old(groups)[p.1.index], old(groups)[p.0.index]))
      ensures forall i :: 0 <= i < |groups| ==> groups[i] < |groupTypes|
      ensures Tracks(g0, groups, f') && PairsJoined(groups, done + {p}) && MovesTouched(g0, merged, f')
    {
      var x := groups[p.0.index];
      var y := groups[p.1.index];
      RedirectStep(g0, groups, f, done, p, |groupTypes|);
      RetargetMovesTouched(g0, groups, f, merged, p);
      f' := Retarget(f, y, x);
      if x != y {
        RedirectHandles(y, x);
      } else {
        assert Redirected(groups, y, x) == groups;
      }
    }

    /**
     * The redirect pass of `try_merge_groups`: for each merged pair, in no
     * particular order, if its two handles are in different internal groups,
     * every handle of the second's group is pointed at the first's.
     */
    method RedirectMerged(merged: set<(Group, Group)>, ghost a: Group, ghost b: Group)
      requires Valid() && MergedOwned(Value(), merged)
      modifies this
      ensures Valid() && Value() == old(Value()).(groups := groups)
      ensures Joins(old(groups), groups)
      ensures forall p :: p in merged ==> groups[p.0.index] == groups[p.1.index]
      ensures merged == {(a, b)} ==> groups == Redirected(old(groups), old(groups)[b.index], old(groups)[a.index])
      ensures forall i :: 0 <= i < |groups| && !Touched(old(groups), merged, old(groups)[i]) ==> groups[i] == old(groups)[i]
      ensures forall i :: 0 <= i < |groups| && Touched(old(groups), merged, old(groups)[i]) ==> Touched(old(groups), merged, groups[i])
    {
      ghost var g0 := groups;
      ghost var f: map<nat, nat> := map k | k in g0 :: k;
      var rest := merged;
      ghost var done: set<(Group, Group)> := {};
      while rest != {}
        invariant rest <= merged && merged <= done + rest
        invariant Value() == old(Value()).(groups := groups)
        invariant forall i :: 0 <= i < |groups| ==> groups[i] < |groupTypes|
        invariant Tracks(g0, groups, f) && PairsJoined(groups, done) && MovesTouched(g0, merged, f)
        invariant merged == {(a, b)} ==>
          groups == if rest == {} then Redirected(g0, g0[b.index], g0[a.index]) else g0
        decreases rest
      {
        var p :| p in rest;
        f := RedirectPair(p, g0, f, done, merged);
        done := done + {p};
        rest := rest - {p};
      }
      JoinsBy(g0, groups, f);
      UntouchedStay(g0, groups, f, merged);
      RegroupKeepsValid(old(Value()), groups);
    }

    /**
     * `try_merge_groups`: merge two handles' groups and, on success, point
     * the handles of each merged pair at one internal group. Handles only
     * ever join: two handles that shared a group still do.
     */
    method TryMergeGroups(a: Group, b: Group) returns (r: Result<bool, ScopeError>, ghost merged: set<(Group, Group)>)
      requires Valid()
      requires a.scopeId == id ==> a.index < |groups|
      requires b.scopeId == id ==> b.index < |groups|
      modifies this
      ensures a.scopeId != id ==> r == Err(ForeignGroup(id, a.scopeId)) && Value() == old(Value())
      ensures a.scopeId == id && b.scopeId != id ==> r == Err(ForeignGroup(id, b.scopeId)) && Value() == old(Value())
      ensures Valid()
      ensures r.Ok? ==> a.scopeId == id && b.scopeId == id && |groups| == |old(groups)|
      ensures r.Ok? ==> Extends(old(Value()).(groups := groups), Value())
      ensures r == Ok(true) ==> groups[a.index] == groups[b.index]
      ensures r.Ok? ==> Joins(old(groups), groups)
      ensures r == Ok(false) ==> groups == old(groups)
      ensures a.scopeId == id && b.scopeId == id && !old(SomePairMayMerge(TypesOf(Value(), a), TypesOf(Value(), b))) ==>
        r == Ok(false)
      ensures a.scopeId == id && b.scopeId == id && old(AnyMeets(TypesOf(Value(), a), TypesOf(Value(), b))) ==>
        r == Ok(true)
      ensures r == Ok(true) ==> (a, b) in merged && MergedOwned(Value(), merged)
      ensures r == Ok(true) ==> forall p :: p in merged ==> groups[p.0.index] == groups[p.1.index]
      ensures r == Ok(true) ==> forall i :: 0 <= i < |groups| && !Touched(old(groups), merged, old(groups)[i]) ==> groups[i] == old(groups)[i]
      ensures r == Ok(true) ==> forall i :: 0 <= i < |groups| && Touched(old(groups), merged, old(groups)[i]) ==> Touched(old(groups), merged, groups[i])
      ensures r.Ok? && old(FlatTypes(groupTypes[groups[a.index]]) && FlatTypes(groupTypes[groups[b.index]])) ==>
        var m := old(CommonTypes(groupTypes[groups[a.index]], groupTypes[groups[b.index]]));
        (r.value <==> m != {}) &&
        (r.value ==> groups == Redirected(old(groups), old(groups[b.index]), old(groups[a.index])) &&
                     groupTypes[groups[a.index]] == m)
    {
      if a.scopeId != id {
        return Err(ForeignGroup(id, a.scopeId)), {};
      }
      if b.scopeId != id {
        return Err(ForeignGroup(id, b.scopeId)), {};
      }
      var ok, enc, pairs := TryMergeGroupsInternal(a, b, [], {});
      merged := pairs;
      if !ok {
        return Ok(false), merged;
      }
      ghost var s1 := Value();
      RedirectMerged(pairs, a, b);
      assert Extends(s1.(groups := old(groups)), Value().(groups := old(groups)));
      r := Ok(true);
    }

    // -------------------------------------------------------------------------
    // Transfer (`transfer_group`)
    // -------------------------------------------------------------------------

    /**
     * `transfer_group`: copy a group of this scope, and everything its types
     * refer to, into `dest`, returning the new handle. This scope is only
     * read; `dest` only gains handles, internal groups and table entries, and
     * the group comes back with the same kinds of type. A group of flat types
     * arrives as one new handle with exactly those types.
     */
    method TransferGroup(group: Group, dest: TypeScope) returns (r: Group)
      requires dest != this && Valid() && dest.Valid() && Owns(Value(), group)
      modifies dest
      ensures dest.Valid() && Grown(old(dest.Value()), dest.Value())
      ensures r == Group(|old(dest.groups)|, dest.id) && Owns(dest.Value(), r)
      ensures dest.groups[r.index] == |old(dest.groupTypes)|
      ensures Kinds(dest.groupTypes[dest.groups[r.index]]) == Kinds(groupTypes[groups[group.index]])
      ensures exists memo :: SetCopied(Value(), dest.Value(), memo, groupTypes[groups[group.index]], dest.groupTypes[dest.groups[r.index]])
      ensures FlatTypes(groupTypes[groups[group.index]]) ==>
        dest.Value() == old(dest.Value()).(groups := old(dest.groups) + [|old(dest.groupTypes)|],
                                           groupTypes := old(dest.groupTypes) + [groupTypes[groups[group.index]]])
    {
      var enc;
      r, enc := TransferGroupInternal(group, dest, map[]);
    }

    /**
     * `transfer_group_internal`: a group already transferred comes back as
     * the handle it was given; otherwise a new empty group is made in `dest`
     * and recorded, each type is transferred, and the new group gets them.
     */
    method TransferGroupInternal(group: Group, dest: TypeScope, encIn: map<nat, Group>)
      returns (r: Group, enc: map<nat, Group>)
      requires dest != this && Valid() && dest.Valid() && Owns(Value(), group)
      requires MemoOwned(dest.Value(), encIn)
      modifies dest
      decreases Untransferred(|groupTypes|, encIn), 1
      ensures dest.Valid() && Grown(old(dest.Value()), dest.Value())
      ensures MemoGrows(encIn, enc) && MemoOwned(dest.Value(), enc) && Owns(dest.Value(), r)
      ensures CopyOf(Value(), enc, group, r)
      ensures groups[group.index] in encIn ==>
        r == encIn[groups[group.index]] && dest.Value() == old(dest.Value()) && enc == encIn
      ensures groups[group.index] !in encIn ==>
        r == Group(|old(dest.groups)|, dest.id) && dest.groups[r.index] == |old(dest.groupTypes)| &&
        groups[group.index] in enc && enc[groups[group.index]] == r &&
        Kinds(dest.groupTypes[dest.groups[r.index]]) == Kinds(groupTypes[groups[group.index]]) &&
        SetCopied(Value(), dest.Value(), enc, groupTypes[groups[group.index]], dest.groupTypes[dest.groups[r.index]])
      ensures groups[group.index] !in encIn && FlatTypes(groupTypes[groups[group.index]]) ==>
        dest.Value() == old(dest.Value()).(groups := old(dest.groups) + [|old(dest.groupTypes)|],
                                           groupTypes := old(dest.groupTypes) + [groupTypes[groups[group.index]]]) &&
        enc == encIn[groups[group.index] := r]
    {
      var internal := groups[group.index];
      if internal in encIn {
        return encIn[internal], encIn;
      }
      r, enc := TransferNewGroup(internal, dest, encIn);
    }

    /** `transfer_group_internal` on a group not transferred yet: a new group in `dest`, then its types. */
    method TransferNewGroup(internal: nat, dest: TypeScope, encIn: map<nat, Group>)
      returns (r: Group, enc: map<nat, Group>)
      requires dest != this && Valid() && dest.Valid() && internal < |groupTypes| && internal !in encIn
      requires MemoOwned(dest.Value(), encIn)
      modifies dest
      decreases Untransferred(|groupTypes|, encIn), 0
      ensures dest.Valid() && Grown(old(dest.Value()), dest.Value())
      ensures MemoGrows(encIn, enc) && MemoOwned(dest.Value(), enc) && Owns(dest.Value(), r)
      ensures r == Group(|old(dest.groups)|, dest.id) && dest.groups[r.index] == |old(dest.groupTypes)| &&
        internal in enc && enc[internal] == r &&
        Kinds(dest.groupTypes[dest.groups[r.index]]) == Kinds(groupTypes[internal])
      ensures SetCopied(Value(), dest.Value(), enc, groupTypes[internal], dest.groupTypes[dest.groups[r.index]])
      ensures FlatTypes(groupTypes[internal]) ==>
        dest.Value() == old(dest.Value()).(groups := old(dest.groups) + [|old(dest.groupTypes)|],
                                           groupTypes := old(dest.groupTypes) + [groupTypes[internal]]) &&
        enc == encIn[internal := r]
    {
      ghost var d0 := dest.Value();
      r := dest.InsertGroup([]);
      enc := encIn[internal := r];
      UntransferredAdd(|groupTypes|, encIn, internal, r);
      ghost var d1, e1 := dest.Value(), enc;
      assert Grown(d0, d1);
      var out;
      out, enc := TransferTypes(groupTypes[internal], dest, enc);
      ghost var d2 := dest.Value();
      GrownTransitive(d0, d1, d2);
      MemoGrowsTransitive(encIn, e1, enc);
      assert d2.groups[r.index] == d2.groups[..|d1.groups|][r.index];
      var _ := dest.SetGroupTypes(r, out);
      SetNewGroupGrown(d0, d2, dest.Value(), r.index, set t | t in out);
      SetCopiedTables(Value(), d2, dest.Value(), enc, groupTypes[internal], set t | t in out);
      MemoOwnedSameHandles(d2, dest.Value(), enc);
      KindsOfElements(out);
    }

    /** The loop of `transfer_group_internal`: each type of the group transferred, in no particular order. */
    method TransferTypes(source: set<Type>, dest: TypeScope, encIn: map<nat, Group>)
      returns (out: seq<Type>, enc: map<nat, Group>)
      requires dest != this && Valid() && dest.Valid() && TypesIn(Value(), source)
      requires MemoOwned(dest.Value(), encIn)
      modifies dest
      decreases Untransferred(|groupTypes|, encIn), 7
      ensures dest.Valid() && Grown(old(dest.Value()), dest.Value())
      ensures MemoGrows(encIn, enc) && MemoOwned(dest.Value(), enc)
      ensures forall j :: 0 <= j < |out| ==> TypeIn(dest.Value(), out[j])
      ensures KindsOf(out) == Kinds(source)
      ensures FlatTypes(source) ==> (set t | t in out) == source && dest.Value() == old(dest.Value()) && enc == encIn
      ensures SetCopied(Value(), dest.Value(), enc, source, set t | t in out)
    {
      var rest := source;
      out, enc := [], encIn;
      ghost var order := [];
      ghost var flat := FlatTypes(source);
      while rest != {}
        invariant (set t | t in order) + rest == source
        invariant dest.Valid() && Grown(old(dest.Value()), dest.Value())
        invariant MemoGrows(encIn, enc) && MemoOwned(dest.Value(), enc)
        invariant AllTypeIn(dest.Value(), out)
        invariant flat ==> dest.Value() == old(dest.Value()) && enc == encIn
        invariant TypesCopied(Value(), dest.Value(), enc, order, out)
        decreases rest
      {
        var t :| t in rest;
        ghost var d1, e1 := dest.Value(), enc;
        UntransferredShrinks(|groupTypes|, encIn, enc);
        out, enc, order := TransferNextType(t, dest, enc, out, order);
        GrownTransitive(old(dest.Value()), d1, dest.Value());
        MemoGrowsTransitive(encIn, e1, enc);
        rest := rest - {t};
      }
      CopiedKinds(Value(), dest.Value(), enc, order, out);
      assert TypesCopied(Value(), dest.Value(), enc, order, out) && (set t | t in order) == source;
    }

    /** One turn of the loop of `transfer_group_internal`: `t` transferred and appended. */
    method TransferNextType(t: Type, dest: TypeScope, encIn: map<nat, Group>, outIn: seq<Type>, ghost orderIn: seq<Type>)
      returns (out: seq<Type>, enc: map<nat, Group>, ghost order: seq<Type>)
      requires dest != this && Valid() && dest.Valid() && TypeIn(Value(), t)
      requires MemoOwned(dest.Value(), encIn)
      requires AllTypeIn(dest.Value(), outIn) && TypesCopied(Value(), dest.Value(), encIn, orderIn, outIn)
      modifies dest
      decreases Untransferred(|groupTypes|, encIn), 6
      ensures dest.Valid() && Grown(old(dest.Value()), dest.Value())
      ensures MemoGrows(encIn, enc) && MemoOwned(dest.Value(), enc)
      ensures AllTypeIn(dest.Value(), out) && |out| == |outIn| + 1 && out[..|outIn|] == outIn
      ensures order == orderIn + [t] && (set u | u in order) == (set u | u in orderIn) + {t}
      ensures TypesCopied(Value(), dest.Value(), enc, order, out)
      ensures Flat(t) ==> out == outIn + [t] && dest.Value() == old(dest.Value()) && enc == encIn
    {
      var t';
      t', enc := TransferTypeInternal(t, dest, encIn);
      GrownAllTypeInSnoc(old(dest.Value()), dest.Value(), outIn, t');
      TypesCopiedSnoc(Value(), old(dest.Value()), dest.Value(), encIn, enc, orderIn, outIn, t, t');
      ElementsSnoc(orderIn, t);
      out, order := outIn + [t'], orderIn + [t];
    }

    /**
     * `transfer_type_internal`: flat types stay as they are; the others get a
     * new entry in `dest` (its shape stated by each arm's method) pointing at
     * transferred groups.
     */
    method TransferTypeInternal(t: Type, dest: TypeScope, encIn: map<nat, Group>)
      returns (r: Type, enc: map<nat, Group>)
      requires dest != this && Valid() && dest.Valid() && TypeIn(Value(), t)
      requires MemoOwned(dest.Value(), encIn)
      modifies dest
      decreases Untransferred(|groupTypes|, encIn), 5
      ensures dest.Valid() && Grown(old(dest.Value()), dest.Value())
      ensures MemoGrows(encIn, enc) && MemoOwned(dest.Value(), enc)
      ensures TypeIn(dest.Value(), r) && Kind(r) == Kind(t)
      ensures TypeCopied(Value(), dest.Value(), enc, t, r)
      ensures Flat(t) ==> r == t && dest.Value() == old(dest.Value()) && enc == encIn
    {
      match t
      case Array(x) => {
        var i;
        i, enc := TransferArray(x, dest, encIn);
        r := Array(i);
      }
      case Object(x) => {
        var i;
        i, enc := TransferObject(x, dest, encIn);
        r := Object(i);
      }
      case ConcreteObject(x) => {
        var i;
        i, enc := TransferConcreteObject(x, dest, encIn);
        r := ConcreteObject(i);
      }
      case Closure(x) => {
        var i;
        i, enc := TransferClosure(x, dest, encIn);
        r := Closure(i);
      }
      case Variants(x) => {
        var i;
        i, enc := TransferVariants(x, dest, encIn);
        r := Variants(i);
      }
      case _ => {
        r, enc := t, encIn;
      }
    }

    /** The array arm: a new array entry in `dest` for the transferred element group. */
    method TransferArray(x: nat, dest: TypeScope, encIn: map<nat, Group>) returns (i: nat, enc: map<nat, Group>)
      requires dest != this && Valid() && dest.Valid() && x < |arrays|
      requires MemoOwned(dest.Value(), encIn)
      modifies dest
      decreases Untransferred(|groupTypes|, encIn), 2
      ensures dest.Valid() && Grown(old(dest.Value()), dest.Value())
      ensures MemoGrows(encIn, enc) && MemoOwned(dest.Value(), enc)
      ensures i == |dest.arrays| - 1 && TypeIn(dest.Value(), Array(i))
      ensures CopyOf(Value(), enc, arrays[x], dest.arrays[i])
    {
      var g;
      g, enc := TransferGroupInternal(arrays[x], dest, encIn);
      ghost var d1 := dest.Value();
      i := dest.InsertArray(g);
      ExtendsGrown(d1, dest.Value());
      GrownTransitive(old(dest.Value()), d1, dest.Value());
    }

    /** The object arm: a new object entry in `dest` with the same names and fixedness. */
    method TransferObject(x: nat, dest: TypeScope, encIn: map<nat, Group>) returns (i: nat, enc: map<nat, Group>)
      requires dest != this && Valid() && dest.Valid() && x < |objects|
      requires MemoOwned(dest.Value(), encIn)
      modifies dest
      decreases Untransferred(|groupTypes|, encIn), 3
      ensures dest.Valid() && Grown(old(dest.Value()), dest.Value())
      ensures MemoGrows(encIn, enc) && MemoOwned(dest.Value(), enc)
      ensures i == |dest.objects| - 1 && TypeIn(dest.Value(), Object(i))
      ensures dest.objects[i].members.Keys == objects[x].members.Keys && dest.objects[i].fixed == objects[x].fixed
      ensures MembersCopied(Value(), enc, objects[x].members, dest.objects[i].members)
    {
      var members;
      members, enc := TransferMembers(objects[x].members, dest, encIn);
      ghost var d1 := dest.Value();
      i := dest.InsertObject(members, objects[x].fixed);
      ExtendsGrown(d1, dest.Value());
      GrownTransitive(old(dest.Value()), d1, dest.Value());
    }

    /** The concrete-object arm: a new concrete object in `dest` with the same names in the same order. */
    method TransferConcreteObject(x: nat, dest: TypeScope, encIn: map<nat, Group>) returns (i: nat, enc: map<nat, Group>)
      requires dest != this && Valid() && dest.Valid() && x < |concreteObjects|
      requires MemoOwned(dest.Value(), encIn)
      modifies dest
      decreases Untransferred(|groupTypes|, encIn), 3
      ensures dest.Valid() && Grown(old(dest.Value()), dest.Value())
      ensures MemoGrows(encIn, enc) && MemoOwned(dest.Value(), enc)
      ensures i == |dest.concreteObjects| - 1 && TypeIn(dest.Value(), ConcreteObject(i))
      ensures Names(dest.concreteObjects[i]) == Names(concreteObjects[x])
      ensures MemberListCopied(Value(), enc, concreteObjects[x], dest.concreteObjects[i])
    {
      var members;
      members, enc := TransferMemberList(concreteObjects[x], dest, encIn);
      ghost var d1 := dest.Value();
      i := dest.InsertConcreteObject(members);
      ExtendsGrown(d1, dest.Value());
      GrownTransitive(old(dest.Value()), d1, dest.Value());
    }

    /** The closure arm: a new closure entry in `dest` for the transferred signature. */
    method TransferClosure(x: nat, dest: TypeScope, encIn: map<nat, Group>) returns (i: nat, enc: map<nat, Group>)
      requires dest != this && Valid() && dest.Valid() && x < |closures|
      requires MemoOwned(dest.Value(), encIn)
      modifies dest
      decreases Untransferred(|groupTypes|, encIn), 4
      ensures dest.Valid() && Grown(old(dest.Value()), dest.Value())
      ensures MemoGrows(encIn, enc) && MemoOwned(dest.Value(), enc)
      ensures i == |dest.closures| - 1 && TypeIn(dest.Value(), Closure(i))
      ensures |dest.closures[i].parameters| == |closures[x].parameters|
      ensures dest.closures[i].captures.Some? == closures[x].captures.Some?
      ensures closures[x].captures.Some? ==> dest.closures[i].captures.value.Keys == closures[x].captures.value.Keys
      ensures ClosureCopied(Value(), enc, closures[x], dest.closures[i])
    {
      var c;
      c, enc := TransferClosureGroups(closures[x], dest, encIn);
      ghost var d1 := dest.Value();
      i := dest.InsertClosure(c.parameters, c.returned, c.captures);
      ClosureOwnedExtends(d1, dest.Value(), c);
      ExtendsGrown(d1, dest.Value());
      GrownTransitive(old(dest.Value()), d1, dest.Value());
    }

    /** The groups of a closure transferred: parameters, return group and captures, in that order. */
    method TransferClosureGroups(c: ClosureSig, dest: TypeScope, encIn: map<nat, Group>) returns (r: ClosureSig, enc: map<nat, Group>)
      requires dest != this && Valid() && dest.Valid() && ClosureOwned(Value(), c)
      requires MemoOwned(dest.Value(), encIn)
      modifies dest
      decreases Untransferred(|groupTypes|, encIn), 3
      ensures dest.Valid() && Grown(old(dest.Value()), dest.Value())
      ensures MemoGrows(encIn, enc) && MemoOwned(dest.Value(), enc)
      ensures ClosureOwned(dest.Value(), r) && |r.parameters| == |c.parameters|
      ensures r.captures.Some? == c.captures.Some? && (c.captures.Some? ==> r.captures.value.Keys == c.captures.value.Keys)
      ensures ClosureCopied(Value(), enc, c, r)
    {
      var parameters;
      parameters, enc := TransferGroupList(c.parameters, dest, encIn);
      ghost var d1, e1 := dest.Value(), enc;
      UntransferredShrinks(|groupTypes|, encIn, enc);
      var returned;
      returned, enc := TransferGroupInternal(c.returned, dest, enc);
      MemoGrowsTransitive(encIn, e1, enc);
      GrownTransitive(old(dest.Value()), d1, dest.Value());
      GrownKeepsGroupsOwned(d1, dest.Value(), parameters);
      if c.captures.None? {
        return ClosureSig(parameters, returned, None), enc;
      }
      ghost var d2, e2 := dest.Value(), enc;
      UntransferredShrinks(|groupTypes|, encIn, enc);
      var m;
      m, enc := TransferMembers(c.captures.value, dest, enc);
      MemoGrowsTransitive(encIn, e2, enc);
      GrownTransitive(old(dest.Value()), d2, dest.Value());
      GrownKeepsGroupsOwned(d2, dest.Value(), parameters + [returned]);
      assert forall j :: 0 <= j < |parameters| ==> parameters[j] == (parameters + [returned])[j];
      r := ClosureSig(parameters, returned, Some(m));
    }

    /** The variants arm: a new variants entry in `dest` with the same names and fixedness. */
    method TransferVariants(x: nat, dest: TypeScope, encIn: map<nat, Group>) returns (i: nat, enc: map<nat, Group>)
      requires dest != this && Valid() && dest.Valid() && x < |variants|
      requires MemoOwned(dest.Value(), encIn)
      modifies dest
      decreases Untransferred(|groupTypes|, encIn), 3
      ensures dest.Valid() && Grown(old(dest.Value()), dest.Value())
      ensures MemoGrows(encIn, enc) && MemoOwned(dest.Value(), enc)
      ensures i == |dest.variants| - 1 && TypeIn(dest.Value(), Variants(i))
      ensures dest.variants[i].members.Keys == variants[x].members.Keys && dest.variants[i].fixed == variants[x].fixed
      ensures MembersCopied(Value(), enc, variants[x].members, dest.variants[i].members)
    {
      var members;
      members, enc := TransferMembers(variants[x].members, dest, encIn);
      ghost var d1 := dest.Value();
      i := dest.InsertVariants(members, variants[x].fixed);
      ExtendsGrown(d1, dest.Value());
      GrownTransitive(old(dest.Value()), d1, dest.Value());
    }

    /** The member loops of `transfer_type_internal`: every member's group transferred, under the same name. */
    method TransferMembers(members: map<Name, Group>, dest: TypeScope, encIn: map<nat, Group>)
      returns (out: map<Name, Group>, enc: map<nat, Group>)
      requires dest != this && Valid() && dest.Valid()
      requires forall k :: k in members ==> Owns(Value(), members[k])
      requires MemoOwned(dest.Value(), encIn)
      modifies dest
      decreases Untransferred(|groupTypes|, encIn), 2
      ensures dest.Valid() && Grown(old(dest.Value()), dest.Value())
      ensures MemoGrows(encIn, enc) && MemoOwned(dest.Value(), enc)
      ensures out.Keys == members.Keys && FieldsOwned(dest.Value(), Fields(out, false))
      ensures MembersCopied(Value(), enc, members, out)
    {
      out, enc := map[], encIn;
      var rest := members.Keys;
      while rest != {}
        invariant rest <= members.Keys && out.Keys == members.Keys - rest
        invariant dest.Valid() && Grown(old(dest.Value()), dest.Value())
        invariant MemoGrows(encIn, enc) && MemoOwned(dest.Value(), enc)
        invariant FieldsOwned(dest.Value(), Fields(out, false))
        invariant forall k :: k in out ==> CopyOf(Value(), enc, members[k], out[k])
        decreases rest
      {
        var k :| k in rest;
        ghost var d1, e1 := dest.Value(), enc;
        UntransferredShrinks(|groupTypes|, encIn, enc);
        var g;
        g, enc := TransferGroupInternal(members[k], dest, enc);
        GrownTransitive(old(dest.Value()), d1, dest.Value());
        MemoGrowsTransitive(encIn, e1, enc);
        GrownKeepsFieldsOwned(d1, dest.Value(), Fields(out, false));
        out := out[k := g];
        rest := rest - {k};
      }
    }

    /** The member loop of the concrete-object arm: the same names in the same order, each group transferred. */
    method TransferMemberList(members: seq<Member>, dest: TypeScope, encIn: map<nat, Group>)
      returns (out: seq<Member>, enc: map<nat, Group>)
      requires dest != this && Valid() && dest.Valid() && MembersOwned(Value(), members)
      requires MemoOwned(dest.Value(), encIn)
      modifies dest
      decreases Untransferred(|groupTypes|, encIn), 2
      ensures dest.Valid() && Grown(old(dest.Value()), dest.Value())
      ensures MemoGrows(encIn, enc) && MemoOwned(dest.Value(), enc)
      ensures Names(out) == Names(members) && MembersOwned(dest.Value(), out)
      ensures MemberListCopied(Value(), enc, members, out)
    {
      out, enc := [], encIn;
      for i := 0 to |members|
        invariant dest.Valid() && Grown(old(dest.Value()), dest.Value())
        invariant MemoGrows(encIn, enc) && MemoOwned(dest.Value(), enc)
        invariant MembersOwned(dest.Value(), out)
        invariant |out| == i
        invariant forall j :: 0 <= j < i ==> out[j].name == members[j].name && CopyOf(Value(), enc, members[j].group, out[j].group)
      {
        ghost var d1, e1 := dest.Value(), enc;
        UntransferredShrinks(|groupTypes|, encIn, enc);
        var g;
        g, enc := TransferGroupInternal(members[i].group, dest, enc);
        GrownTransitive(old(dest.Value()), d1, dest.Value());
        MemoGrowsTransitive(encIn, e1, enc);
        GrownKeepsMembersOwned(d1, dest.Value(), out);
        out := out + [Member(members[i].name, g)];
      }
      assert Names(out) == Names(members);
    }

    /** The parameter loop of the closure arm: each parameter group transferred, in order. */
    method TransferGroupList(gs: seq<Group>, dest: TypeScope, encIn: map<nat, Group>)
      returns (out: seq<Group>, enc: map<nat, Group>)
      requires dest != this && Valid() && dest.Valid()
      requires forall j :: 0 <= j < |gs| ==> Owns(Value(), gs[j])
      requires MemoOwned(dest.Value(), encIn)
      modifies dest
      decreases Untransferred(|groupTypes|, encIn), 2
      ensures dest.Valid() && Grown(old(dest.Value()), dest.Value())
      ensures MemoGrows(encIn, enc) && MemoOwned(dest.Value(), enc)
      ensures |out| == |gs| && forall j :: 0 <= j < |out| ==> Owns(dest.Value(), out[j])
      ensures GroupsCopied(Value(), enc, gs, out)
    {
      out, enc := [], encIn;
      for i := 0 to |gs|
        invariant dest.Valid() && Grown(old(dest.Value()), dest.Value())
        invariant MemoGrows(encIn, enc) && MemoOwned(dest.Value(), enc)
        invariant |out| == i && forall j :: 0 <= j < i ==> Owns(dest.Value(), out[j])
        invariant GroupsCopied(Value(), enc, gs[..i], out)
      {
        ghost var d1, e1 := dest.Value(), enc;
        UntransferredShrinks(|groupTypes|, encIn, enc);
        var g;
        g, enc := TransferGroupInternal(gs[i], dest, enc);
        GrownTransitive(old(dest.Value()), d1, dest.Value());
        MemoGrowsTransitive(encIn, e1, enc);
        out := out + [g];
      }
    }
  }

  // ---------------------------------------------------------------------------
  // Transfer between scopes
  // ---------------------------------------------------------------------------

  /**
   * `s'` has everything `s` had: the same id, the old handles, internal
   * groups and table entries unchanged, and possibly more of each.
   */
  predicate Grown(s: Scope, s': Scope)
  {
    s'.id == s.id &&
    |s.groups| <= |s'.groups| && s'.groups[..|s.groups|] == s.groups &&
    |s.groupTypes| <= |s'.groupTypes| && s'.groupTypes[..|s.groupTypes|] == s.groupTypes &&
    |s.arrays| <= |s'.arrays| && s'.arrays[..|s.arrays|] == s.arrays &&
    |s.objects| <= |s'.objects| && s'.objects[..|s.objects|] == s.objects &&
    |s.concreteObjects| <= |s'.concreteObjects| && s'.concreteObjects[..|s.concreteObjects|] == s.concreteObjects &&
    |s.closures| <= |s'.closures| && s'.closures[..|s.closures|] == s.closures &&
    |s.variants| <= |s'.variants| && s'.variants[..|s.variants|] == s.variants
  }

  lemma GrownTransitive(s1: Scope, s2: Scope, s3: Scope)
    requires Grown(s1, s2) && Grown(s2, s3)
    ensures Grown(s1, s3)
  {
    assert s3.groups[..|s1.groups|] == s3.groups[..|s2.groups|][..|s1.groups|];
    assert s3.groupTypes[..|s1.groupTypes|] == s3.groupTypes[..|s2.groupTypes|][..|s1.groupTypes|];
    assert s3.arrays[..|s1.arrays|] == s3.arrays[..|s2.arrays|][..|s1.arrays|];
    assert s3.objects[..|s1.objects|] == s3.objects[..|s2.objects|][..|s1.objects|];
    assert s3.concreteObjects[..|s1.concreteObjects|] == s3.concreteObjects[..|s2.concreteObjects|][..|s1.concreteObjects|];
    assert s3.closures[..|s1.closures|] == s3.closures[..|s2.closures|][..|s1.closures|];
    assert s3.variants[..|s1.variants|] == s3.variants[..|s2.variants|][..|s1.variants|];
  }

  /** New table entries, with the internal groups untouched, grow a scope. */
  lemma ExtendsGrown(s: Scope, s': Scope)
    requires Extends(s, s') && s'.groupTypes == s.groupTypes
    ensures Grown(s, s')
  {
    assert s'.groups[..|s.groups|] == s.groups;
    assert s'.groupTypes[..|s.groupTypes|] == s'.groupTypes;
  }

  lemma GrownKeepsGroupsOwned(s: Scope, s': Scope, gs: seq<Group>)
    requires Grown(s, s') && forall j :: 0 <= j < |gs| ==> Owns(s, gs[j])
    ensures forall j :: 0 <= j < |gs| ==> Owns(s', gs[j])
  {
  }

  lemma GrownKeepsTypeIn(s: Scope, s': Scope, t: Type)
    requires Grown(s, s') && TypeIn(s, t)
    ensures TypeIn(s', t)
  {
  }

  /** Every type of a list is owned by the scope. */
  ghost predicate AllTypeIn(s: Scope, ts: seq<Type>)
  {
    forall j :: 0 <= j < |ts| ==> TypeIn(s, ts[j])
  }

  /** A transferred type joining the list, after the scope grew to hold it. */
  lemma GrownAllTypeInSnoc(s: Scope, s': Scope, ts: seq<Type>, t: Type)
    requires Grown(s, s') && AllTypeIn(s, ts) && TypeIn(s', t)
    ensures AllTypeIn(s', ts + [t])
  {
    forall j | 0 <= j < |ts| + 1 ensures TypeIn(s', (ts + [t])[j]) {
      if j < |ts| {
        GrownKeepsTypeIn(s, s', ts[j]);
      }
    }
  }

  lemma GrownKeepsFieldsOwned(s: Scope, s': Scope, f: Fields)
    requires Grown(s, s') && FieldsOwned(s, f)
    ensures FieldsOwned(s', f)
  {
    assert forall h: Group :: Owns(s, h) ==> Owns(s', h);
  }

  lemma GrownKeepsMembersOwned(s: Scope, s': Scope, ms: seq<Member>)
    requires Grown(s, s') && MembersOwned(s, ms)
    ensures MembersOwned(s', ms)
  {
    assert forall h: Group :: Owns(s, h) ==> Owns(s', h);
  }

  /** Setting the types of an internal group made after `s0` keeps everything `s0` had. */
  lemma SetNewGroupGrown(s0: Scope, s1: Scope, s2: Scope, index: nat, ts: set<Type>)
    requires Grown(s0, s1) && index < |s1.groups| && |s0.groupTypes| <= s1.groups[index] < |s1.groupTypes|
    requires s2 == s1.(groupTypes := s1.groupTypes[s1.groups[index] := ts])
    ensures Grown(s0, s2)
  {
    assert s2.groupTypes[..|s0.groupTypes|] == s1.groupTypes[..|s0.groupTypes|];
  }

  /** Every handle recorded for a transferred internal group belongs to `dest`. */
  predicate MemoOwned(dest: Scope, memo: map<nat, Group>)
  {
    forall k :: k in memo ==> Owns(dest, memo[k])
  }

  /** `h` is the copy that `memo` records for the group `g` of `s`. */
  predicate CopyOf(s: Scope, memo: map<nat, Group>, g: Group, h: Group)
  {
    g.index < |s.groups| && s.groups[g.index] in memo && memo[s.groups[g.index]] == h
  }

  /** `out` has the names of `members`, each bound to the recorded copy of its group. */
  predicate MembersCopied(s: Scope, memo: map<nat, Group>, members: map<Name, Group>, out: map<Name, Group>)
  {
    out.Keys == members.Keys && forall k :: k in members ==> CopyOf(s, memo, members[k], out[k])
  }

  /** `out` has the names of `members` in the same order, each with the recorded copy of its group. */
  predicate MemberListCopied(s: Scope, memo: map<nat, Group>, members: seq<Member>, out: seq<Member>)
  {
    |out| == |members| &&
    forall j :: 0 <= j < |out| ==> out[j].name == members[j].name && CopyOf(s, memo, members[j].group, out[j].group)
  }

  /** `out[j]` is the recorded copy of `gs[j]`, for every `j`. */
  predicate GroupsCopied(s: Scope, memo: map<nat, Group>, gs: seq<Group>, out: seq<Group>)
  {
    |out| == |gs| && forall j :: 0 <= j < |out| ==> CopyOf(s, memo, gs[j], out[j])
  }

  /** Every group of the signature `r` is the recorded copy of the matching group of `c`. */
  predicate ClosureCopied(s: Scope, memo: map<nat, Group>, c: ClosureSig, r: ClosureSig)
  {
    GroupsCopied(s, memo, c.parameters, r.parameters) &&
    CopyOf(s, memo, c.returned, r.returned) &&
    r.captures.Some? == c.captures.Some? &&
    (c.captures.Some? ==> MembersCopied(s, memo, c.captures.value, r.captures.value))
  }

  /**
   * `r`, a type of `d`, is the transfer of `t`, a type of `s`: a flat type
   * unchanged, any other one an entry of the same kind whose groups are the
   * recorded copies of the groups of `t`'s entry.
   */
  predicate TypeCopied(s: Scope, d: Scope, memo: map<nat, Group>, t: Type, r: Type)
  {
    match t
    case Array(x) =>
      r.Array? && x < |s.arrays| && r.id < |d.arrays| && CopyOf(s, memo, s.arrays[x], d.arrays[r.id])
    case Object(x) =>
      r.Object? && x < |s.objects| && r.id < |d.objects| && d.objects[r.id].fixed == s.objects[x].fixed &&
      MembersCopied(s, memo, s.objects[x].members, d.objects[r.id].members)
    case ConcreteObject(x) =>
      r.ConcreteObject? && x < |s.concreteObjects| && r.id < |d.concreteObjects| &&
      MemberListCopied(s, memo, s.concreteObjects[x], d.concreteObjects[r.id])
    case Closure(x) =>
      r.Closure? && x < |s.closures| && r.id < |d.closures| && ClosureCopied(s, memo, s.closures[x], d.closures[r.id])
    case Variants(x) =>
      r.Variants? && x < |s.variants| && r.id < |d.variants| && d.variants[r.id].fixed == s.variants[x].fixed &&
      MembersCopied(s, memo, s.variants[x].members, d.variants[r.id].members)
    case _ => r == t
  }

  /** `out[j]` is the transfer of `ts[j]`, for every `j`. */
  predicate TypesCopied(s: Scope, d: Scope, memo: map<nat, Group>, ts: seq<Type>, out: seq<Type>)
  {
    |out| == |ts| && forall j :: 0 <= j < |out| ==> TypeCopied(s, d, memo, ts[j], out[j])
  }

  /**
   * `dst` is the transfer of `src`: the types of `src`, listed in some order,
   * pair up one by one with a listing of the types of `dst`.
   */
  ghost predicate SetCopied(s: Scope, d: Scope, memo: map<nat, Group>, src: set<Type>, dst: set<Type>)
  {
    exists ts: seq<Type>, out: seq<Type> ::
      TypesCopied(s, d, memo, ts, out) && (set t | t in ts) == src && (set r | r in out) == dst
  }

  /** The pairs of the transfer loop stay copies in a scope with the same side tables. */
  lemma TypesCopiedTables(s: Scope, d: Scope, d': Scope, m: map<nat, Group>, ts: seq<Type>, out: seq<Type>)
    requires TypesCopied(s, d, m, ts, out)
    requires d'.arrays == d.arrays && d'.objects == d.objects && d'.concreteObjects == d.concreteObjects
    requires d'.closures == d.closures && d'.variants == d.variants
    ensures TypesCopied(s, d', m, ts, out)
  {
    forall j | 0 <= j < |out| ensures TypeCopied(s, d', m, ts[j], out[j]) {
      assert TypeCopied(s, d, m, ts[j], out[j]);
    }
  }

  lemma SetCopiedTables(s: Scope, d: Scope, d': Scope, m: map<nat, Group>, src: set<Type>, dst: set<Type>)
    requires SetCopied(s, d, m, src, dst)
    requires d'.arrays == d.arrays && d'.objects == d.objects && d'.concreteObjects == d.concreteObjects
    requires d'.closures == d.closures && d'.variants == d.variants
    ensures SetCopied(s, d', m, src, dst)
  {
    var ts, out :| TypesCopied(s, d, m, ts, out) && (set t | t in ts) == src && (set r | r in out) == dst;
    TypesCopiedTables(s, d, d', m, ts, out);
  }

  lemma MemoOwnedSameHandles(d: Scope, d': Scope, m: map<nat, Group>)
    requires MemoOwned(d, m) && d'.id == d.id && d'.groups == d.groups
    ensures MemoOwned(d', m)
  {
  }

  lemma KindsOfElements(ts: seq<Type>)
    ensures Kinds(set t | t in ts) == KindsOf(ts)
  {
    forall k | k in KindsOf(ts) ensures k in Kinds(set t | t in ts) {
      var j :| 0 <= j < |ts| && k == Kind(ts[j]);
      assert ts[j] in (set t | t in ts);
    }
  }

  /** A copy stays a copy when `d` and the record only grow. */
  lemma TypeCopiedGrows(s: Scope, d: Scope, d': Scope, m: map<nat, Group>, m': map<nat, Group>, t: Type, r: Type)
    requires Grown(d, d') && MemoGrows(m, m') && TypeCopied(s, d, m, t, r)
    ensures TypeCopied(s, d', m', t, r)
  {
    match t
    case Array(x) => assert d'.arrays[r.id] == d'.arrays[..|d.arrays|][r.id];
    case Object(x) => assert d'.objects[r.id] == d'.objects[..|d.objects|][r.id];
    case ConcreteObject(x) => assert d'.concreteObjects[r.id] == d'.concreteObjects[..|d.concreteObjects|][r.id];
    case Closure(x) => assert d'.closures[r.id] == d'.closures[..|d.closures|][r.id];
    case Variants(x) => assert d'.variants[r.id] == d'.variants[..|d.variants|][r.id];
    case _ =>
  }

  /** One step of the transfer loop keeps every earlier pair a copy and adds the new one. */
  lemma TypesCopiedSnoc(s: Scope, d: Scope, d': Scope, m: map<nat, Group>, m': map<nat, Group>,
                        ts: seq<Type>, out: seq<Type>, t: Type, r: Type)
    requires Grown(d, d') && MemoGrows(m, m') && TypesCopied(s, d, m, ts, out) && TypeCopied(s, d', m', t, r)
    ensures TypesCopied(s, d', m', ts + [t], out + [r])
  {
    forall j | 0 <= j < |out| ensures TypeCopied(s, d', m', ts[j], out[j]) {
      TypeCopiedGrows(s, d, d', m, m', ts[j], out[j]);
    }
  }

  /** The record of transferred groups only gains entries. */
  predicate MemoGrows(memo: map<nat, Group>, memo': map<nat, Group>)
  {
    forall k :: k in memo ==> k in memo' && memo'[k] == memo[k]
  }

  lemma MemoGrowsTransitive(m1: map<nat, Group>, m2: map<nat, Group>, m3: map<nat, Group>)
    requires MemoGrows(m1, m2) && MemoGrows(m2, m3)
    ensures MemoGrows(m1, m3)
  {
  }

  /** The internal groups of the source not yet transferred: the transfer's measure. */
  ghost function Untransferred(n: nat, memo: map<nat, Group>): set<nat>
  {
    set i | 0 <= i < n && i !in memo
  }

  lemma UntransferredShrinks(n: nat, memo: map<nat, Group>, memo': map<nat, Group>)
    requires MemoGrows(memo, memo')
    ensures Untransferred(n, memo') <= Untransferred(n, memo)
  {
  }

  lemma UntransferredAdd(n: nat, memo: map<nat, Group>, i: nat, g: Group)
    requires i < n && i !in memo
    ensures Untransferred(n, memo[i := g]) < Untransferred(n, memo)
  {
    assert i in Untransferred(n, memo) && i !in Untransferred(n, memo[i := g]);
  }

  /** One representative per kind of type: two types have the same kind exactly when their representatives agree. */
  function Kind(t: Type): (k: Type)
    ensures SameKind(t, k) && Flat(k) == Flat(t)
  {
    match t
    case Array(_) => Array(0)
    case Object(_) => Object(0)
    case ConcreteObject(_) => ConcreteObject(0)
    case Closure(_) => Closure(0)
    case Variants(_) => Variants(0)
    case _ => t
  }

  lemma KindMeansSameKind(a: Type, b: Type)
    ensures Kind(a) == Kind(b) <==> SameKind(a, b)
  {
  }

  /** The kinds of type a group admits. */
  function Kinds(ts: set<Type>): set<Type>
  {
    set t | t in ts :: Kind(t)
  }

  function KindsOf(ts: seq<Type>): set<Type>
  {
    set j | 0 <= j < |ts| :: Kind(ts[j])
  }

  lemma ElementsSnoc(ts: seq<Type>, t: Type)
    ensures (set u | u in ts + [t]) == (set u | u in ts) + {t}
  {
  }

  /** Transferred types have the kinds of the types they came from, and flat ones are unchanged. */
  lemma CopiedKinds(s: Scope, d: Scope, m: map<nat, Group>, ts: seq<Type>, out: seq<Type>)
    requires TypesCopied(s, d, m, ts, out)
    ensures KindsOf(out) == Kinds(set t | t in ts)
    ensures FlatTypes(set t | t in ts) ==> out == ts
  {
    forall j | 0 <= j < |out| ensures Kind(out[j]) == Kind(ts[j]) && (Flat(ts[j]) ==> out[j] == ts[j]) {
      assert TypeCopied(s, d, m, ts[j], out[j]);
    }
    forall k | k in KindsOf(out) ensures k in Kinds(set t | t in ts) {
      var j :| 0 <= j < |out| && k == Kind(out[j]);
      assert ts[j] in (set t | t in ts);
    }
    forall k | k in Kinds(set t | t in ts) ensures k in KindsOf(out) {
      var u :| u in (set t | t in ts) && k == Kind(u);
      var j :| 0 <= j < |ts| && ts[j] == u;
      assert k == Kind(out[j]);
    }
    if FlatTypes(set t | t in ts) {
      forall j | 0 <= j < |out| ensures out[j] == ts[j] {
        assert ts[j] in (set t | t in ts);
      }
    }
  }

  /** The names of a concrete object's members, in order. */
  function Names(ms: seq<Member>): (r: seq<Name>)
    ensures |r| == |ms| && forall j :: 0 <= j < |ms| ==> r[j] == ms[j].name
  {
    if ms == [] then [] else [ms[0].name] + Names(ms[1..])
  }
}
