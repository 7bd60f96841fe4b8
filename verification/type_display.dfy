/**
 * Rendering of types in Gera's error messages (`display_types` in
 * compiler/src/frontend/type_checking.rs): the letters that name type groups
 * used more than once, and the rendering of a group's possible types.
 */
module TypeDisplay {
  import opened Wrappers

  const LetterCount := 26

  /** The `i`-th letter of `LETTERS`, `i` in 0..25. */
  function Letter(i: nat): (c: char)
    requires i < LetterCount
    ensures 'A' <= c <= 'Z'
  {
    (('A' as int) + i) as char
  }

  predicate IsLetter(c: char)
  {
    'A' <= c <= 'Z'
  }

  /** The name `choose_letter` gives to the `i`-th group: base-26 digits, least significant first. */
  function Letters(i: nat): (s: string)
    ensures |s| >= 1 && forall k :: 0 <= k < |s| ==> IsLetter(s[k])
    decreases i
  {
    [Letter(i % LetterCount)] + if i / LetterCount == 0 then [] else Letters(i / LetterCount)
  }

  /** Reads a name back: the value of its base-26 digits, least significant first. */
  function LetterValue(s: string): nat
  {
    if s == [] then 0
    else
      var d := s[0] as int - 'A' as int;
      (if 0 <= d then d else 0) + LetterCount * LetterValue(s[1..])
  }

  /** Every name reads back as the index it was chosen for. */
  lemma {:induction false} LettersRoundTrip(i: nat)
    ensures LetterValue(Letters(i)) == i
    decreases i
  {
    var s := Letters(i);
    assert s[1..] == if i / LetterCount == 0 then [] else Letters(i / LetterCount);
    if i / LetterCount != 0 {
      LettersRoundTrip(i / LetterCount);
    }
  }

  /** Different groups get different names. */
  lemma LettersInjective(i: nat, j: nat)
    requires Letters(i) == Letters(j)
    ensures i == j
  {
    LettersRoundTrip(i);
    LettersRoundTrip(j);
  }

  /** A single letter for the first 26 groups, several letters after that. */
  lemma LettersSingle(i: nat)
    ensures |Letters(i)| == 1 <==> i < LetterCount
    ensures i < LetterCount ==> Letters(i) == [Letter(i)]
  {
  }

  /** `choose_letter`: emit the lowest digit, divide, stop once nothing is left. */
  method ChooseLetter(i: nat) returns (r: string)
    ensures r == Letters(i)
  {
    var rest: nat := i;
    r := "";
    while true
      invariant r + Letters(rest) == Letters(i)
      decreases rest
    {
      var c := rest % LetterCount;
      r := r + [Letter(c)];
      rest := rest / LetterCount;
      if rest == 0 {
        return;
      }
    }
  }

  /** The alternatives of a group, separated by " | ". */
  function Join(ts: seq<string>): string
  {
    if |ts| == 0 then ""
    else if |ts| == 1 then ts[0]
    else ts[0] + " | " + Join(ts[1..])
  }

  /** Joining grows at the back: what the rendering loop appends at each step. */
  lemma {:induction false} JoinSnoc(ts: seq<string>, t: string)
    requires ts != []
    ensures Join(ts + [t]) == Join(ts) + " | " + t
    decreases |ts|
  {
    if |ts| == 1 {
      assert (ts + [t])[1..] == [t];
    } else {
      assert (ts + [t])[1..] == ts[1..] + [t];
      JoinSnoc(ts[1..], t);
    }
  }

  /**
   * The rendering of a group's possible types (each given already rendered):
   * an unconstrained group is "any", a single type stands alone, several are
   * parenthesised and separated by " | ", and an empty list renders as "".
   */
  function GroupText(types: Option<seq<string>>): string
  {
    match types
    case None => "any"
    case Some(ts) => if |ts| > 1 then "(" + Join(ts) + ")" else Join(ts)
  }

  /** `display_group_types`: the loop that builds `GroupText`. */
  method DisplayGroupTypes(types: Option<seq<string>>) returns (r: string)
    ensures r == GroupText(types)
    ensures types.None? ==> r == "any"
    ensures types.Some? && |types.value| == 1 ==> r == types.value[0]
    ensures types.Some? && |types.value| == 0 ==> r == ""
    ensures types.Some? && |types.value| > 1 ==> r[0] == '(' && r[|r| - 1] == ')'
  {
    if types.None? {
      return "any";
    }
    var ts := types.value;
    r := "";
    if |ts| > 1 {
      r := r + "(";
    }
    var prefix := r;
    for i := 0 to |ts|
      invariant r == prefix + Join(ts[..i])
    {
      if i > 0 {
        r := r + " | ";
        JoinSnoc(ts[..i], ts[i]);
      }
      assert ts[..i + 1] == ts[..i] + [ts[i]];
      r := r + ts[i];
    }
    assert ts[..|ts|] == ts;
    if |ts| > 1 {
      r := r + ")";
    }
  }

  /** The types that render without reference to any group. */
  datatype Primitive = Unit | Boolean | Integer | Float | String | Panic

  /** `display_type` on the primitive types: each has its own lower-case keyword. */
  function DisplayPrimitive(t: Primitive): (s: string)
    ensures |s| > 0 && forall k :: 0 <= k < |s| ==> 'a' <= s[k] <= 'z'
  {
    match t
    case Unit => "unit"
    case Boolean => "boolean"
    case Integer => "integer"
    case Float => "float"
    case String => "string"
    case Panic => "panic"
  }

  /** No two primitive types render alike, and none renders as "any". */
  lemma DisplayPrimitiveInjective(a: Primitive, b: Primitive)
    ensures DisplayPrimitive(a) == DisplayPrimitive(b) <==> a == b
    ensures DisplayPrimitive(a) != "any"
  {
  }
}
