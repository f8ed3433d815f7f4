/** Generated `match self { ... }` expressions, modelled as lists of arms,
    and their meaning: the first arm whose pattern matches is taken. */
module MatchArms {
  import opened Wrappers
  import opened EnumAst

  /** One arm: either the variant pattern `&Name::ident suffix => payload` or
      the wildcard `_ => payload`. */
  datatype Arm<P> = Case(ident: string, suffix: string, payload: P) | Fallback(payload: P)

  /** Whether the arm's pattern matches a value of variant `ident` whose data
      has shape `shape`. */
  predicate Matches<P>(arm: Arm<P>, ident: string, shape: Shape) {
    match arm
    case Case(id, sfx, _) => id == ident && sfx == Suffix(shape)
    case Fallback(_) => true
  }

  /** The index of the first arm that matches, or `None` when no arm does
      (a `match` the Rust compiler would reject as non-exhaustive). */
  function FirstMatch<P>(arms: seq<Arm<P>>, ident: string, shape: Shape): (k: Option<nat>)
    ensures k.Some? ==> k.value < |arms| && Matches(arms[k.value], ident, shape)
    ensures k.Some? ==> forall j :: 0 <= j < k.value ==> !Matches(arms[j], ident, shape)
    ensures k.None? ==> forall j :: 0 <= j < |arms| ==> !Matches(arms[j], ident, shape)
  {
    if |arms| == 0 then None
    else if Matches(arms[0], ident, shape) then Some(0)
    else
      match FirstMatch(arms[1..], ident, shape)
      case None => None
      case Some(k) => Some(k + 1)
  }

  /** Evaluating the match on a value of variant `ident`: the payload of the
      first matching arm, or `None` when no arm matches. */
  function Eval<P>(arms: seq<Arm<P>>, ident: string, shape: Shape): (r: Option<P>)
    ensures r.None? <==> forall j :: 0 <= j < |arms| ==> !Matches(arms[j], ident, shape)
    ensures r.Some? ==> exists j :: 0 <= j < |arms| && Matches(arms[j], ident, shape) && r.value == arms[j].payload
  {
    match FirstMatch(arms, ident, shape)
    case None => None
    case Some(k) => Some(arms[k].payload)
  }

  /** Every variant of `vs` is matched by some arm. */
  predicate Exhaustive<P>(arms: seq<Arm<P>>, vs: seq<Variant>) {
    forall i :: 0 <= i < |vs| ==> FirstMatch(arms, vs[i].ident, vs[i].shape).Some?
  }

  /** The first match is the unique matching index with no match before it. */
  lemma FirstMatchUnique<P>(arms: seq<Arm<P>>, ident: string, shape: Shape, k: nat)
    requires k < |arms| && Matches(arms[k], ident, shape)
    requires forall j :: 0 <= j < k ==> !Matches(arms[j], ident, shape)
    ensures FirstMatch(arms, ident, shape) == Some(k)
  {
  }

  /** Arms in front that all miss do not change which later arm is taken. */
  lemma FirstMatchAppendMissed<P>(a: seq<Arm<P>>, b: seq<Arm<P>>, ident: string, shape: Shape)
    requires forall j :: 0 <= j < |a| ==> !Matches(a[j], ident, shape)
    ensures FirstMatch(b, ident, shape).None? ==> FirstMatch(a + b, ident, shape).None?
    ensures FirstMatch(b, ident, shape).Some? ==>
              FirstMatch(a + b, ident, shape) == Some(|a| + FirstMatch(b, ident, shape).value)
    ensures Eval(a + b, ident, shape) == Eval(b, ident, shape)
  {
    var ab := a + b;
    match FirstMatch(b, ident, shape)
    case None =>
      forall j | 0 <= j < |ab|
        ensures !Matches(ab[j], ident, shape)
      {
        if j >= |a| {
          assert ab[j] == b[j - |a|];
        }
      }
    case Some(k) =>
      forall j | 0 <= j < |a| + k
        ensures !Matches(ab[j], ident, shape)
      {
        if j >= |a| {
          assert ab[j] == b[j - |a|];
        }
      }
      assert ab[|a| + k] == b[k];
      FirstMatchUnique(ab, ident, shape, |a| + k);
  }

  /** Once an arm in front matches, arms appended behind it are never taken. */
  lemma FirstMatchAppendHit<P>(a: seq<Arm<P>>, b: seq<Arm<P>>, ident: string, shape: Shape)
    requires FirstMatch(a, ident, shape).Some?
    ensures FirstMatch(a + b, ident, shape) == FirstMatch(a, ident, shape)
    ensures Eval(a + b, ident, shape) == Eval(a, ident, shape)
  {
    var k := FirstMatch(a, ident, shape).value;
    var ab := a + b;
    assert ab[k] == a[k];
    forall j | 0 <= j < k
      ensures !Matches(ab[j], ident, shape)
    {
      assert ab[j] == a[j];
    }
    FirstMatchUnique(ab, ident, shape, k);
  }
}
