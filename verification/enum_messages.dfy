/** The tables the EnumMessage derive builds from an enum's variants: the
    arms of `get_message`, of `get_detailed_message` and of
    `get_serializations`, each variant's contribution in declaration order,
    together with reference definitions of what each lookup should return. */
module EnumMessages {
  import opened Wrappers
  import opened EnumAst
  import opened MatchArms

  /** An arm of `get_message` or `get_detailed_message`. */
  type MessageArm = Arm<Option<string>>

  /** An arm of `get_serializations`. */
  type SerializationArm = Arm<seq<string>>

  /** Which of the two message methods a table belongs to. */
  datatype MessageTable = SimpleTable | DetailedTable

  /** Reference definition: what the generated method should return for a
      value of variant `v`. A disabled variant has no message; the detailed
      message falls back to the simple one. */
  function Intended(table: MessageTable, v: Variant): Option<string> {
    if v.disabled then None
    else
      match table
      case SimpleTable => v.message
      case DetailedTable => if v.detailed.Some? then v.detailed else v.message
  }

  /** Every variant has an intended message in the given table. */
  predicate Covered(table: MessageTable, vs: seq<Variant>) {
    forall i :: 0 <= i < |vs| ==> Intended(table, vs[i]).Some?
  }

  /** The names `get_serializations` returns for variant `v`: its `serialize`
      values when there are any, otherwise its identifier alone. */
  function SerializationNames(v: Variant): (names: seq<string>)
    ensures |names| >= 1
    ensures |v.serialize| > 0 ==> names == v.serialize
    ensures |v.serialize| == 0 ==> names == [v.ident]
  {
    var fromAttrs := v.serialize;
    if |fromAttrs| == 0 then [v.ident] else fromAttrs
  }

  /** The serialization arm of variant `v`; it is emitted whether or not the
      variant is disabled. */
  function SerializationArmOf(v: Variant): (arm: SerializationArm)
    ensures arm.Case? && Matches(arm, v.ident, v.shape)
    ensures |arm.payload| >= 1
  {
    Case(v.ident, Suffix(v.shape), SerializationNames(v))
  }

  /** The arms variant `v` pushes onto the given message table: nothing when
      disabled; for the simple table its message; for the detailed table its
      message when it has no detailed message, then its detailed message. */
  function ArmsOf(table: MessageTable, v: Variant): (arms: seq<MessageArm>)
    ensures Intended(table, v).None? ==> arms == []
    ensures Intended(table, v).Some? ==> arms == [Case(v.ident, Suffix(v.shape), Intended(table, v))]
  {
    if v.disabled then []
    else
      var params := Suffix(v.shape);
      var simple := if v.message.Some? then [Case(v.ident, params, Some(v.message.value))] else [];
      match table
      case SimpleTable => simple
      case DetailedTable =>
        (if v.detailed.None? then simple else [])
        + (if v.detailed.Some? then [Case(v.ident, params, Some(v.detailed.value))] else [])
  }

  /** The variant arms of a message table, before the fallback rule: each
      variant's contribution, in declaration order. Each variant adds at most
      one arm and never a wildcard, so there are never more arms than
      variants. */
  function MessageArms(table: MessageTable, vs: seq<Variant>): (arms: seq<MessageArm>)
    ensures |arms| <= |vs|
    ensures forall k :: 0 <= k < |arms| ==> arms[k].Case?
    decreases |vs|
  {
    if |vs| == 0 then []
    else MessageArms(table, vs[..|vs| - 1]) + ArmsOf(table, vs[|vs| - 1])
  }

  /** `arm` is the message arm of some variant of `vs`: that variant's
      identifier, pattern suffix and intended message. */
  predicate ArmOfSomeVariant(table: MessageTable, vs: seq<Variant>, arm: MessageArm) {
    exists i :: 0 <= i < |vs| && Intended(table, vs[i]).Some?
      && arm == Case(vs[i].ident, Suffix(vs[i].shape), Intended(table, vs[i]))
  }

  /** The arms of `get_serializations`: exactly one per variant, in
      declaration order. */
  function SerializationArms(vs: seq<Variant>): (arms: seq<SerializationArm>)
    ensures |arms| == |vs|
    ensures forall i :: 0 <= i < |vs| ==> arms[i] == SerializationArmOf(vs[i])
    decreases |vs|
  {
    if |vs| == 0 then []
    else SerializationArms(vs[..|vs| - 1]) + [SerializationArmOf(vs[|vs| - 1])]
  }

  /** The fallback rule: a `_ => None` arm closes the table when it has fewer
      arms than the enum has variants. */
  function WithFallback(arms: seq<MessageArm>, variantCount: nat): (r: seq<MessageArm>)
    ensures |arms| <= |r| && r[..|arms|] == arms
    ensures |r| > |arms| <==> |arms| < variantCount
    ensures |r| > |arms| ==> |r| == |arms| + 1 && r[|arms|] == Fallback(None)
    ensures |arms| <= variantCount ==> |r| <= variantCount
  {
    if |arms| < variantCount then arms + [Fallback(None)] else arms
  }

  /** Both message methods of `g` return each variant's intended message. */
  predicate MessagesIntended(g: Generated, vs: seq<Variant>) {
    forall i :: 0 <= i < |vs| ==>
      && Eval(g.messageArms, vs[i].ident, vs[i].shape) == Some(Intended(SimpleTable, vs[i]))
      && Eval(g.detailedArms, vs[i].ident, vs[i].shape) == Some(Intended(DetailedTable, vs[i]))
  }

  /** The complete arm list of one message method. */
  function MessageTableArms(table: MessageTable, vs: seq<Variant>): seq<MessageArm> {
    WithFallback(MessageArms(table, vs), |vs|)
  }

  /** The generated `EnumMessage` implementation, abstracted to its three
      arm lists. */
  datatype Generated = Generated(
    name: string,
    messageArms: seq<MessageArm>,
    detailedArms: seq<MessageArm>,
    serializationArms: seq<SerializationArm>)
}
