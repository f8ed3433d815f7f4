/** The EnumMessage derive itself: one pass over the enum's variants that
    pushes arms onto the three tables, then closes the message tables with
    the fallback rule. */
module EnumMessageDerive {
  import opened Wrappers
  import opened EnumAst
  import opened MatchArms
  import opened EnumMessages
  import opened EnumMessageProofs

  /** The error raised for a type that is not an enum. */
  const NotAnEnum: string := "EnumMessage only works on Enums"

  /** Extending the processed prefix by one variant appends that variant's
      arms to each table. */
  lemma PrefixStep(vs: seq<Variant>, n: nat)
    requires n < |vs|
    ensures MessageArms(SimpleTable, vs[..n + 1]) == MessageArms(SimpleTable, vs[..n]) + ArmsOf(SimpleTable, vs[n])
    ensures MessageArms(DetailedTable, vs[..n + 1]) == MessageArms(DetailedTable, vs[..n]) + ArmsOf(DetailedTable, vs[n])
    ensures SerializationArms(vs[..n + 1]) == SerializationArms(vs[..n]) + [SerializationArmOf(vs[n])]
  {
    assert vs[..n + 1][..n] == vs[..n];
  }

  /** One iteration of the derive's loop: pushes variant `variant`'s
      serialization arm, then, unless it is disabled, its message arms. */
  method PushVariantArms(
    variant: Variant,
    arms: seq<MessageArm>,
    detailedArms: seq<MessageArm>,
    serializations: seq<SerializationArm>)
    returns (arms': seq<MessageArm>, detailedArms': seq<MessageArm>, serializations': seq<SerializationArm>)
    ensures serializations' == serializations + [SerializationArmOf(variant)]
    ensures arms' == arms + ArmsOf(SimpleTable, variant)
    ensures detailedArms' == detailedArms + ArmsOf(DetailedTable, variant)
  {
    arms', detailedArms', serializations' := arms, detailedArms, serializations;
    var messages := variant.message;
    var detailedMessages := variant.detailed;
    var ident := variant.ident;
    var params := Suffix(variant.shape);

    // The serializations cannot be disabled.
    var serializationVariants := variant.serialize;
    if |serializationVariants| == 0 {
      serializationVariants := [ident];
    }
    serializations' := serializations' + [Case(ident, params, serializationVariants)];

    // The messages can.
    if variant.disabled {
      return;
    }

    if messages.Some? {
      var simpleArm := Case(ident, params, Some(messages.value));
      arms' := arms' + [simpleArm];
      if detailedMessages.None? {
        detailedArms' := detailedArms' + [simpleArm];
      }
    }

    if detailedMessages.Some? {
      detailedArms' := detailedArms' + [Case(ident, params, Some(detailedMessages.value))];
    }
  }

  /** The implementation generated for enum `name` with variants `vs`: its
      message methods have at most one arm per variant and its serialization
      method exactly one. */
  function Generate(name: string, vs: seq<Variant>): (g: Generated)
    ensures g.name == name
    ensures |g.messageArms| <= |vs| && |g.detailedArms| <= |vs|
    ensures |g.serializationArms| == |vs|
  {
    Generated(name, MessageTableArms(SimpleTable, vs), MessageTableArms(DetailedTable, vs), SerializationArms(vs))
  }

  /** The generated serialization method has variant `i`'s arm at position
      `i`, and all three generated methods match every variant. */
  lemma GeneratedTablesCover(name: string, vs: seq<Variant>)
    ensures forall i :: 0 <= i < |vs| ==> Generate(name, vs).serializationArms[i] == SerializationArmOf(vs[i])
    ensures Exhaustive(Generate(name, vs).messageArms, vs)
    ensures Exhaustive(Generate(name, vs).detailedArms, vs)
    ensures Exhaustive(Generate(name, vs).serializationArms, vs)
  {
    MessageTableExhaustive(SimpleTable, vs);
    MessageTableExhaustive(DetailedTable, vs);
    SerializationTableExhaustive(vs);
  }

  /** With distinct identifiers, both generated message methods return each
      variant's intended message. */
  lemma GeneratedLookup(name: string, vs: seq<Variant>)
    requires DistinctIdents(vs)
    ensures MessagesIntended(Generate(name, vs), vs)
  {
    forall i | 0 <= i < |vs|
      ensures Eval(MessageTableArms(SimpleTable, vs), vs[i].ident, vs[i].shape) == Some(Intended(SimpleTable, vs[i]))
      ensures Eval(MessageTableArms(DetailedTable, vs), vs[i].ident, vs[i].shape) == Some(Intended(DetailedTable, vs[i]))
    {
      MessageLookup(SimpleTable, vs, i);
      MessageLookup(DetailedTable, vs, i);
    }
  }

  /** The derive's loop over the variants, in declaration order: every
      variant's serialization arm, and the message arms of every variant
      that is not disabled. */
  method CollectArms(variants: seq<Variant>)
    returns (arms: seq<MessageArm>, detailedArms: seq<MessageArm>, serializations: seq<SerializationArm>)
    ensures arms == MessageArms(SimpleTable, variants)
    ensures detailedArms == MessageArms(DetailedTable, variants)
    ensures serializations == SerializationArms(variants)
  {
    arms, detailedArms, serializations := [], [], [];

    var n := 0;
    while n < |variants|
      invariant n <= |variants|
      invariant arms == MessageArms(SimpleTable, variants[..n])
      invariant detailedArms == MessageArms(DetailedTable, variants[..n])
      invariant serializations == SerializationArms(variants[..n])
    {
      PrefixStep(variants, n);
      arms, detailedArms, serializations := PushVariantArms(variants[n], arms, detailedArms, serializations);
      n := n + 1;
    }
    assert variants[..n] == variants;
  }

  /** Builds the `EnumMessage` implementation for `ast`. A struct is rejected.
      For an enum, the result is `Generate` of its variants (see
      `GeneratedTablesCover`), and when no two variants share an identifier
      both message methods return exactly each variant's intended message. */
  method EnumMessageInner(ast: DeriveInput) returns (r: Result<Generated, string>)
    ensures r.Failure? <==> ast.body.StructBody?
    ensures r.Failure? ==> r.error == NotAnEnum
    ensures r.Success? ==> r.value == Generate(ast.ident, ast.body.variants)
    ensures r.Success? && DistinctIdents(ast.body.variants) ==> MessagesIntended(r.value, ast.body.variants)
  {
    var variants;
    match ast.body {
      case EnumBody(vs) => variants := vs;
      case StructBody(_) => return Failure(NotAnEnum);
    }

    var arms, detailedArms, serializations := CollectArms(variants);

    if |arms| < |variants| {
      arms := arms + [Fallback(None)];
    }
    if |detailedArms| < |variants| {
      detailedArms := detailedArms + [Fallback(None)];
    }

    r := Success(Generated(ast.ident, arms, detailedArms, serializations));
    assert r.value == Generate(ast.ident, variants);
    if DistinctIdents(variants) {
      GeneratedLookup(ast.ident, variants);
    }
  }
}
