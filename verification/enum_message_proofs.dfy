/** What the generated match expressions compute: each lookup returns the
    intended per-variant value, every match is exhaustive, no arm is
    unreachable, and the fallback arm appears exactly when needed. */
module EnumMessageProofs {
  import opened Wrappers
  import opened EnumAst
  import opened MatchArms
  import opened EnumMessages

  /** The variant arms of a message table split along the variant list. */
  lemma MessageArmsSplit(table: MessageTable, vs: seq<Variant>)
    requires |vs| > 0
    ensures MessageArms(table, vs) == MessageArms(table, vs[..|vs| - 1]) + ArmsOf(table, vs[|vs| - 1])
  {
  }

  /** Every arm of a message table is the arm of some variant that has an
      intended message, carrying that variant's identifier, suffix and
      message. */
  lemma {:induction false} MessageArmsBelongToVariants(table: MessageTable, vs: seq<Variant>)
    ensures forall k :: 0 <= k < |MessageArms(table, vs)| ==> ArmOfSomeVariant(table, vs, MessageArms(table, vs)[k])
    decreases |vs|
  {
    if |vs| > 0 {
      var init := vs[..|vs| - 1];
      var last := vs[|vs| - 1];
      var a := MessageArms(table, init);
      var arms := MessageArms(table, vs);
      MessageArmsSplit(table, vs);
      MessageArmsBelongToVariants(table, init);
      forall k | 0 <= k < |arms|
        ensures ArmOfSomeVariant(table, vs, arms[k])
      {
        if k < |a| {
          assert ArmOfSomeVariant(table, init, a[k]);
          var i :| 0 <= i < |init| && Intended(table, init[i]).Some?
            && a[k] == Case(init[i].ident, Suffix(init[i].shape), Intended(table, init[i]));
          assert init[i] == vs[i] && arms[k] == a[k];
        } else {
          assert arms[k] == ArmsOf(table, last)[k - |a|];
          assert vs[|vs| - 1] == last;
        }
      }
    }
  }

  /** A prefix of an enum with distinct identifiers has distinct identifiers. */
  lemma DistinctInit(vs: seq<Variant>)
    requires |vs| > 0 && DistinctIdents(vs)
    ensures DistinctIdents(vs[..|vs| - 1])
    ensures forall i :: 0 <= i < |vs| - 1 ==> vs[..|vs| - 1][i] == vs[i]
  {
  }

  /** No variant arm of a table matches an identifier that names none of the
      table's variants. */
  lemma ArmsOfOthersMiss(table: MessageTable, vs: seq<Variant>, ident: string, shape: Shape)
    requires forall j :: 0 <= j < |vs| ==> vs[j].ident != ident
    ensures forall k :: 0 <= k < |MessageArms(table, vs)| ==> !Matches(MessageArms(table, vs)[k], ident, shape)
  {
    var a := MessageArms(table, vs);
    MessageArmsBelongToVariants(table, vs);
    forall k | 0 <= k < |a|
      ensures !Matches(a[k], ident, shape)
    {
      assert ArmOfSomeVariant(table, vs, a[k]);
    }
  }

  /** The last variant's lookup: the arms of the earlier variants all miss
      it, so it reaches its own arm when it has one. */
  lemma LookupLastVariant(table: MessageTable, vs: seq<Variant>)
    requires DistinctIdents(vs) && |vs| > 0
    ensures var v := vs[|vs| - 1];
      Eval(MessageArms(table, vs), v.ident, v.shape) == Eval(ArmsOf(table, v), v.ident, v.shape)
  {
    var init := vs[..|vs| - 1];
    var v := vs[|vs| - 1];
    MessageArmsSplit(table, vs);
    DistinctInit(vs);
    assert forall j :: 0 <= j < |init| ==> init[j].ident != v.ident;
    ArmsOfOthersMiss(table, init, v.ident, v.shape);
    FirstMatchAppendMissed(MessageArms(table, init), ArmsOf(table, v), v.ident, v.shape);
  }

  /** An earlier variant's lookup is decided by the earlier variants' arms:
      the last variant's arm never matches it. */
  lemma LookupEarlierVariant(table: MessageTable, vs: seq<Variant>, i: nat)
    requires DistinctIdents(vs) && i < |vs| - 1
    ensures Eval(MessageArms(table, vs), vs[i].ident, vs[i].shape)
              == Eval(MessageArms(table, vs[..|vs| - 1]), vs[i].ident, vs[i].shape)
  {
    var init := vs[..|vs| - 1];
    var last := vs[|vs| - 1];
    var a := MessageArms(table, init);
    var b := ArmsOf(table, last);
    var v := vs[i];
    MessageArmsSplit(table, vs);
    if FirstMatch(a, v.ident, v.shape).Some? {
      FirstMatchAppendHit(a, b, v.ident, v.shape);
    } else {
      FirstMatchAppendMissed(a, b, v.ident, v.shape);
      assert last.ident != v.ident;
      assert Eval(b, v.ident, v.shape).None?;
    }
  }

  /** Looking a variant up among the variant arms alone yields its intended
      message when it has one, and no arm at all when it has none. */
  lemma {:induction false} LookupMessageArms(table: MessageTable, vs: seq<Variant>, i: nat)
    requires DistinctIdents(vs) && i < |vs|
    ensures Intended(table, vs[i]).Some? ==>
              Eval(MessageArms(table, vs), vs[i].ident, vs[i].shape) == Some(Intended(table, vs[i]))
    ensures Intended(table, vs[i]).None? ==>
              Eval(MessageArms(table, vs), vs[i].ident, vs[i].shape).None?
    decreases |vs|
  {
    if i < |vs| - 1 {
      var init := vs[..|vs| - 1];
      DistinctInit(vs);
      assert init[i] == vs[i];
      LookupMessageArms(table, init, i);
      LookupEarlierVariant(table, vs, i);
    } else {
      LookupLastVariant(table, vs);
    }
  }

  /** An enum is covered exactly when all but its last variant are and the
      last variant has an intended message. */
  lemma CoveredSplit(table: MessageTable, vs: seq<Variant>)
    requires |vs| > 0
    ensures Covered(table, vs) <==>
              Covered(table, vs[..|vs| - 1]) && Intended(table, vs[|vs| - 1]).Some?
  {
    var init := vs[..|vs| - 1];
    assert forall i :: 0 <= i < |init| ==> init[i] == vs[i];
  }

  /** A message table has one arm per variant exactly when every variant has
      an intended message. */
  lemma {:induction false} FullTableIffCovered(table: MessageTable, vs: seq<Variant>)
    ensures |MessageArms(table, vs)| == |vs| <==> Covered(table, vs)
    decreases |vs|
  {
    if |vs| > 0 {
      var init := vs[..|vs| - 1];
      var last := vs[|vs| - 1];
      MessageArmsSplit(table, vs);
      FullTableIffCovered(table, init);
      CoveredSplit(table, vs);
      assert |MessageArms(table, vs)| == |MessageArms(table, init)| + |ArmsOf(table, last)|;
      assert |ArmsOf(table, last)| == 1 <==> Intended(table, last).Some?;
    }
  }

  /** A variant with an intended message owns an arm of the table. */
  lemma {:induction false} CoveredVariantHasArm(table: MessageTable, vs: seq<Variant>, i: nat)
    requires i < |vs| && Intended(table, vs[i]).Some?
    ensures Case(vs[i].ident, Suffix(vs[i].shape), Intended(table, vs[i])) in MessageArms(table, vs)
    decreases |vs|
  {
    var init := vs[..|vs| - 1];
    MessageArmsSplit(table, vs);
    if i < |vs| - 1 {
      assert init[i] == vs[i];
      CoveredVariantHasArm(table, init, i);
    }
  }

  /** With distinct identifiers, no two variant arms of a table belong to the
      same variant. */
  lemma {:induction false} CaseArmsDistinct(table: MessageTable, vs: seq<Variant>)
    requires DistinctIdents(vs)
    ensures forall j, k :: 0 <= j < k < |MessageArms(table, vs)| ==>
              MessageArms(table, vs)[j].ident != MessageArms(table, vs)[k].ident
    decreases |vs|
  {
    if |vs| > 0 {
      var init := vs[..|vs| - 1];
      var last := vs[|vs| - 1];
      var a := MessageArms(table, init);
      var arms := MessageArms(table, vs);
      MessageArmsSplit(table, vs);
      DistinctInit(vs);
      CaseArmsDistinct(table, init);
      MessageArmsBelongToVariants(table, init);
      forall j, k | 0 <= j < k < |arms|
        ensures arms[j].ident != arms[k].ident
      {
        if k >= |a| {
          assert arms[k].ident == last.ident;
          assert ArmOfSomeVariant(table, init, a[j]);
          var i :| 0 <= i < |init| && a[j] == Case(init[i].ident, Suffix(init[i].shape), Intended(table, init[i]));
          assert arms[j] == a[j];
          assert init[i].ident == vs[i].ident != last.ident;
        } else {
          assert arms[j] == a[j] && arms[k] == a[k];
        }
      }
    }
  }

  /** Lookup in a generated message method: every variant gets exactly its
      intended value; a variant without a message gets `None`. */
  lemma MessageLookup(table: MessageTable, vs: seq<Variant>, i: nat)
    requires DistinctIdents(vs) && i < |vs|
    ensures Eval(MessageTableArms(table, vs), vs[i].ident, vs[i].shape) == Some(Intended(table, vs[i]))
  {
    var a := MessageArms(table, vs);
    var v := vs[i];
    LookupMessageArms(table, vs, i);
    if Intended(table, v).Some? {
      if |a| < |vs| {
        FirstMatchAppendHit(a, [Fallback(None)], v.ident, v.shape);
      }
    } else {
      FullTableIffCovered(table, vs);
      FirstMatchAppendMissed(a, [Fallback(None)], v.ident, v.shape);
    }
  }

  /** `get_message` returns the variant's message and nothing else when it is
      enabled; `get_detailed_message` returns the detailed message, else the
      simple message, else `None`. */
  lemma DetailedFallsBackToSimple(vs: seq<Variant>, i: nat)
    requires DistinctIdents(vs) && i < |vs| && !vs[i].disabled
    ensures Eval(MessageTableArms(SimpleTable, vs), vs[i].ident, vs[i].shape) == Some(vs[i].message)
    ensures vs[i].detailed.Some? ==>
              Eval(MessageTableArms(DetailedTable, vs), vs[i].ident, vs[i].shape) == Some(vs[i].detailed)
    ensures vs[i].detailed.None? ==>
              Eval(MessageTableArms(DetailedTable, vs), vs[i].ident, vs[i].shape) == Some(vs[i].message)
  {
    MessageLookup(SimpleTable, vs, i);
    MessageLookup(DetailedTable, vs, i);
  }

  /** A disabled variant adds no arm to either message table, so the table
      ends in the `_ => None` arm and that is the arm the variant reaches. */
  lemma DisabledHitsFallback(table: MessageTable, vs: seq<Variant>, i: nat)
    requires i < |vs| && vs[i].disabled
    ensures ArmsOf(table, vs[i]) == []
    ensures |MessageTableArms(table, vs)| == |MessageArms(table, vs)| + 1
    ensures MessageTableArms(table, vs)[|MessageTableArms(table, vs)| - 1] == Fallback(None)
    ensures DistinctIdents(vs) ==>
              FirstMatch(MessageTableArms(table, vs), vs[i].ident, vs[i].shape)
                == Some(|MessageTableArms(table, vs)| - 1)
  {
    UncoveredTableEndsInFallback(table, vs, i);
    if DistinctIdents(vs) {
      UncoveredVariantTakesFallback(table, vs, i);
    }
  }

  /** A table with an uncovered variant is its variant arms followed by the
      `_ => None` arm. */
  lemma UncoveredTableEndsInFallback(table: MessageTable, vs: seq<Variant>, i: nat)
    requires i < |vs| && Intended(table, vs[i]).None?
    ensures MessageTableArms(table, vs) == MessageArms(table, vs) + [Fallback(None)]
  {
    FullTableIffCovered(table, vs);
    assert !Covered(table, vs);
  }

  /** With distinct identifiers, an uncovered variant reaches the `_ => None`
      arm, the last arm of its table. */
  lemma UncoveredVariantTakesFallback(table: MessageTable, vs: seq<Variant>, i: nat)
    requires DistinctIdents(vs) && i < |vs| && Intended(table, vs[i]).None?
    ensures FirstMatch(MessageTableArms(table, vs), vs[i].ident, vs[i].shape) == Some(|MessageArms(table, vs)|)
  {
    var a := MessageArms(table, vs);
    var f: seq<MessageArm> := [Fallback(None)];
    UncoveredTableEndsInFallback(table, vs, i);
    LookupMessageArms(table, vs, i);
    assert FirstMatch(f, vs[i].ident, vs[i].shape) == Some(0);
    FirstMatchAppendMissed(a, f, vs[i].ident, vs[i].shape);
  }

  /** The fallback rule: a table ends in `_ => None` exactly when some variant
      has no intended message, the fallback is the only wildcard arm, and it
      is always the last arm. */
  lemma FallbackRule(table: MessageTable, vs: seq<Variant>)
    ensures var t := MessageTableArms(table, vs);
      (|t| > 0 && t[|t| - 1] == Fallback(None)) <==> exists i :: 0 <= i < |vs| && Intended(table, vs[i]).None?
    ensures var t := MessageTableArms(table, vs);
      forall k :: 0 <= k < |t| && t[k].Fallback? ==> k == |t| - 1
  {
    var a := MessageArms(table, vs);
    FullTableIffCovered(table, vs);
    if |a| >= |vs| && |a| > 0 {
      assert a[|a| - 1].Case?;
    }
  }

  /** Every generated message method is exhaustive: every variant reaches
      some arm, whether or not identifiers are distinct. */
  lemma MessageTableExhaustive(table: MessageTable, vs: seq<Variant>)
    ensures Exhaustive(MessageTableArms(table, vs), vs)
  {
    var a := MessageArms(table, vs);
    var t := MessageTableArms(table, vs);
    forall i | 0 <= i < |vs|
      ensures FirstMatch(t, vs[i].ident, vs[i].shape).Some?
    {
      if |a| < |vs| {
        assert Matches(t[|t| - 1], vs[i].ident, vs[i].shape);
      } else {
        FullTableIffCovered(table, vs);
        CoveredVariantHasArm(table, vs, i);
        var k :| 0 <= k < |a| && a[k] == Case(vs[i].ident, Suffix(vs[i].shape), Intended(table, vs[i]));
        assert Matches(t[k], vs[i].ident, vs[i].shape);
      }
    }
  }

  /** The variant arm at position `k` is the arm its own variant takes. */
  lemma CaseArmReached(table: MessageTable, vs: seq<Variant>, k: nat)
    requires DistinctIdents(vs) && k < |MessageArms(table, vs)|
    ensures exists i :: 0 <= i < |vs| && FirstMatch(MessageTableArms(table, vs), vs[i].ident, vs[i].shape) == Some(k)
  {
    var a := MessageArms(table, vs);
    var t := MessageTableArms(table, vs);
    MessageArmsBelongToVariants(table, vs);
    assert ArmOfSomeVariant(table, vs, a[k]);
    var i :| 0 <= i < |vs| && Intended(table, vs[i]).Some?
      && a[k] == Case(vs[i].ident, Suffix(vs[i].shape), Intended(table, vs[i]));
    var v := vs[i];
    CaseArmsDistinct(table, vs);
    assert t[k] == a[k];
    forall j | 0 <= j < k
      ensures !Matches(t[j], v.ident, v.shape)
    {
      assert t[j] == a[j];
      assert a[j].ident != a[k].ident;
    }
    FirstMatchUnique(t, v.ident, v.shape, k);
  }

  /** When the table has a fallback arm, some variant takes it. */
  lemma FallbackArmReached(table: MessageTable, vs: seq<Variant>)
    requires DistinctIdents(vs) && |MessageArms(table, vs)| < |vs|
    ensures exists i :: 0 <= i < |vs| &&
              FirstMatch(MessageTableArms(table, vs), vs[i].ident, vs[i].shape) == Some(|MessageArms(table, vs)|)
  {
    var a := MessageArms(table, vs);
    FullTableIffCovered(table, vs);
    var i :| 0 <= i < |vs| && Intended(table, vs[i]).None?;
    LookupMessageArms(table, vs, i);
    FirstMatchAppendMissed(a, [Fallback(None)], vs[i].ident, vs[i].shape);
    var f: seq<MessageArm> := [Fallback(None)];
    assert FirstMatch(f, vs[i].ident, vs[i].shape) == Some(0);
  }

  /** No arm of a generated message method is unreachable: each is the arm
      some variant takes. With exhaustiveness, each variant takes exactly
      one arm and each arm is taken by some variant. */
  lemma NoUnreachableMessageArm(table: MessageTable, vs: seq<Variant>)
    requires DistinctIdents(vs)
    ensures var t := MessageTableArms(table, vs);
      forall k :: 0 <= k < |t| ==> exists i :: 0 <= i < |vs| && FirstMatch(t, vs[i].ident, vs[i].shape) == Some(k)
  {
    var a := MessageArms(table, vs);
    var t := MessageTableArms(table, vs);
    forall k | 0 <= k < |t|
      ensures exists i :: 0 <= i < |vs| && FirstMatch(t, vs[i].ident, vs[i].shape) == Some(k)
    {
      if k < |a| {
        CaseArmReached(table, vs, k);
      } else {
        assert |a| < |vs| && k == |a|;
        FallbackArmReached(table, vs);
      }
    }
  }

  /** Lookup in `get_serializations`: variant `i` takes arm `i`, and gets its
      `serialize` values when it has any, otherwise its identifier alone. */
  lemma SerializationLookup(vs: seq<Variant>, i: nat)
    requires DistinctIdents(vs) && i < |vs|
    ensures FirstMatch(SerializationArms(vs), vs[i].ident, vs[i].shape) == Some(i)
    ensures |vs[i].serialize| > 0 ==>
              Eval(SerializationArms(vs), vs[i].ident, vs[i].shape) == Some(vs[i].serialize)
    ensures |vs[i].serialize| == 0 ==>
              Eval(SerializationArms(vs), vs[i].ident, vs[i].shape) == Some([vs[i].ident])
  {
  }

  /** `get_serializations` is exhaustive and has no wildcard arm. */
  lemma SerializationTableExhaustive(vs: seq<Variant>)
    ensures Exhaustive(SerializationArms(vs), vs)
    ensures forall k :: 0 <= k < |SerializationArms(vs)| ==> SerializationArms(vs)[k].Case?
  {
  }

  /** Every variant arm in any of the three tables that names variant `i`
      uses the pattern suffix of that variant's data shape. */
  lemma SameSuffixAcrossTables(vs: seq<Variant>, i: nat)
    requires DistinctIdents(vs) && i < |vs|
    ensures forall table: MessageTable, k :: 0 <= k < |MessageArms(table, vs)| && MessageArms(table, vs)[k].ident == vs[i].ident
              ==> MessageArms(table, vs)[k].suffix == Suffix(vs[i].shape)
    ensures forall k :: 0 <= k < |SerializationArms(vs)| && SerializationArms(vs)[k].ident == vs[i].ident
              ==> SerializationArms(vs)[k].suffix == Suffix(vs[i].shape)
  {
    forall table: MessageTable, k | 0 <= k < |MessageArms(table, vs)| && MessageArms(table, vs)[k].ident == vs[i].ident
      ensures MessageArms(table, vs)[k].suffix == Suffix(vs[i].shape)
    {
      MessageArmsBelongToVariants(table, vs);
      assert ArmOfSomeVariant(table, vs, MessageArms(table, vs)[k]);
      var j :| 0 <= j < |vs| && Intended(table, vs[j]).Some?
        && MessageArms(table, vs)[k] == Case(vs[j].ident, Suffix(vs[j].shape), Intended(table, vs[j]));
      assert j == i;
    }
  }
}
