# EnumMessage derive, modelled in Dafny

This project models the `EnumMessage` derive of the `strum` procedural-macro
crate (`enum_message_inner`). Given an enum declaration, the derive generates
three methods, each a `match self { ... }`:

- `get_message` returns a variant's `#[strum(message = "...")]`, or `None`;
- `get_detailed_message` returns a variant's
  `#[strum(detailed_message = "...")]`, falling back to its simple message,
  or `None`;
- `get_serializations` returns a variant's `#[strum(serialize = "...")]`
  names, or its identifier alone when it has none.

A variant marked `#[strum(disabled = "true")]` keeps its serialization arm
but gets no message arm. A `_ => None` arm closes a message method when
fewer arms than variants were emitted.

Layout:

- `wrappers.dfy` (`Wrappers`): `Option` and `Result`.
- `enum_ast.dfy` (`EnumAst`): the derive input. This covers the variant
  record (identifier, data shape, message, detailed message, serialize
  list, disabled flag), the pattern suffix per data shape, and distinct
  identifiers.
- `match_arms.dfy` (`MatchArms`): generated arms (`Case(ident, suffix,
  payload)` or `Fallback(payload)`). Evaluating a generated match is
  first-match lookup over the arm list. `Eval` returns `None` when no arm
  matches, which is a match the Rust compiler would reject as
  non-exhaustive.
- `enum_messages.dfy` (`EnumMessages`): each variant's contribution to each
  table, the tables themselves, and the fallback rule. It also holds the
  reference definition `Intended` of what each message method should
  return.
- `enum_message_proofs.dfy` (`EnumMessageProofs`): lookup, exhaustiveness,
  reachability and fallback lemmas.
- `enum_message_derive.dfy` (`EnumMessageDerive`): the generated
  implementation as a function (`Generate`) and the derive as a method whose
  loop pushes onto the three tables in the order the source does.

The attribute helpers `unique_attr`, `extract_attrs` and `is_disabled` are
not part of this model. Their results are the fields of `EnumAst.Variant`.
A struct body is rejected with a `Failure` carrying the source's panic
message, instead of a panic.

The lookup lemmas assume that no two variants share an identifier
(`DistinctIdents`). Such an enum never compiles. Exhaustiveness is proved without this assumption.

## Model

| member | source | states |
|---|---|---|
| `EnumAst.Suffix` | strum_macros/src/enum_messages.rs:24-28 | Only a unit variant gets the empty pattern suffix; tuple and struct variants always get a non-empty one. |
| `EnumAst.SuffixDeterminesShape` | strum_macros/src/enum_messages.rs:24-28 | Two data shapes get the same pattern suffix only if they are the same shape, so a variant's pattern never matches a variant of another shape. |
| `MatchArms.FirstMatch` | strum_macros/src/enum_messages.rs:79-97 | A generated match takes the first arm whose pattern matches; `None` exactly when no arm matches. |
| `MatchArms.Eval` | strum_macros/src/enum_messages.rs:79-97 | The value of a generated match is the payload of a matching arm, and is absent only when no arm matches the variant. |
| `EnumMessages.SerializationNames` | strum_macros/src/enum_messages.rs:32-35 | A variant always has at least one serialization name: its `serialize` values when it has any, otherwise its identifier alone. |
| `EnumMessages.SerializationArmOf` | strum_macros/src/enum_messages.rs:37-43 | A variant's serialization arm is a variant pattern (never a wildcard) that matches that variant, and its array has at least one name. |
| `EnumMessages.ArmsOf` | strum_macros/src/enum_messages.rs:46-68 | A variant adds at most one arm to each message table. It adds none when it is disabled or has no intended message. Otherwise it adds exactly one arm: its own identifier, its shape's suffix, and the intended message. |
| `EnumMessages.MessageArms` | strum_macros/src/enum_messages.rs:18-69 | Before the fallback, a message table has at most one arm per variant, and every arm is a variant pattern, not a wildcard. |
| `EnumMessages.SerializationArms` | strum_macros/src/enum_messages.rs:30-44 | Exactly one serialization arm per variant, in declaration order, disabled or not. |
| `EnumMessages.WithFallback` | strum_macros/src/enum_messages.rs:71-77 | The fallback step keeps the variant arms as a prefix. It appends exactly one `_ => None` arm, and only when there are fewer arms than variants. A table with at most one arm per variant still has at most one arm per variant afterwards. |
| `EnumMessageProofs.MessageArmsBelongToVariants` | strum_macros/src/enum_messages.rs:51-68 | Every arm of a message table belongs to a variant with an intended message and carries that variant's identifier, suffix and message. |
| `EnumMessageProofs.LookupMessageArms` | strum_macros/src/enum_messages.rs:51-68 | Before the fallback is added, a variant with an intended message reaches its own arm and gets that message; a variant without one matches no arm. |
| `EnumMessageProofs.FullTableIffCovered` | strum_macros/src/enum_messages.rs:71-77 | A message table has as many arms as variants exactly when every variant has an intended message. |
| `EnumMessageProofs.CoveredVariantHasArm` | strum_macros/src/enum_messages.rs:51-68 | A variant with an intended message owns an arm with its identifier, suffix and message. |
| `EnumMessageProofs.CaseArmsDistinct` | strum_macros/src/enum_messages.rs:51-68 | With distinct identifiers, no two arms of one message table name the same variant. |
| `EnumMessageProofs.MessageLookup` | strum_macros/src/enum_messages.rs:46-77 | The generated message method returns exactly the intended value for every variant. That is `None` for a disabled variant or one without a message. |
| `EnumMessageProofs.DetailedFallsBackToSimple` | strum_macros/src/enum_messages.rs:51-67 | For an enabled variant, `get_message` returns its message. `get_detailed_message` returns its detailed message when present, otherwise its simple message. |
| `EnumMessageProofs.DisabledHitsFallback` | strum_macros/src/enum_messages.rs:46-77 | A disabled variant adds no message arm. The table then ends in `_ => None`, and that is the arm the variant reaches. |
| `EnumMessageProofs.UncoveredVariantTakesFallback` | strum_macros/src/enum_messages.rs:71-77 | A variant without an intended message reaches the `_ => None` arm, which sits right after the variant arms. |
| `EnumMessageProofs.FallbackRule` | strum_macros/src/enum_messages.rs:71-77 | A table ends in `_ => None` exactly when some variant has no intended message. The fallback is the only wildcard arm and always the last one. |
| `EnumMessageProofs.MessageTableExhaustive` | strum_macros/src/enum_messages.rs:71-91 | Every variant reaches some arm of each generated message method. |
| `EnumMessageProofs.NoUnreachableMessageArm` | strum_macros/src/enum_messages.rs:71-77 | Every arm of a generated message method, the fallback included, is the arm some variant takes. |
| `EnumMessageProofs.SerializationLookup` | strum_macros/src/enum_messages.rs:30-44 | Variant `i` takes serialization arm `i`. It gets its `serialize` values when it has any, otherwise the one-element list of its identifier. |
| `EnumMessageProofs.SerializationTableExhaustive` | strum_macros/src/enum_messages.rs:30-44 | `get_serializations` matches every variant without any wildcard arm. |
| `EnumMessageProofs.SameSuffixAcrossTables` | strum_macros/src/enum_messages.rs:24-67 | All three tables use, for a variant's arm, the pattern suffix of that variant's data shape. |
| `EnumMessageDerive.PushVariantArms` | strum_macros/src/enum_messages.rs:19-68 | One loop iteration appends the variant's serialization arm, then its simple and detailed message arms; a disabled variant appends only the serialization arm. |
| `EnumMessageDerive.CollectArms` | strum_macros/src/enum_messages.rs:14-69 | The loop over the variants builds exactly the three tables defined by `MessageArms` and `SerializationArms`. |
| `EnumMessageDerive.Generate` | strum_macros/src/enum_messages.rs:71-97 | The generated implementation has at most one arm per variant in each message method and exactly one per variant in `get_serializations`. |
| `EnumMessageDerive.GeneratedTablesCover` | strum_macros/src/enum_messages.rs:30-97 | The serialization arms follow declaration order, and all three generated methods are exhaustive. |
| `EnumMessageDerive.GeneratedLookup` | strum_macros/src/enum_messages.rs:46-97 | With distinct identifiers, both generated message methods return each variant's intended message. |
| `EnumMessageDerive.EnumMessageInner` | strum_macros/src/enum_messages.rs:6-77 | A struct is rejected with "EnumMessage only works on Enums", and only a struct is. An enum yields exactly `Generate` of its variants. With distinct identifiers, both message methods return each variant's intended message. |

## Left out

- Token generation with `quote!` and `syn`, and the text of the emitted
  `impl`: arms are modelled as values, not tokens.
- Generic parameters (`split_for_impl`): they are passed through to the
  emitted `impl` unchanged.
- `unique_attr`, `extract_attrs` and `is_disabled` are not part of this model.
  Their results are taken as given; any panic they raise on duplicate
  attributes is not modelled.
- The `'static` array and its lifetime in each serialization arm: the model
  keeps only the list of names. The array length is the list's length.
- Mismatched pattern suffixes: the derive never emits a suffix other than
  the variant's own (`SameSuffixAcrossTables`). The model treats a
  mismatched suffix as a non-match, which differs from Rust for `{..}`:
  `E::V {..}` also matches a tuple or unit variant `V`.
- An enum with no variants: rustc rejects an empty match on `&E` (error
  E0004, "type `&E` is non-empty"), so for `enum E {}` the derive emits
  methods that do not compile. The model calls their arm-less matches
  vacuously exhaustive.
- MessageLookup: requires distinct variant identifiers. An enum that breaks
  this never compiles, so its generated methods never run.
