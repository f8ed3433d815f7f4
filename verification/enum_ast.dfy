/** The part of a derive input's syntax tree that the EnumMessage derive
    reads: the type's name, whether its body is an enum, and per variant its
    identifier, its data shape and the values of its `strum` attributes. */
module EnumAst {
  import opened Wrappers

  /** The data a variant carries: none, positional fields, or named fields. */
  datatype Shape = Unit | Tuple | Struct

  /** One enum variant. The attribute fields are the outputs of the attribute
      helpers, taken as given:
      - `message`: the unique `#[strum(message = "...")]` value, if any;
      - `detailed`: the unique `#[strum(detailed_message = "...")]` value, if any;
      - `serialize`: every `#[strum(serialize = "...")]` value, in order;
      - `disabled`: whether the variant carries `#[strum(disabled = "true")]`. */
  datatype Variant = Variant(
    ident: string,
    shape: Shape,
    message: Option<string>,
    detailed: Option<string>,
    serialize: seq<string>,
    disabled: bool)

  /** The body of the annotated type: an enum with its variants in
      declaration order, or a struct (which the derive rejects). */
  datatype Body = EnumBody(variants: seq<Variant>) | StructBody(data: Shape)

  /** The annotated type as the derive sees it. */
  datatype DeriveInput = DeriveInput(ident: string, body: Body)

  /** No two variants share an identifier; an enum that breaks this never
      compiles. */
  predicate DistinctIdents(vs: seq<Variant>) {
    forall i, j :: 0 <= i < j < |vs| ==> vs[i].ident != vs[j].ident
  }

  /** The text written after `Name::ident` in a pattern, so that the pattern
      matches the variant whatever data it carries. */
  function Suffix(shape: Shape): (s: string)
    ensures |s| == 0 <==> shape == Unit
  {
    match shape
    case Unit => ""
    case Tuple => "(..)"
    case Struct => "{..}"
  }

  /** Different shapes get different pattern suffixes, so a pattern built for
      one shape never matches a variant of another. */
  lemma SuffixDeterminesShape(a: Shape, b: Shape)
    ensures Suffix(a) == Suffix(b) <==> a == b
  {
  }
}
