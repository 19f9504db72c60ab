/** `parse` of src/lib.rs: turns a declaration into the descriptor of a
    unit-only enum, or into the first error it meets. */
module Parser {
  import opened Wrappers
  import opened Text
  import opened Syntax

  /** One accepted variant (`VariantMetadata`); its span is not modelled. */
  datatype VariantMetadata = VariantMetadata(ident: Ident)

  /** The validated descriptor (`Variants`): the enum's name and its
      variants in declaration order. */
  datatype Variants = Variants(enumIdent: Ident, variantMetadata: seq<VariantMetadata>)
  {
    /** The variant names, in descriptor order. */
    function Names(): (r: seq<Ident>)
      ensures |r| == |variantMetadata|
    {
      seq(|variantMetadata|, i requires 0 <= i < |variantMetadata| => variantMetadata[i].ident)
    }
  }

  /** The two ways `parse` fails. Each becomes a `syn::Error` whose text is
      `Message(e)`. */
  datatype ParseError =
    | NotAnEnum
    | VariantHasFields(variant: Ident, fieldCount: nat)

  const NotAnEnumMessage: string := "derive macro only works on enums"
  const FieldsMessageHead: string := "variant("
  const FieldsMessageTail: string := ") expects exactly 0 fields, got "

  /** The error text: the fixed sentence for a non-enum, and
      `variant(<name>) expects exactly 0 fields, got <n>` otherwise. Only
      the second starts with `variant(`, and the name and count it quotes
      read back exactly. */
  function Message(e: ParseError): (m: string)
    ensures IsPrefix(FieldsMessageHead, m) <==> e.VariantHasFields?
    ensures e.VariantHasFields? ==> DecodeFieldsMessage(m) == Some((e.variant, e.fieldCount))
  {
    match e
    case NotAnEnum =>
      assert NotAnEnumMessage[0] != FieldsMessageHead[0];
      NotAnEnumMessage
    case VariantHasFields(v, n) =>
      var digits := NatToDecimal(n);
      var after := v + FieldsMessageTail + digits;
      CutConcat(FieldsMessageHead, after);
      DecodeAfterHeadOf(v, digits);
      DecimalRoundTrip(n);
      FieldsMessageHead + after
  }

  /** Reads the variant name and field count back out of a
      `variant(<name>) expects exactly 0 fields, got <n>` message. */
  function DecodeFieldsMessage(m: string): Option<(string, nat)> {
    if IsPrefix(FieldsMessageHead, m) then DecodeAfterHead(m[|FieldsMessageHead|..]) else None
  }

  /** The name up to the first `)`, then the fixed tail, then the count. */
  function DecodeAfterHead(rest: string): Option<(string, nat)> {
    match FindFrom(rest, ")", 0)
    case None => None
    case Some(j) =>
      var tail := rest[j..];
      if !IsPrefix(FieldsMessageTail, tail) then None
      else
        var digits := tail[|FieldsMessageTail|..];
        if |digits| > 0 && AllDigits(digits) then Some((rest[..j], DecimalToNat(digits)))
        else None
  }

  predicate IsUnit(v: Variant) {
    v.fields.Unit?
  }

  predicate AllUnit(vs: seq<Variant>) {
    forall i :: 0 <= i < |vs| ==> IsUnit(vs[i])
  }

  /** `i` is the position of the first variant that carries fields. */
  predicate IsFirstNonUnit(vs: seq<Variant>, i: int) {
    && 0 <= i < |vs|
    && !IsUnit(vs[i])
    && forall j :: 0 <= j < i ==> IsUnit(vs[j])
  }

  /** The closure mapped over the variants: a unit variant is accepted,
      any other shape is rejected with an error whose formatted text starts
      with `variant(` and reads back as this variant's name and field
      count. */
  function ParseVariant(v: Variant): (r: Result<VariantMetadata, ParseError>)
    ensures r.Ok? <==> IsUnit(v)
    ensures r.Ok? ==> r.value.ident == v.ident
    ensures r.Err? ==> r.error == VariantHasFields(v.ident, v.fields.Len())
    ensures r.Err? ==> IsPrefix(FieldsMessageHead, Message(r.error))
    ensures r.Err? ==> DecodeFieldsMessage(Message(r.error)) == Some((v.ident, v.fields.Len()))
  {
    match v.fields
    case Unit => Ok(VariantMetadata(v.ident))
    case _ => Err(VariantHasFields(v.ident, v.fields.Len()))
  }

  /** `collect::<Result<Vec<_>, _>>()` over the mapped variants: it stops
      at the first error. Succeeds exactly when every variant is a unit
      variant, keeping names and order; otherwise reports the first
      variant that carries fields. */
  function CollectVariants(vs: seq<Variant>): (r: Result<seq<VariantMetadata>, ParseError>)
    ensures r.Ok? <==> AllUnit(vs)
    ensures r.Ok? ==> |r.value| == |vs|
    ensures r.Ok? ==> forall i :: 0 <= i < |vs| ==> r.value[i].ident == vs[i].ident
    ensures forall i :: IsFirstNonUnit(vs, i) ==>
              r == Err(VariantHasFields(vs[i].ident, vs[i].fields.Len()))
  {
    if |vs| == 0 then Ok([])
    else
      match ParseVariant(vs[0])
      case Err(e) => Err(e)
      case Ok(m) =>
        match CollectVariants(vs[1..])
        case Err(e) =>
          assert forall i :: IsFirstNonUnit(vs, i) ==> IsFirstNonUnit(vs[1..], i - 1);
          Err(e)
        case Ok(ms) => Ok([m] + ms)
  }

  /** `parse`: a non-enum is rejected outright; an enum yields its name and
      its variants, or the first variant that carries fields. */
  function Parse(d: DeriveInput): (r: Result<Variants, ParseError>)
    ensures !d.data.Enum? ==> r == Err(NotAnEnum)
    ensures d.data.Enum? ==> (r.Ok? <==> AllUnit(d.data.variants))
    ensures r.Ok? ==> r.value.enumIdent == d.ident
    ensures r.Ok? ==> r.value.Names() == Idents(d.data.variants)
    ensures d.data.Enum? ==> forall i :: IsFirstNonUnit(d.data.variants, i) ==>
              r == Err(VariantHasFields(d.data.variants[i].ident, d.data.variants[i].fields.Len()))
  {
    match d.data
    case Enum(vs) =>
      (match CollectVariants(vs)
       case Err(e) => Err(e)
       case Ok(ms) => Ok(Variants(d.ident, ms)))
    case _ => Err(NotAnEnum)
  }

  /** The position of the first variant that carries fields; it exists
      whenever some variant does, so a rejected enum has a definite
      culprit. */
  function FirstNonUnit(vs: seq<Variant>): (i: nat)
    requires !AllUnit(vs)
    ensures IsFirstNonUnit(vs, i)
  {
    if IsUnit(vs[0]) then 1 + FirstNonUnit(vs[1..]) else 0
  }

  /** A `VariantHasFields` error comes from an enum with a non-unit variant;
      it names the first one and reports its number of fields, which is 0
      for `A {}` and `A()`. */
  lemma ReportedCount(d: DeriveInput, e: ParseError)
    requires Parse(d) == Err(e) && e.VariantHasFields?
    ensures d.data.Enum? && !AllUnit(d.data.variants)
    ensures e.variant == d.data.variants[FirstNonUnit(d.data.variants)].ident
    ensures e.fieldCount == d.data.variants[FirstNonUnit(d.data.variants)].fields.count
  {
  }

  /** Only the enum's name and each variant's name and field shape decide
      the outcome: attributes, visibility, generics and discriminants never
      do. */
  predicate SameShape(a: DeriveInput, b: DeriveInput) {
    && a.ident == b.ident
    && a.data.Enum? == b.data.Enum?
    && (a.data.Enum? ==>
          && |a.data.variants| == |b.data.variants|
          && forall i :: 0 <= i < |a.data.variants| ==>
               && a.data.variants[i].ident == b.data.variants[i].ident
               && a.data.variants[i].fields == b.data.variants[i].fields)
  }

  lemma ParseDependsOnlyOnShape(a: DeriveInput, b: DeriveInput)
    requires SameShape(a, b)
    ensures Parse(a) == Parse(b)
  {
    if a.data.Enum? {
      var va, vb := a.data.variants, b.data.variants;
      if AllUnit(va) {
        assert Parse(a).value.variantMetadata == Parse(b).value.variantMetadata;
      } else {
        assert IsFirstNonUnit(vb, FirstNonUnit(va));
      }
    }
  }

  /** Identifier text never contains a closing parenthesis. */
  lemma IdentHasNoCloseParen(v: Ident)
    ensures !Contains(v, ")")
  {
    forall j: nat | j <= |v|
      ensures !OccursAt(v, ")", j)
    {
      if j < |v| {
        assert IsIdentChar(v[j]);
      }
    }
  }

  /** After the head, the name ends at its first `)`, which opens the
      fixed tail; the digits that follow give the count. */
  lemma DecodeAfterHeadOf(v: Ident, digits: string)
    requires |digits| > 0 && AllDigits(digits)
    ensures DecodeAfterHead(v + FieldsMessageTail + digits) == Some((v, DecimalToNat(digits)))
  {
    assert IsPrefix(")", FieldsMessageTail);
    IdentHasNoCloseParen(v);
    FirstOccurrenceOfLead(v, ")", FieldsMessageTail, digits);
    CutConcat(FieldsMessageTail, digits);
  }

  /** Distinct errors produce distinct messages. */
  lemma MessageIdentifiesError(e1: ParseError, e2: ParseError)
    requires Message(e1) == Message(e2)
    ensures e1 == e2
  {
  }
}
