/** `generate_variant_iter` of src/lib.rs, the `VariantEnumerator` derive:
    parse, then codegen, or the parse error as a compile error. */
module Driver {
  import opened Wrappers
  import opened Text
  import opened Syntax
  import opened Parser
  import opened Generator

  /** What the derive expands to: the accessor `impl`, or a
      `compile_error!` carrying the error's message. */
  datatype Expansion = Expanded(accessor: Accessor) | CompileError(message: string)

  /** `parse(input).and_then(codegen).unwrap_or_else(into_compile_error)`. */
  function GenerateVariantIter(d: DeriveInput): (r: Expansion)
    ensures r.Expanded? <==> d.data.Enum? && AllUnit(d.data.variants)
    ensures !d.data.Enum? ==> r == CompileError("derive macro only works on enums")
    ensures d.data.Enum? ==> forall i :: IsFirstNonUnit(d.data.variants, i) ==>
              r == CompileError("variant(" + d.data.variants[i].ident + ") expects exactly 0 fields, got "
                                + NatToDecimal(d.data.variants[i].fields.Len()))
    ensures r.Expanded? ==> && r.accessor.implFor == d.ident
                            && r.accessor.itemType == d.ident
                            && r.accessor.methodName == "enumerate_variants"
                            && r.accessor.arrayLen == |d.data.variants|
                            && Yielded(r.accessor) == Some(Idents(d.data.variants))
                            && LengthMatches(r.accessor)
  {
    match Parse(d)
    case Err(e) =>
      MessageText(e);
      CompileError(Message(e))
    case Ok(v) =>
      CodegenYieldsVariants(v);
      Expanded(Codegen(v))
  }

  /** The two message texts, spelled out. */
  lemma MessageText(e: ParseError)
    ensures e.NotAnEnum? ==> Message(e) == "derive macro only works on enums"
    ensures e.VariantHasFields? ==> Message(e) == "variant(" + e.variant + ") expects exactly 0 fields, got "
                                                  + NatToDecimal(e.fieldCount)
  {
  }

  /** All or nothing: a failed expansion is a compile error and nothing
      else, and its text alone tells the cause. It is the non-enum sentence
      exactly when the input is not an enum; otherwise it reads back as the
      first variant that carries fields, with that variant's field count. */
  lemma CompileErrorIdentifiesCause(d: DeriveInput)
    requires GenerateVariantIter(d).CompileError?
    ensures GenerateVariantIter(d).message == NotAnEnumMessage <==> !d.data.Enum?
    ensures d.data.Enum? ==> !AllUnit(d.data.variants)
    ensures d.data.Enum? ==>
              var i := FirstNonUnit(d.data.variants);
              DecodeFieldsMessage(GenerateVariantIter(d).message)
                == Some((d.data.variants[i].ident, d.data.variants[i].fields.Len()))
  {
    if d.data.Enum? {
      var vs := d.data.variants;
      var i := FirstNonUnit(vs);
      var e := VariantHasFields(vs[i].ident, vs[i].fields.Len());
      assert Parse(d) == Err(e);
      if Message(e) == NotAnEnumMessage {
        MessageIdentifiesError(e, NotAnEnum);
      }
    }
  }

  /** An enum with no variants passes and yields an empty array of length 0. */
  lemma EmptyEnum(d: DeriveInput)
    requires d.data == Enum([])
    ensures GenerateVariantIter(d).Expanded?
    ensures GenerateVariantIter(d).accessor.arrayLen == 0
    ensures GenerateVariantIter(d).accessor.arrayBody == ""
    ensures Yielded(GenerateVariantIter(d).accessor) == Some([])
  {
  }

  function UnitVariant(name: Ident): Variant {
    Variant([], name, Unit, None)
  }

  /** `enum GrammarElements { Expr, Factor, Term }` from the basic example. */
  const GrammarElements: DeriveInput :=
    DeriveInput([], Inherited, "GrammarElements", [],
                Enum([UnitVariant("Expr"), UnitVariant("Factor"), UnitVariant("Term")]))

  const GrammarElementsDescriptor: Variants :=
    Variants("GrammarElements",
             [VariantMetadata("Expr"), VariantMetadata("Factor"), VariantMetadata("Term")])

  lemma GrammarElementsParse()
    ensures Parse(GrammarElements) == Ok(GrammarElementsDescriptor)
  {
    assert Parse(GrammarElements).value.Names() == ["Expr", "Factor", "Term"];
    assert Parse(GrammarElements).value.variantMetadata == GrammarElementsDescriptor.variantMetadata;
  }

  lemma GrammarElementsBody()
    ensures Join(VariantPaths(GrammarElementsDescriptor), Separator)
            == "GrammarElements::Expr" + ", " + "GrammarElements::Factor" + ", " + "GrammarElements::Term"
  {
    var paths := VariantPaths(GrammarElementsDescriptor);
    assert paths[0] == "GrammarElements::Expr";
    assert paths[1] == "GrammarElements::Factor";
    assert paths[2] == "GrammarElements::Term";
    assert paths[1..][1..] == [paths[2]];
    assert Join(paths[1..], Separator) == paths[1] + Separator + paths[2];
  }

  lemma GrammarElementsExpansion()
    ensures GenerateVariantIter(GrammarElements).Expanded?
    ensures GenerateVariantIter(GrammarElements).accessor.arrayBody
              == "GrammarElements::Expr" + ", " + "GrammarElements::Factor" + ", " + "GrammarElements::Term"
    ensures GenerateVariantIter(GrammarElements).accessor.arrayLen == 3
    ensures Yielded(GenerateVariantIter(GrammarElements).accessor) == Some(["Expr", "Factor", "Term"])
  {
    GrammarElementsParse();
    GrammarElementsBody();
    CodegenYieldsVariants(GrammarElementsDescriptor);
    assert GrammarElementsDescriptor.Names() == ["Expr", "Factor", "Term"];
  }

  /** `enum Bad { A(i32) }`. */
  const Bad: DeriveInput :=
    DeriveInput([], Inherited, "Bad", [], Enum([Variant([], "A", Unnamed(1), None)]))

  lemma BadParse()
    ensures Parse(Bad) == Err(VariantHasFields("A", 1))
  {
    assert IsFirstNonUnit(Bad.data.variants, 0);
  }

  /** `enum Bad { A(i32) }` is rejected, naming `A` and its one field. */
  lemma TupleVariantRejected()
    ensures GenerateVariantIter(Bad) == CompileError("variant(" + "A" + ") expects exactly 0 fields, got " + "1")
  {
    BadParse();
    assert NatToDecimal(1) == "1" by {
      assert DigitChar(1) == '1';
    }
  }
}
