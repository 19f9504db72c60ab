/** `codegen` of src/lib.rs: from a validated descriptor to the generated
    `impl <Enum> { pub fn enumerate_variants() -> std::array::IntoIter<<Enum>, N> { [..].into_iter() } }`.
    The token stream itself is not modelled; the accessor is kept as the
    pieces the template is filled with. */
module Generator {
  import opened Wrappers
  import opened Text
  import opened Syntax
  import opened Parser

  const MethodName: string := "enumerate_variants"

  /** Separator between array elements, as passed to `join`. */
  const Separator: string := ", "

  /** The generated accessor: the type the `impl` is for, the item type and
      static length of the returned `std::array::IntoIter`, and the text
      between the brackets of the array literal. */
  datatype Accessor = Accessor(
    implFor: Ident,
    methodName: string,
    itemType: Ident,
    arrayLen: nat,
    arrayBody: string)

  /** The path expression `<Enum>::<Variant>` naming one variant; removing
      the `<Enum>::` prefix gives the variant back. */
  function VariantPath(enumIdent: Ident, variant: Ident): (p: string)
    ensures StripPrefix(enumIdent + "::", p) == Some(variant)
  {
    CutConcat(enumIdent + "::", variant);
    enumIdent + "::" + variant
  }

  /** One path per descriptor entry, in descriptor order: entry `i` is the
      `i`-th variant name behind the `<Enum>::` prefix. */
  function VariantPaths(v: Variants): (r: seq<string>)
    ensures |r| == |v.variantMetadata|
    ensures forall i :: 0 <= i < |r| ==> StripPrefix(v.enumIdent + "::", r[i]) == Some(v.Names()[i])
  {
    seq(|v.variantMetadata|, i requires 0 <= i < |v.variantMetadata| =>
      VariantPath(v.enumIdent, v.variantMetadata[i].ident))
  }

  /** `codegen`. Rendering the joined paths as tokens cannot fail for
      identifier text, so the result is not wrapped in a `Result`. */
  function Codegen(v: Variants): (a: Accessor)
    ensures a.implFor == v.enumIdent && a.itemType == v.enumIdent
    ensures a.methodName == MethodName
    ensures a.arrayLen == |v.variantMetadata|
    ensures a.arrayBody == "" <==> |v.variantMetadata| == 0
  {
    var body := Join(VariantPaths(v), Separator);
    assert |v.variantMetadata| > 0 ==> |body| >= |VariantPaths(v)[0]| > 0;
    Accessor(v.enumIdent, MethodName, v.enumIdent, |v.variantMetadata|, body)
  }

  /** The array elements of an accessor: its body split at the separator;
      an empty body is an empty array. */
  function Elements(a: Accessor): seq<string> {
    if a.arrayBody == "" then [] else Split(a.arrayBody, Separator)
  }

  /** The variant named by each path, if every path is `<prefix>::<name>`. */
  function StripAll(paths: seq<string>, prefix: string): (r: Option<seq<string>>)
    ensures r.Some? <==> forall i :: 0 <= i < |paths| ==> IsPrefix(prefix, paths[i])
    ensures r.Some? ==> |r.value| == |paths|
    ensures r.Some? ==> forall i :: 0 <= i < |paths| ==> prefix + r.value[i] == paths[i]
  {
    if |paths| == 0 then Some([])
    else
      match StripPrefix(prefix, paths[0])
      case None => None
      case Some(name) =>
        match StripAll(paths[1..], prefix)
        case None => None
        case Some(names) => Some([name] + names)
  }

  /** What the generated method yields when called: the variant names the
      array elements give behind the item type's `<Item>::` prefix, in array
      order; `None` if some element is not `<Item>::<identifier>`. */
  function Yielded(a: Accessor): Option<seq<string>> {
    match StripAll(Elements(a), a.itemType + "::")
    case None => None
    case Some(names) =>
      if forall i :: 0 <= i < |names| ==> IsIdent(names[i]) then Some(names) else None
  }

  /** The array literal holds exactly `arrayLen` elements, each of the form
      `<Item>::<identifier>`: the element count agrees with the `N` of
      `std::array::IntoIter<_, N>`. */
  predicate LengthMatches(a: Accessor) {
    Yielded(a).Some? && |Yielded(a).value| == a.arrayLen
  }

  /** A variant path contains no separator: identifiers hold neither `,`
      nor a space, and neither does `::`. */
  lemma PathHasNoSeparator(e: Ident, v: Ident)
    ensures !Contains(VariantPath(e, v), Separator)
  {
    var p := VariantPath(e, v);
    forall j: nat | j <= |p|
      ensures !OccursAt(p, Separator, j)
    {
      if j < |p| {
        if j < |e| {
          assert p[j] == e[j] && IsIdentChar(e[j]);
        } else if j >= |e| + 2 {
          assert p[j] == v[j - |e| - 2] && IsIdentChar(v[j - |e| - 2]);
        } else {
          assert p[j] == ':';
        }
      }
    }
  }

  /** Splitting the array body at the separator recovers the variant paths,
      one per descriptor entry, in descriptor order. */
  lemma CodegenElements(v: Variants)
    ensures Elements(Codegen(v)) == VariantPaths(v)
  {
    var paths := VariantPaths(v);
    if |paths| > 0 {
      forall i | 0 <= i < |paths|
        ensures !Contains(paths[i], Separator)
      {
        PathHasNoSeparator(v.enumIdent, v.variantMetadata[i].ident);
      }
      assert OverlapFree(Separator) by {
        assert Separator[1..] == [' '] && Separator[..1] == [','];
      }
      SplitJoin(paths, Separator);
    }
  }

  /** The generated accessor yields exactly the descriptor's variants, in
      descriptor order, and its static length matches: an empty descriptor
      yields an empty array of length 0. */
  lemma CodegenYieldsVariants(v: Variants)
    ensures Yielded(Codegen(v)) == Some(v.Names())
    ensures LengthMatches(Codegen(v))
  {
    var a := Codegen(v);
    CodegenElements(v);
    var prefix := a.itemType + "::";
    var paths := VariantPaths(v);
    var r := StripAll(paths, prefix);
    assert r.Some?;
    forall i | 0 <= i < |paths|
      ensures r.value[i] == v.Names()[i]
    {
      assert prefix + r.value[i] == paths[i];
      assert StripPrefix(prefix, paths[i]) == Some(v.Names()[i]);
      CutConcat(prefix, r.value[i]);
    }
    assert r.value == v.Names();
  }
}
