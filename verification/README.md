# VariantEnumerator derive, modelled in Dafny

`#[derive(VariantEnumerator)]` takes an enum whose variants are all unit
variants and adds `enumerate_variants()`. That method returns a
`std::array::IntoIter<Enum, N>` over every variant, in declaration order.
The macro runs two pure stages:

- `parse` turns the declaration into a descriptor: the enum name and the
  ordered variant names. It fails on a struct or union. It also fails on the
  first variant that is not a unit variant.
- `codegen` turns the descriptor into the accessor. It writes every variant
  as `Enum::Variant`, joins them with `", "` into an array literal, and
  records the variant count as the array length `N`.

`generate_variant_iter` runs `parse`, then `codegen`. A parse error becomes
the whole output, as a compile error.

The model has six modules, one per file:

- `Wrappers` (wrappers.dfy): `Option` and `Result`.
- `Text` (text.dfy): `join` and `split`, prefix tests, and decimal rendering,
  with their round trips.
- `Syntax` (syntax.dfy): the part of syn's `DeriveInput` the macro reads.
  Identifiers are a subset type of `string`. A variant's fields are
  `Unit | Named(count) | Unnamed(count)`.
- `Parser` (parser.dfy): `parse`, its two error kinds, and their messages.
- `Generator` (codegen.dfy): `codegen`, plus `Yielded`, which says what the
  generated method returns. The array body is split at `", "` and the
  `Enum::` prefix is stripped from each element.
- `Driver` (driver.dfy): `generate_variant_iter`, plus the example enums as
  concrete cases.

Every member is a pure function of its arguments. The same declaration
therefore always expands to the same output, and no separate lemma states
this.

A variant is rejected whenever its fields are not `Fields::Unit`
(src/lib.rs:62-65), not only when it has a field. syn reads `A()` as
`Unnamed` with no fields and `A {}` as `Named` with no fields, so both are
rejected with "variant(A) expects exactly 0 fields, got 0". `Fields`
therefore allows a count of 0 for `Named` and `Unnamed`, and
`Parser.ReportedCount` states the reported count as the variant's own field
count, which may be 0.

## Model

| member | source | states |
|---|---|---|
| `Parser.Parse` | src/lib.rs:42-79 | A struct or union fails with `NotAnEnum`. An enum succeeds exactly when every variant is a unit variant. On success the descriptor carries the input's enum name and its variant names, in order and with the same count. Otherwise the error names the first variant with fields, with that variant's field count. |
| `Parser.ParseVariant` | src/lib.rs:57-74 | What the closure hands on. A variant is accepted exactly when it is `Fields::Unit`, and it keeps its name. For any other shape, the error text formatted at lines 67-71 starts with `variant(`. That text reads back as this variant's name and its `Fields::len`, which is 0 for `A()` and `A {}`. |
| `Parser.CollectVariants` | src/lib.rs:55-75 | Collecting the per-variant results succeeds exactly when all variants are unit variants. It then keeps every name in declaration order. Otherwise it returns the error of the first non-unit variant, because the collect stops at the first error. |
| `Parser.FirstNonUnit` | src/lib.rs:55-75 | If some variant has fields, there is a first one: a non-unit variant with only unit variants before it. A rejected enum therefore always has a definite culprit. |
| `Parser.ReportedCount` | src/lib.rs:62-72 | A `VariantHasFields` error comes from an enum that has a non-unit variant. It names the first such variant and reports that variant's own number of fields. |
| `Parser.ParseDependsOnlyOnShape` | src/lib.rs:42-64 | Two declarations with the same enum name, the same kind, and the same variant names and field shapes parse identically. Attributes, visibility, generics and discriminants have no effect. |
| `Parser.Message` | src/lib.rs:47-72 | The error text starts with `variant(` exactly for a variant error, never for "derive macro only works on enums". The variant name and field count quoted in "variant(<name>) expects exactly 0 fields, got <n>" read back exactly. |
| `Parser.MessageIdentifiesError` | src/lib.rs:47-72 | Distinct parse errors give distinct message texts, so the message identifies the error kind, the variant and the count. |
| `Generator.VariantPath` | src/lib.rs:89 | Removing the `<Enum>::` prefix from the path of a variant gives back that variant's name. |
| `Generator.VariantPaths` | src/lib.rs:86-90 | There is one path per descriptor entry. With the `<Enum>::` prefix removed, path `i` is the `i`-th variant name. |
| `Generator.Codegen` | src/lib.rs:82-103 | The `impl` is for the enum, and the iterator's item type is the enum. The method is `enumerate_variants`. The static length `N` is the number of descriptor variants. The array body is empty exactly when the enum has no variants. |
| `Generator.CodegenElements` | src/lib.rs:86-92 | Splitting the joined array body at `", "` gives back exactly the list `"<Enum>::<variant_i>"`, one per descriptor entry and in descriptor order. |
| `Generator.CodegenYieldsVariants` | src/lib.rs:84-97 | The generated accessor yields exactly the descriptor's variant names, in descriptor order. The array literal has exactly `N` elements, each of the form `<Enum>::<identifier>`. |
| `Generator.PathHasNoSeparator` | src/lib.rs:89 | A path `<Enum>::<Variant>` never contains `", "`, so joining the paths loses nothing. |
| `Text.Join` | src/lib.rs:92 | Like Rust's `join`, the empty list joins to the empty text. Otherwise the text starts with the first part, and its length is the parts' total length plus one separator per neighbouring pair. |
| `Text.SplitJoin` | src/lib.rs:92 | Splitting on a separator undoes `join`, provided no part contains the separator and the separator cannot overlap itself. |
| `Text.NatToDecimal` | src/lib.rs:67-71 | The `{}` rendering of the field count is non-empty, all decimal digits, and starts with `0` exactly when the count is 0. |
| `Text.DecimalRoundTrip` | src/lib.rs:67-71 | Reading back the decimal text of a field count gives the count itself. |
| `Driver.GenerateVariantIter` | src/lib.rs:108-115 | The derive expands to code exactly when the input is an enum whose variants are all unit variants. A struct or union gives the compile error "derive macro only works on enums". Otherwise the first variant with fields gives "variant(<name>) expects exactly 0 fields, got <n>". On success, the accessor is for the enum, has length N equal to the variant count, and yields the variant names in declaration order. |
| `Driver.CompileErrorIdentifiesCause` | src/lib.rs:111-113 | A failed expansion is a compile error and nothing else. Its text is "derive macro only works on enums" exactly when the input is not an enum. Otherwise the text reads back as the first variant with fields and that variant's field count. |
| `Driver.EmptyEnum` | src/lib.rs:82-97 | An enum with no variants expands to an empty array of length 0 that yields nothing. |
| `Driver.GrammarElementsExpansion` | examples/basic/main.rs:3-8 | `GrammarElements { Expr, Factor, Term }` expands to the body `GrammarElements::Expr, GrammarElements::Factor, GrammarElements::Term` with length 3, and yields Expr, Factor and Term in that order. |
| `Driver.TupleVariantRejected` | src/lib.rs:62-72 | `enum Bad { A(i32) }` is rejected with "variant(A) expects exactly 0 fields, got 1". |

## Left out

- Token parsing into `DeriveInput` (`parse_macro_input!`): that is syn's job. A declaration enters the model already structured.
- Spans: `VariantMetadata` and `Variants` keep a span that is never read. Errors are anchored at a span, which only affects where a diagnostic points. No span is modelled.
- `quote!` and the token output: the generated `impl` is modelled as a record. The record holds the impl type, the method name, the item type, the static length and the array-body text.
- Failure of `TokenStream::from_str`: the `?` after it is not modelled as able to fail. Joined identifier paths always tokenize, so `codegen` is total.
- `syn::Error::into_compile_error` and the conversion to `proc_macro::TokenStream`: a compile error is modelled as its message text.
- Identifiers: `Syntax.IsIdent` over-approximates Rust identifiers. It accepts ASCII letters, digits, `_`, `#` and every non-ASCII character, and rejects a leading digit. Keywords and Unicode identifier classes are not checked.
- Generics: the `impl` header is emitted as `impl <Enum>` without the enum's generic parameters (src/lib.rs:95), and the model ignores generics in the same way. Whether the emitted code then compiles for a generic enum is not modelled. `Generator.LengthMatches` only says that the array has `N` elements of the form `<Enum>::<identifier>`. It does not say that each element names a declared variant or that the output type-checks.
- The printing loop in examples/basic/main.rs is I/O. Only its enum is used, as a concrete case.
