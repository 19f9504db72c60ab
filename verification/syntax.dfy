/** The part of syn's `DeriveInput` the derive macro looks at: an item
    declaration whose body is an enum, a struct or a union. Token-level
    parsing is outside the model; a declaration arrives already structured. */
module Syntax {
  import opened Wrappers

  /** Characters of identifier text: ASCII letters, digits and `_`, the `#`
      of a raw identifier's `r#` prefix, and any non-ASCII character (an
      over-approximation of Unicode identifier characters). None of `,`,
      space, `:`, `(` or `)` is among them. */
  predicate IsIdentChar(c: char) {
    || ('a' <= c <= 'z')
    || ('A' <= c <= 'Z')
    || ('0' <= c <= '9')
    || c == '_'
    || c == '#'
    || c as int >= 128
  }

  predicate IsIdent(s: string) {
    && |s| > 0
    && !('0' <= s[0] <= '9')
    && forall i :: 0 <= i < |s| ==> IsIdentChar(s[i])
  }

  /** The display text of a `syn::Ident`. */
  type Ident = s: string | IsIdent(s) witness "A"

  /** The payload shape of a variant or struct: `A`, `A { .. }` or `A(..)`,
      with the number of fields. `A {}` and `A()` have zero fields but are
      still not `Unit`. */
  datatype Fields = Unit | Named(count: nat) | Unnamed(count: nat)
  {
    /** syn's `Fields::len`. */
    function Len(): nat {
      match this
      case Unit => 0
      case Named(n) => n
      case Unnamed(n) => n
    }
  }

  /** Attributes, visibility paths and discriminant expressions are kept as
      uninterpreted token text. */
  type Tokens = string

  datatype Variant = Variant(
    attrs: seq<Tokens>,
    ident: Ident,
    fields: Fields,
    discriminant: Option<Tokens>)

  datatype Data =
    | Enum(variants: seq<Variant>)
    | Struct(fields: Fields)
    | Union(namedFields: nat)

  datatype Visibility = Public | Restricted(path: Tokens) | Inherited

  datatype DeriveInput = DeriveInput(
    attrs: seq<Tokens>,
    vis: Visibility,
    ident: Ident,
    generics: seq<Ident>,
    data: Data)

  /** The identifiers of `vs`, in declaration order. */
  function Idents(vs: seq<Variant>): (r: seq<Ident>)
    ensures |r| == |vs|
  {
    seq(|vs|, i requires 0 <= i < |vs| => vs[i].ident)
  }
}
