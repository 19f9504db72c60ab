/** Text utilities the macro relies on: Rust's `[String]::join`, `str::split`
    (its inverse), prefix tests, and the decimal rendering `format!("{}", n)`
    uses for a `usize`. */
module Text {
  import opened Wrappers

  /** `p` is a prefix of `s`. */
  predicate IsPrefix(p: string, s: string) {
    |p| <= |s| && s[..|p|] == p
  }

  /** `pat` occurs in `s` starting at index `i`. */
  predicate OccursAt(s: string, pat: string, i: nat) {
    i + |pat| <= |s| && s[i..i + |pat|] == pat
  }

  predicate Contains(s: string, pat: string) {
    exists i: nat :: i <= |s| && OccursAt(s, pat, i)
  }

  /** No proper suffix of `sep` is also a prefix of it, so two occurrences of
      `sep` can never overlap. ", " has this property. */
  predicate OverlapFree(sep: string) {
    forall k: nat :: 0 < k < |sep| ==> !IsPrefix(sep[k..], sep)
  }

  /** The leftmost occurrence of `pat` in `s` at or after index `from`. */
  function FindFrom(s: string, pat: string, from: nat): (r: Option<nat>)
    requires |pat| > 0
    ensures r.Some? ==> from <= r.value && OccursAt(s, pat, r.value)
    ensures r.Some? ==> forall j: nat :: from <= j < r.value ==> !OccursAt(s, pat, j)
    ensures r.None? ==> forall j: nat :: from <= j ==> !OccursAt(s, pat, j)
    decreases |s| - from
  {
    if |s| < from + |pat| then None
    else if OccursAt(s, pat, from) then Some(from)
    else FindFrom(s, pat, from + 1)
  }

  /** The summed length of `parts`. */
  function TotalLength(parts: seq<string>): nat {
    if |parts| == 0 then 0 else |parts[0]| + TotalLength(parts[1..])
  }

  /** `parts` joined with `sep` between neighbours, as Rust's `join`: the
      empty list joins to "", and otherwise the text starts with the first
      part and holds every part plus one separator per neighbouring pair. */
  function Join(parts: seq<string>, sep: string): (r: string)
    ensures |parts| == 0 ==> r == ""
    ensures |parts| > 0 ==> IsPrefix(parts[0], r)
    ensures |parts| > 0 ==> |r| == TotalLength(parts) + (|parts| - 1) * |sep|
  {
    if |parts| == 0 then ""
    else if |parts| == 1 then parts[0]
    else parts[0] + sep + Join(parts[1..], sep)
  }

  /** `s` cut at every leftmost, non-overlapping occurrence of `sep`, as
      Rust's `str::split`: "" splits to [""]. */
  function Split(s: string, sep: string): (r: seq<string>)
    requires |sep| > 0
    ensures |r| > 0
    decreases |s|
  {
    match FindFrom(s, sep, 0)
    case None => [s]
    case Some(i) => [s[..i]] + Split(s[i + |sep|..], sep)
  }

  /** The text after `prefix` when `s` starts with it. */
  function StripPrefix(prefix: string, s: string): (r: Option<string>)
    ensures r.Some? <==> IsPrefix(prefix, s)
    ensures r.Some? ==> prefix + r.value == s
  {
    if IsPrefix(prefix, s) then Some(s[|prefix|..]) else None
  }

  /** Cutting `a + b` at `|a|` gives back `a` and `b`. */
  lemma CutConcat(a: string, b: string)
    ensures (a + b)[..|a|] == a && (a + b)[|a|..] == b
  {
  }

  /** In `p + sep + rest`, when `p` does not contain `sep`, the first
      occurrence of `sep` is the one right after `p`. */
  lemma FirstOccurrenceAfter(p: string, sep: string, rest: string)
    requires |sep| > 0 && OverlapFree(sep)
    requires !Contains(p, sep)
    ensures FindFrom(p + sep + rest, sep, 0) == Some(|p|)
  {
    var s := p + sep + rest;
    assert s[|p|..|p| + |sep|] == sep;
    assert OccursAt(s, sep, |p|);
    forall j: nat | j < |p|
      ensures !OccursAt(s, sep, j)
    {
      if j + |sep| <= |p| {
        assert s[j..j + |sep|] == p[j..j + |sep|];
        assert !OccursAt(p, sep, j);
      } else {
        // an occurrence straddling the end of `p` would make a proper
        // suffix of `sep` a prefix of it
        var k: nat := |p| - j;
        var w := s[j..j + |sep|];
        assert w[k..] == sep[..|sep| - k];
        assert !IsPrefix(sep[k..], sep);
        assert w[k..] != sep[k..];
      }
    }
  }

  /** When `t` starts with the single character `c` and `p` does not
      contain it, the first `c` in `p + t + rest` is the one that opens `t`. */
  lemma FirstOccurrenceOfLead(p: string, c: string, t: string, rest: string)
    requires |c| == 1 && IsPrefix(c, t)
    requires !Contains(p, c)
    ensures FindFrom(p + t + rest, c, 0) == Some(|p|)
    ensures (p + t + rest)[..|p|] == p && (p + t + rest)[|p|..] == t + rest
  {
    assert t == c + t[1..];
    assert p + t + rest == p + c + (t[1..] + rest);
    FirstOccurrenceAfter(p, c, t[1..] + rest);
    assert p + t + rest == p + (t + rest);
    CutConcat(p, t + rest);
  }

  /** Splitting on a separator undoes joining with it, provided no part
      contains the separator and the separator cannot overlap itself. */
  lemma {:induction false} SplitJoin(parts: seq<string>, sep: string)
    requires |parts| > 0
    requires |sep| > 0 && OverlapFree(sep)
    requires forall i :: 0 <= i < |parts| ==> !Contains(parts[i], sep)
    ensures Split(Join(parts, sep), sep) == parts
  {
    if |parts| == 1 {
      assert !Contains(parts[0], sep);
      assert FindFrom(parts[0], sep, 0) == None;
    } else {
      var p := parts[0];
      var rest := Join(parts[1..], sep);
      var s := p + sep + rest;
      assert Join(parts, sep) == s;
      assert !Contains(p, sep);
      FirstOccurrenceAfter(p, sep, rest);
      assert s[..|p|] == p;
      assert s[|p| + |sep|..] == rest;
      SplitJoin(parts[1..], sep);
      assert Split(s, sep) == [p] + parts[1..];
    }
  }

  predicate IsDigit(c: char) {
    '0' <= c <= '9'
  }

  predicate AllDigits(s: string) {
    forall i :: 0 <= i < |s| ==> IsDigit(s[i])
  }

  function DigitChar(d: nat): (c: char)
    requires d < 10
    ensures IsDigit(c)
  {
    ('0' as int + d) as char
  }

  function DigitValue(c: char): (d: nat)
    requires IsDigit(c)
    ensures d < 10 && DigitChar(d) == c
  {
    c as int - '0' as int
  }

  /** The decimal rendering of `n`: digits only, with no leading zero
      except for 0 itself. */
  function NatToDecimal(n: nat): (r: string)
    ensures |r| > 0 && AllDigits(r)
    ensures r[0] == '0' <==> n == 0
  {
    if n < 10 then [DigitChar(n)] else NatToDecimal(n / 10) + [DigitChar(n % 10)]
  }

  /** The value of a string of decimal digits (the empty string is 0). */
  function DecimalToNat(s: string): nat
    requires AllDigits(s)
  {
    if |s| == 0 then 0 else DecimalToNat(s[..|s| - 1]) * 10 + DigitValue(s[|s| - 1])
  }

  /** Reading back the decimal rendering of `n` gives `n`. */
  lemma {:induction false} DecimalRoundTrip(n: nat)
    ensures DecimalToNat(NatToDecimal(n)) == n
  {
    var r := NatToDecimal(n);
    if n < 10 {
      assert r[..|r| - 1] == [];
    } else {
      var hi := NatToDecimal(n / 10);
      assert r == hi + [DigitChar(n % 10)];
      assert r[..|r| - 1] == hi;
      DecimalRoundTrip(n / 10);
    }
  }
}
