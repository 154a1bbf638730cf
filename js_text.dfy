/**
 * The ECMAScript string primitives the gateway relies on, stated on `seq<char>`:
 * the white-space set shared by `\s` and `String.prototype.trim`, ASCII case folding,
 * prefix, suffix and substring tests, first-occurrence search and replacement, and
 * `parseInt` with no radix argument.
 */
module JsText {
  import opened Wrappers

  /** WhiteSpace and LineTerminator code points (ECMA-262, sections 12.2 and 12.3):
      the characters `\s` matches and `trim` removes. */
  predicate IsJsSpace(c: char) {
    c == '\t' || c == '\n' || c == '\U{B}' || c == '\U{C}' || c == '\r' || c == ' '
    || c == '\U{A0}' || c == '\U{1680}' || ('\U{2000}' <= c <= '\U{200A}')
    || c == '\U{2028}' || c == '\U{2029}' || c == '\U{202F}' || c == '\U{205F}'
    || c == '\U{3000}' || c == '\U{FEFF}'
  }

  /** Length of the maximal white-space prefix of `s`. */
  function LeadingSpace(s: string): (n: nat)
    ensures n <= |s|
    ensures forall k :: 0 <= k < n ==> IsJsSpace(s[k])
    ensures n < |s| ==> !IsJsSpace(s[n])
  {
    if s != [] && IsJsSpace(s[0]) then 1 + LeadingSpace(s[1..]) else 0
  }

  /** Length of the maximal white-space suffix of `s`. */
  function TrailingSpace(s: string): (n: nat)
    ensures n <= |s|
    ensures forall k :: |s| - n <= k < |s| ==> IsJsSpace(s[k])
    ensures n < |s| ==> !IsJsSpace(s[|s| - 1 - n])
  {
    if s != [] && IsJsSpace(s[|s| - 1]) then 1 + TrailingSpace(s[..|s| - 1]) else 0
  }

  /** `String.prototype.trim`. */
  function Trim(s: string): (r: string)
    ensures |r| <= |s|
    ensures r == [] || (!IsJsSpace(r[0]) && !IsJsSpace(r[|r| - 1]))
    ensures LeadingSpace(s) + |r| <= |s| && r == s[LeadingSpace(s)..LeadingSpace(s) + |r|]
    ensures forall k :: LeadingSpace(s) + |r| <= k < |s| ==> IsJsSpace(s[k])
  {
    var t := s[LeadingSpace(s)..];
    var r := t[..|t| - TrailingSpace(t)];
    assert r == s[LeadingSpace(s)..LeadingSpace(s) + |r|];
    r
  }

  /** Text with no white space at either end is its own trim. */
  lemma TrimUnchanged(s: string)
    requires s == [] || (!IsJsSpace(s[0]) && !IsJsSpace(s[|s| - 1]))
    ensures Trim(s) == s
  {
    assert LeadingSpace(s) == 0 && s[0..] == s;
    assert TrailingSpace(s) == 0;
  }

  /** One character of `toLowerCase`, for the ASCII letters: a capital becomes the small
      letter at the same place in the alphabet, and no capital is left. */
  function LowerChar(c: char): (r: char)
    ensures !('A' <= r <= 'Z')
    ensures 'A' <= c <= 'Z' ==> 'a' <= r <= 'z' && r as int - 'a' as int == c as int - 'A' as int
    ensures !('A' <= c <= 'Z') ==> r == c
  {
    if 'A' <= c <= 'Z' then (c as int + 32) as char else c
  }

  /** `toLowerCase`, for the ASCII letters: the same length, no capital left, and every
      character other than a capital kept where it is. */
  function Lower(s: string): (r: string)
    ensures |r| == |s|
    ensures forall i :: 0 <= i < |r| ==> !('A' <= r[i] <= 'Z')
    ensures forall i :: 0 <= i < |s| && !('A' <= s[i] <= 'Z') ==> r[i] == s[i]
    ensures forall i :: 0 <= i < |s| ==> r[i] == LowerChar(s[i])
  {
    seq(|s|, i requires 0 <= i < |s| => LowerChar(s[i]))
  }

  /** Lowercasing twice is lowercasing once. */
  lemma LowerIdempotent(s: string)
    ensures Lower(Lower(s)) == Lower(s)
  {
    var r := Lower(s);
    assert forall i :: 0 <= i < |r| ==> Lower(r)[i] == r[i];
  }

  /** Text after a prefix ending in a non-space character starts where it did. */
  lemma {:induction false} LeadingSpaceAppend(u: string, x: string)
    requires u != [] && !IsJsSpace(u[|u| - 1])
    ensures LeadingSpace(u + x) == LeadingSpace(u)
  {
    if IsJsSpace(u[0]) {
      assert (u + x)[1..] == u[1..] + x;
      LeadingSpaceAppend(u[1..], x);
    }
  }

  /** Text before a suffix starting with a non-space character ends where it did. */
  lemma {:induction false} TrailingSpacePrepend(x: string, v: string)
    requires v != [] && !IsJsSpace(v[0])
    ensures TrailingSpace(x + v) == TrailingSpace(v)
    decreases |v|
  {
    if IsJsSpace(v[|v| - 1]) {
      assert (x + v)[..|x + v| - 1] == x + v[..|v| - 1];
      TrailingSpacePrepend(x, v[..|v| - 1]);
    }
  }

  /** Trimming a text that has non-space characters on both sides of a middle part trims
      only the two outer parts. */
  lemma TrimJoin(u: string, m: string, v: string)
    requires u != [] && !IsJsSpace(u[|u| - 1])
    requires v != [] && !IsJsSpace(v[0])
    ensures Trim(u + m + v) == Trim(u) + m + Trim(v)
    ensures Trim(u) != [] && Trim(v) != []
  {
    TrimOfNonSpaceEnd(u);
    TrimOfNonSpaceStart(v);
    JoinedSpace(u, m, v);
    JoinSlices(u, m, v, LeadingSpace(u), TrailingSpace(v));
    TrimBy(u + m + v, LeadingSpace(u), TrailingSpace(v));
  }

  /** The white space at the ends of such a text is that of its outer parts. */
  lemma JoinedSpace(u: string, m: string, v: string)
    requires u != [] && !IsJsSpace(u[|u| - 1])
    requires v != [] && !IsJsSpace(v[0])
    ensures LeadingSpace(u + m + v) == LeadingSpace(u) <= |u|
    ensures TrailingSpace((u + m + v)[LeadingSpace(u)..]) == TrailingSpace(v)
  {
    var l := LeadingSpace(u);
    LeadingSpaceAppend(u, m + v);
    assert u + (m + v) == u + m + v;
    assert (u + m + v)[l..] == u[l..] + m + v;
    TrailingSpacePrepend(u[l..] + m, v);
  }

  lemma TrimBy(s: string, l: nat, n: nat)
    requires l <= |s| && LeadingSpace(s) == l && TrailingSpace(s[l..]) == n
    ensures Trim(s) == s[l..][..|s| - l - n]
  {
    TrimUnfold(s);
  }

  /** Text ending in a non-space character loses only its leading white space. */
  lemma TrimOfNonSpaceEnd(u: string)
    requires u != [] && !IsJsSpace(u[|u| - 1])
    ensures LeadingSpace(u) < |u| && Trim(u) == u[LeadingSpace(u)..]
  {
    var l := LeadingSpace(u);
    assert l < |u|;
    assert TrailingSpace(u[l..]) == 0;
    TrimUnfold(u);
  }

  /** Text starting with a non-space character loses only its trailing white space. */
  lemma TrimOfNonSpaceStart(v: string)
    requires v != [] && !IsJsSpace(v[0])
    ensures TrailingSpace(v) < |v| && Trim(v) == v[..|v| - TrailingSpace(v)]
  {
    assert LeadingSpace(v) == 0 && v[0..] == v;
    TrimUnfold(v);
  }

  lemma TrimUnfold(s: string)
    ensures Trim(s) == s[LeadingSpace(s)..][..|s| - LeadingSpace(s) - TrailingSpace(s[LeadingSpace(s)..])]
  {
  }

  lemma JoinSlices(u: string, m: string, v: string, l: nat, n: nat)
    requires l < |u| && n < |v|
    ensures (u + m + v)[l..][..|u + m + v| - l - n] == u[l..] + m + v[..|v| - n]
    ensures (u + m + v)[l..] == u[l..] + m + v
  {
  }

  /** `s.startsWith(p)`. */
  predicate StartsWith(s: string, p: string) {
    |p| <= |s| && s[..|p|] == p
  }

  /** `s.endsWith(p)`. */
  predicate EndsWith(s: string, p: string) {
    |p| <= |s| && s[|s| - |p|..] == p
  }

  /** Whether `t` occurs in `s`: `s.includes(t)`, or a regular expression made only of
      literal characters matching somewhere in `s`. */
  predicate Contains(s: string, t: string)
    decreases |s|
  {
    StartsWith(s, t) || (s != [] && Contains(s[1..], t))
  }

  /** A string never contains a longer one. */
  lemma {:induction false} ShorterNeverContains(s: string, t: string)
    requires |s| < |t|
    ensures !Contains(s, t)
    decreases |s|
  {
    if s != [] {
      ShorterNeverContains(s[1..], t);
    }
  }

  /** A string contains a one-character string only if that character occurs in it. */
  lemma {:induction false} AbsentCharNotContained(s: string, c: char)
    requires forall k :: 0 <= k < |s| ==> s[k] != c
    ensures !Contains(s, [c])
    decreases |s|
  {
    if s != [] {
      assert s[..1][0] == s[0];
      AbsentCharNotContained(s[1..], c);
    }
  }

  /** `s.indexOf(t)`, with `None` for -1. */
  function IndexOf(s: string, t: string): (r: Option<nat>)
    ensures r.Some? ==> r.value + |t| <= |s| && s[r.value..r.value + |t|] == t
    ensures r.Some? ==> forall k :: 0 <= k < r.value ==> !StartsWith(s[k..], t)
    ensures r.None? <==> !Contains(s, t)
    decreases |s|
  {
    if StartsWith(s, t) then Some(0)
    else if s == [] then None
    else match IndexOf(s[1..], t)
      case None => None
      case Some(i) =>
        assert forall k :: 1 <= k <= i ==> s[k..] == s[1..][k - 1..];
        Some(i + 1)
  }

  /** `s.replace(pat, rep)` with a string pattern: only the first occurrence is replaced. */
  function ReplaceFirst(s: string, pat: string, rep: string): (r: string)
    ensures !Contains(s, pat) ==> r == s
    ensures Contains(s, pat) ==>
              var i := IndexOf(s, pat).value;
              |r| == |s| - |pat| + |rep| && r[..i] == s[..i] && r[i..i + |rep|] == rep
              && r[i + |rep|..] == s[i + |pat|..]
  {
    match IndexOf(s, pat)
    case None => s
    case Some(i) => s[..i] + rep + s[i + |pat|..]
  }

  lemma {:induction false} ContainsAt(s: string, t: string, i: nat)
    requires i + |t| <= |s| && s[i..i + |t|] == t
    ensures Contains(s, t)
  {
    if i > 0 {
      assert s[1..][i - 1..i - 1 + |t|] == t;
      ContainsAt(s[1..], t, i - 1);
    }
  }

  /** A string that agrees with `s` before `i`, holds `rep` at `i` and agrees with `s`
      from `i + m` on after it is that splice. */
  lemma Splice(r: string, s: string, i: nat, rep: string, m: nat)
    requires i + |rep| <= |r| && i + m <= |s| && i <= |s|
    requires r[..i] == s[..i] && r[i..i + |rep|] == rep && r[i + |rep|..] == s[i + m..]
    ensures r == s[..i] + rep + s[i + m..]
  {
    assert r == r[..i] + r[i..i + |rep|] + r[i + |rep|..];
  }

  /** A string contains every part of a string it contains. */
  lemma ContainsPart(r: string, rep: string, i: nat, part: string, offset: nat)
    requires i + |rep| <= |r| && r[i..i + |rep|] == rep
    requires offset + |part| <= |rep| && rep[offset..offset + |part|] == part
    ensures Contains(r, part)
  {
    forall k | 0 <= k < |part| ensures r[i + offset + k] == part[k] {
      assert part[k] == rep[offset..offset + |part|][k] == rep[offset + k];
      assert rep[offset + k] == r[i..i + |rep|][offset + k] == r[i + offset + k];
    }
    assert r[i + offset..i + offset + |part|] == part;
    ContainsAt(r, part, i + offset);
  }

  /** The value of `c` as a digit of any radix up to 36, if it is one. */
  function DigitValue(c: char): Option<nat> {
    if '0' <= c <= '9' then Some(c as int - '0' as int)
    else if 'a' <= c <= 'z' then Some(c as int - 'a' as int + 10)
    else if 'A' <= c <= 'Z' then Some(c as int - 'A' as int + 10)
    else None
  }

  predicate IsDigit(c: char, radix: nat) {
    DigitValue(c).Some? && DigitValue(c).value < radix
  }

  /** The longest prefix of `s` made of digits of `radix`. */
  function DigitRun(s: string, radix: nat): (r: string)
    ensures |r| <= |s| && r == s[..|r|]
    ensures forall k :: 0 <= k < |r| ==> IsDigit(r[k], radix)
    ensures |r| < |s| ==> !IsDigit(s[|r|], radix)
  {
    if s != [] && IsDigit(s[0], radix) then [s[0]] + DigitRun(s[1..], radix) else []
  }

  /** The number a run of digits denotes in `radix`, most significant digit first. */
  function DigitsValue(ds: string, radix: nat): nat
    requires forall k :: 0 <= k < |ds| ==> IsDigit(ds[k], radix)
  {
    if ds == [] then 0
    else
      var init := ds[..|ds| - 1];
      var last := ds[|ds| - 1];
      assert forall k :: 0 <= k < |init| ==> init[k] == ds[k];
      assert IsDigit(last, radix);
      var high := DigitsValue(init, radix);
      MulNonNegative(high, radix);
      high * radix + DigitValue(last).value
  }

  lemma MulNonNegative(x: nat, y: nat)
    ensures x * y >= 0
  {
  }

  /** `parseInt(s)` with no radix: leading white space is skipped, one sign is read, a
      `0x`/`0X` prefix selects radix 16, and the longest run of digits that follows is the
      value; `None` is NaN, returned when that run is empty. */
  function ParseInt(s: string): (r: Option<int>)
    ensures r.None? <==> DigitRun(IntegerBody(s).1, IntegerBody(s).0) == []
    ensures r.Some? && r.value < 0 ==> var t := s[LeadingSpace(s)..]; t != [] && t[0] == '-'
  {
    var t := s[LeadingSpace(s)..];
    var negative := t != [] && t[0] == '-';
    var (radix, body) := IntegerBody(s);
    var ds := DigitRun(body, radix);
    if ds == [] then None
    else if negative then Some(-(DigitsValue(ds, radix) as int))
    else Some(DigitsValue(ds, radix))
  }

  /** The radix `parseInt` settles on and the text its digits are read from. */
  function IntegerBody(s: string): (nat, string) {
    var t := s[LeadingSpace(s)..];
    var u := if t != [] && (t[0] == '+' || t[0] == '-') then t[1..] else t;
    if StartsWith(u, "0x") || StartsWith(u, "0X") then (16, u[2..]) else (10, u)
  }

  /** The decimal numeral of `n`, without leading zeros. */
  function Decimal(n: nat): (r: string)
    ensures r != [] && forall k :: 0 <= k < |r| ==> '0' <= r[k] <= '9'
  {
    var d := ['0' + (n % 10) as char];
    if n < 10 then d else Decimal(n / 10) + d
  }

  lemma {:induction false} DigitRunOfDigits(ds: string, rest: string, radix: nat)
    requires forall k :: 0 <= k < |ds| ==> IsDigit(ds[k], radix)
    requires rest == [] || !IsDigit(rest[0], radix)
    ensures DigitRun(ds + rest, radix) == ds
  {
    if ds != [] {
      assert (ds + rest)[1..] == ds[1..] + rest;
      DigitRunOfDigits(ds[1..], rest, radix);
    }
  }

  lemma {:induction false} DecimalValue(n: nat)
    ensures forall k :: 0 <= k < |Decimal(n)| ==> IsDigit(Decimal(n)[k], 10)
    ensures DigitsValue(Decimal(n), 10) == n
  {
    var r := Decimal(n);
    if n >= 10 {
      DecimalValue(n / 10);
      assert r[..|r| - 1] == Decimal(n / 10);
    }
  }

  /** `parseInt` reads back the numeral a CSS pixel length such as `"7px"` starts with. */
  lemma {:induction false} ParseIntPixels(n: nat)
    ensures ParseInt(Decimal(n) + "px") == Some(n)
  {
    var d := Decimal(n);
    var s := d + "px";
    DecimalValue(n);
    assert s[0] == d[0] && '0' <= s[0] <= '9';
    assert LeadingSpace(s) == 0;
    assert s[0..] == s;
    assert s[1] == 'p' || '0' <= s[1] <= '9' by {
      if |d| == 1 { assert s[1] == 'p'; } else { assert s[1] == d[1]; }
    }
    assert s[..2] != "0x" && s[..2] != "0X" by { assert s[..2][1] == s[1]; }
    assert IntegerBody(s) == (10, s);
    assert !IsDigit('p', 10);
    DigitRunOfDigits(d, "px", 10);
  }
}
