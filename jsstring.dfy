/**
 * The JavaScript string primitives the app's list logic is built from:
 * `toLowerCase`, `includes`, `replace` with a one-character pattern,
 * `split(sep)[0]`, `parseInt` with no radix, and `||` on an optional string.
 */
module JsString {
  import opened Wrappers

  // ---------------------------------------------------------------------
  // String.prototype.toLowerCase

  /** Lower-case mapping of one character: ASCII `A`-`Z` and the Latin-1
      capitals U+00C0..U+00DE (all but U+00D7, the multiplication sign)
      move up by 0x20; every other character is left as it is. */
  function LowerChar(c: char): char
  {
    if 'A' <= c <= 'Z' || (0xC0 <= c as int <= 0xDE && c as int != 0xD7) then
      (c as int + 0x20) as char
    else
      c
  }

  function ToLower(s: string): (r: string)
    ensures |r| == |s|
    ensures forall i :: 0 <= i < |s| ==> r[i] == LowerChar(s[i])
  {
    seq(|s|, i requires 0 <= i < |s| => LowerChar(s[i]))
  }

  /** Lower-casing twice is lower-casing once. */
  lemma ToLowerIdempotent(s: string)
    ensures ToLower(ToLower(s)) == ToLower(s)
  {
    assert forall i :: 0 <= i < |s| ==> LowerChar(LowerChar(s[i])) == LowerChar(s[i]);
  }

  // ---------------------------------------------------------------------
  // String.prototype.includes

  /** `needle` occurs in `hay` starting at position `i`. */
  ghost predicate OccursAt(hay: string, needle: string, i: nat)
  {
    i + |needle| <= |hay| && hay[i..i + |needle|] == needle
  }

  /** `hay.includes(needle)`, scanning the start positions from left to right. */
  function Includes(hay: string, needle: string): bool
    decreases |hay|
  {
    if |needle| > |hay| then false
    else if hay[..|needle|] == needle then true
    else Includes(hay[1..], needle)
  }

  /** `includes` holds exactly when the needle occurs at some position. */
  lemma {:induction false} IncludesIffOccurs(hay: string, needle: string)
    ensures Includes(hay, needle) <==> exists i: nat :: OccursAt(hay, needle, i)
    decreases |hay|
  {
    if |needle| > |hay| {
    } else if hay[..|needle|] == needle {
      assert OccursAt(hay, needle, 0);
    } else {
      IncludesIffOccurs(hay[1..], needle);
      if Includes(hay[1..], needle) {
        var i: nat :| OccursAt(hay[1..], needle, i);
        assert hay[1..][i..i + |needle|] == hay[i + 1..i + 1 + |needle|];
        assert OccursAt(hay, needle, i + 1);
      } else {
        forall i: nat | OccursAt(hay, needle, i)
          ensures false
        {
          assert i != 0;
          assert hay[1..][i - 1..i - 1 + |needle|] == hay[i..i + |needle|];
          assert OccursAt(hay[1..], needle, i - 1);
        }
      }
    }
  }

  /** Every string includes the empty string. */
  lemma IncludesEmpty(hay: string)
    ensures Includes(hay, "")
  {
  }

  // ---------------------------------------------------------------------
  // String.prototype.replace with a one-character string pattern

  /** `s.replace(c, with)`: only the FIRST occurrence of `c` is replaced. */
  function ReplaceFirst(s: string, c: char, with: string): string
  {
    if s == [] then []
    else if s[0] == c then with + s[1..]
    else [s[0]] + ReplaceFirst(s[1..], c, with)
  }

  /** Replacing at the first occurrence: `p + [c] + q` with `c` not in `p`
      becomes `p + with + q`; a string without `c` is returned unchanged. */
  lemma {:induction false} ReplaceFirstAt(p: string, c: char, q: string, with: string)
    requires c !in p
    ensures ReplaceFirst(p + [c] + q, c, with) == p + with + q
    ensures ReplaceFirst(p, c, with) == p
  {
    if p != [] {
      ReplaceFirstAt(p[1..], c, q, with);
      assert (p + [c] + q)[1..] == p[1..] + [c] + q;
    } else {
      assert (p + [c] + q)[1..] == q;
    }
  }

  // ---------------------------------------------------------------------
  // String.prototype.split(sep)[0]

  /** The first piece of `s.split(sep)`: the text before the first `sep`,
      or all of `s` when there is none. */
  function BeforeFirst(s: string, sep: char): (r: string)
    ensures sep !in r
    ensures |r| <= |s| && r == s[..|r|]
    ensures |r| < |s| ==> s[|r|] == sep
  {
    if s == [] || s[0] == sep then [] else [s[0]] + BeforeFirst(s[1..], sep)
  }

  /** Splitting at the first separator: the piece before it is `p` when `p`
      holds no separator. */
  lemma BeforeFirstAt(p: string, sep: char, q: string)
    requires sep !in p
    ensures BeforeFirst(p + [sep] + q, sep) == p
  {
    var s := p + [sep] + q;
    assert s[|p|] == sep;
    assert s[..|p|] == p;
  }

  // ---------------------------------------------------------------------
  // `x || d` for a string that may be undefined

  /** `o || d`: the value when it is defined and non-empty (truthy), else `d`. */
  function OrElse(o: Option<string>, d: string): (r: string)
    ensures o.Some? && o.value != "" ==> r == o.value
    ensures o.None? || o.value == "" ==> r == d
  {
    if o.Some? && o.value != "" then o.value else d
  }

  // ---------------------------------------------------------------------
  // parseInt(s) with no radix argument

  /** The code points the ECMAScript grammar counts as white space or line
      terminators (StrWhiteSpaceChar), which `parseInt` skips at the start. */
  predicate IsJsSpace(c: char)
  {
    var n := c as int;
    n == 0x09 || n == 0x0A || n == 0x0B || n == 0x0C || n == 0x0D || n == 0x20
    || n == 0xA0 || n == 0x1680 || (0x2000 <= n <= 0x200A) || n == 0x2028
    || n == 0x2029 || n == 0x202F || n == 0x205F || n == 0x3000 || n == 0xFEFF
  }

  /** `s` without its leading white space. */
  function TrimStart(s: string): (r: string)
    ensures |r| <= |s| && r == s[|s| - |r|..]
    ensures r == [] || !IsJsSpace(r[0])
    ensures forall i :: 0 <= i < |s| - |r| ==> IsJsSpace(s[i])
  {
    if s != [] && IsJsSpace(s[0]) then TrimStart(s[1..]) else s
  }

  /** The value of a digit character in radix 36 (`0`-`9`, then `a`-`z` or
      `A`-`Z`); 36 for a character that is no digit at all. */
  function DigitValue(c: char): (d: nat)
    ensures d <= 36
    ensures '0' <= c <= '9' ==> d == c as int - '0' as int
  {
    if '0' <= c <= '9' then c as int - '0' as int
    else if 'a' <= c <= 'z' then c as int - 'a' as int + 10
    else if 'A' <= c <= 'Z' then c as int - 'A' as int + 10
    else 36
  }

  predicate IsDigit(c: char, radix: nat)
  {
    DigitValue(c) < radix
  }

  /** The longest prefix of `s` made of radix-`radix` digits. */
  function LeadingDigits(s: string, radix: nat): (z: string)
    ensures |z| <= |s| && z == s[..|z|]
    ensures forall i :: 0 <= i < |z| ==> IsDigit(z[i], radix)
    ensures |z| < |s| ==> !IsDigit(s[|z|], radix)
  {
    if s != [] && IsDigit(s[0], radix) then [s[0]] + LeadingDigits(s[1..], radix) else []
  }

  /** The value of a digit string, most significant digit first. */
  function DigitsValue(z: string, radix: nat): nat
  {
    if z == [] then 0
    else DigitsValue(z[..|z| - 1], radix) * radix + (if DigitValue(z[|z| - 1]) < radix then DigitValue(z[|z| - 1]) else 0)
  }

  /** The value of the longest run of radix-`radix` digits at the front of
      `u`; `None` when there is none. */
  function ParseDigits(u: string, radix: nat): Option<nat>
  {
    var z := LeadingDigits(u, radix);
    if z == [] then None else Some(DigitsValue(z, radix))
  }

  /** `u` starts with the `0x` or `0X` prefix of a hexadecimal literal. */
  predicate HexPrefixed(u: string)
  {
    |u| >= 2 && u[0] == '0' && (u[1] == 'x' || u[1] == 'X')
  }

  /** `parseInt(s)`: skip leading white space, read one optional sign, read a
      `0x`/`0X` prefix as radix 16 (else radix 10), then take the longest run
      of digits; `None` stands for NaN (no digit at all). */
  function ParseInt(s: string): Option<int>
  {
    var t := TrimStart(s);
    var negative := t != [] && t[0] == '-';
    var u := if t != [] && (t[0] == '-' || t[0] == '+') then t[1..] else t;
    var magnitude := if HexPrefixed(u) then ParseDigits(u[2..], 16) else ParseDigits(u, 10);
    match magnitude
    case None => None
    case Some(n) => Some(if negative then -(n as int) else n)
  }

  predicate IsDecimal(d: string)
  {
    forall i :: 0 <= i < |d| ==> '0' <= d[i] <= '9'
  }

  /** A run of decimal digits followed by text that does not continue it
      parses to the run's value; the one exception, `"0"` followed by `x` or
      `X`, is the hexadecimal prefix. */
  lemma ParseDecimalPrefix(d: string, rest: string)
    requires d != [] && IsDecimal(d)
    requires rest == [] || !('0' <= rest[0] <= '9')
    requires !(d == "0" && rest != [] && (rest[0] == 'x' || rest[0] == 'X'))
    ensures ParseInt(d + rest) == Some(DigitsValue(d, 10))
  {
    var s := d + rest;
    assert s[0] == d[0];
    assert !HexPrefixed(s) by {
      if |d| >= 2 {
        assert s[1] == d[1];
      } else if rest != [] {
        assert s[1] == rest[0];
      }
    }
    LeadingDecimal(d, rest);
    ParseDigitLed(s);
  }

  /** A string that starts with a decimal digit and no `0x` prefix parses
      to the value of its leading digits. */
  lemma ParseDigitLed(s: string)
    requires s != [] && '0' <= s[0] <= '9'
    requires !HexPrefixed(s)
    ensures ParseInt(s) == Some(DigitsValue(LeadingDigits(s, 10), 10))
  {
    assert TrimStart(s) == s;
    assert IsDigit(s[0], 10);
  }

  /** The digits at the front of `d + rest` are `d` when `rest` does not
      start with a digit. */
  lemma {:induction false} LeadingDecimal(d: string, rest: string)
    requires IsDecimal(d)
    requires rest == [] || !('0' <= rest[0] <= '9')
    ensures LeadingDigits(d + rest, 10) == d
  {
    if d != [] {
      assert (d + rest)[0] == d[0];
      assert (d + rest)[1..] == d[1..] + rest;
      LeadingDecimal(d[1..], rest);
    } else {
      assert d + rest == rest;
    }
  }

  /** A string whose first character is neither white space, a sign nor a
      decimal digit is NaN to `parseInt`, and so is the empty string. */
  lemma ParseNotDigitLed(s: string)
    requires s == [] || (!IsJsSpace(s[0]) && s[0] != '-' && s[0] != '+' && !('0' <= s[0] <= '9'))
    ensures ParseInt(s) == None
  {
    if s != [] {
      assert TrimStart(s) == s;
    }
  }
}
