/**
 * The JavaScript string operations the link inspector relies on, over
 * `string` (a sequence of characters): `startsWith`, `includes`, `trim`,
 * `toLowerCase`, the decimal rendering of an integer in a template literal,
 * and `Array.prototype.join`.
 */
module Text {
  import Seqs

  /** `s.startsWith(prefix)`. */
  predicate StartsWith(s: string, prefix: string)
  {
    |prefix| <= |s| && s[..|prefix|] == prefix
  }

  /** `sub` occurs in `s` starting at position `i`. */
  predicate OccursAt(s: string, sub: string, i: int)
  {
    0 <= i && i + |sub| <= |s| && s[i..i + |sub|] == sub
  }

  lemma OccursAtShift(s: string, sub: string)
    requires s != []
    ensures forall i :: OccursAt(s[1..], sub, i) ==> OccursAt(s, sub, i + 1)
    ensures forall i :: OccursAt(s, sub, i) && i > 0 ==> OccursAt(s[1..], sub, i - 1)
  {
    forall i | OccursAt(s[1..], sub, i) ensures OccursAt(s, sub, i + 1) {
      assert s[1..][i..i + |sub|] == s[i + 1..i + 1 + |sub|];
    }
    forall i | OccursAt(s, sub, i) && i > 0 ensures OccursAt(s[1..], sub, i - 1) {
      assert s[1..][i - 1..i - 1 + |sub|] == s[i..i + |sub|];
    }
  }

  /** `s.includes(sub)`, computed as a left-to-right scan. */
  function Includes(s: string, sub: string): bool
    decreases |s|
  {
    if StartsWith(s, sub) then true
    else if s == [] then false
    else Includes(s[1..], sub)
  }

  /** The scan agrees with the declarative reading "`sub` occurs somewhere in `s`". */
  lemma {:induction false} IncludesIffOccurs(s: string, sub: string)
    ensures Includes(s, sub) <==> exists i :: OccursAt(s, sub, i)
    decreases |s|
  {
    if StartsWith(s, sub) {
      assert OccursAt(s, sub, 0);
    } else if s != [] {
      OccursAtShift(s, sub);
      assert !OccursAt(s, sub, 0);
      IncludesIffOccurs(s[1..], sub);
    }
  }

  /**
   * The characters `String.prototype.trim` removes: ECMAScript WhiteSpace
   * (tab, vertical tab, form feed, space, no-break space, byte order mark and
   * the space separators of Unicode category Zs) and LineTerminator (line
   * feed, carriage return, line and paragraph separators).
   */
  predicate IsWhitespace(c: char)
  {
    c == '\t' || c == '\n' || c == '\U{000B}' || c == '\U{000C}' || c == '\r' || c == ' '
    || c == '\U{00A0}' || c == '\U{1680}' || ('\U{2000}' <= c <= '\U{200A}')
    || c == '\U{2028}' || c == '\U{2029}' || c == '\U{202F}' || c == '\U{205F}'
    || c == '\U{3000}' || c == '\U{FEFF}'
  }

  /** `s` with its leading whitespace removed. */
  function TrimStart(s: string): string
  {
    if s != [] && IsWhitespace(s[0]) then TrimStart(s[1..]) else s
  }

  /** `s` with its trailing whitespace removed. */
  function TrimEnd(s: string): string
  {
    if s != [] && IsWhitespace(s[|s| - 1]) then TrimEnd(s[..|s| - 1]) else s
  }

  /** `s.trim()`. */
  function Trim(s: string): string
  {
    TrimEnd(TrimStart(s))
  }

  /** TrimStart removes a whitespace-only prefix and stops at the first other character. */
  lemma {:induction false} TrimStartSpec(s: string)
    ensures var r := TrimStart(s);
      |r| <= |s| && r == s[|s| - |r|..]
      && (r == [] || !IsWhitespace(r[0]))
      && forall i :: 0 <= i < |s| - |r| ==> IsWhitespace(s[i])
  {
    if s != [] && IsWhitespace(s[0]) {
      var t, r := s[1..], TrimStart(s);
      TrimStartSpec(t);
      assert r == TrimStart(t);
      assert t[|t| - |r|..] == s[|s| - |r|..];
      forall i | 0 <= i < |s| - |r| ensures IsWhitespace(s[i]) {
        if i > 0 { assert s[i] == t[i - 1]; }
      }
    }
  }

  /** TrimEnd removes a whitespace-only suffix and stops at the last other character. */
  lemma {:induction false} TrimEndSpec(s: string)
    ensures var r := TrimEnd(s);
      |r| <= |s| && r == s[..|r|]
      && (r == [] || !IsWhitespace(r[|r| - 1]))
      && forall i :: |r| <= i < |s| ==> IsWhitespace(s[i])
  {
    if s != [] && IsWhitespace(s[|s| - 1]) {
      var t, r := s[..|s| - 1], TrimEnd(s);
      TrimEndSpec(t);
      assert r == TrimEnd(t);
      assert t[..|r|] == s[..|r|];
      forall i | |r| <= i < |s| ensures IsWhitespace(s[i]) {
        if i < |s| - 1 { assert s[i] == t[i]; }
      }
    }
  }

  /**
   * `s.trim()` is the piece of `s` left after removing its leading and its
   * trailing whitespace: everything before and after it is whitespace, it
   * neither starts nor ends with whitespace, and it is empty exactly when `s`
   * is all whitespace.
   */
  lemma TrimSpec(s: string)
    ensures var k := |s| - |TrimStart(s)|;
      OccursAt(s, Trim(s), k)
      && (forall i :: 0 <= i < k ==> IsWhitespace(s[i]))
      && (forall i :: k + |Trim(s)| <= i < |s| ==> IsWhitespace(s[i]))
    ensures Trim(s) == [] || (!IsWhitespace(Trim(s)[0]) && !IsWhitespace(Trim(s)[|Trim(s)| - 1]))
    ensures Trim(s) == [] <==> forall i :: 0 <= i < |s| ==> IsWhitespace(s[i])
  {
    var t := TrimStart(s);
    var r := TrimEnd(t);
    var k := |s| - |t|;
    TrimStartSpec(s);
    TrimEndSpec(t);
    assert Trim(s) == r;
    assert OccursAt(s, r, k) by {
      assert s[k..][..|r|] == s[k..k + |r|];
    }
    forall i | k + |r| <= i < |s| ensures IsWhitespace(s[i]) {
      assert s[i] == t[i - k];
    }
    if r != [] {
      assert s[k] == t[0] == r[0];
    } else if t != [] {
      // TrimStart leaves a non-whitespace character in front, which TrimEnd would keep.
      assert false;
    }
  }

  /** A one-character string is included exactly when that character occurs. */
  lemma IncludesCharIff(s: string, c: char)
    ensures Includes(s, [c]) <==> c in s
  {
    IncludesIffOccurs(s, [c]);
    if c in s {
      var i :| 0 <= i < |s| && s[i] == c;
      assert s[i..i + 1] == [c];
      assert OccursAt(s, [c], i);
    }
    if i :| OccursAt(s, [c], i) {
      assert s[i] == s[i..i + 1][0];
    }
  }

  /** A piece of the tail of a string is a piece of the whole string. */
  lemma IncludesInSuffix(a: string, b: string, sub: string)
    requires Includes(b, sub)
    ensures Includes(a + b, sub)
  {
    IncludesIffOccurs(b, sub);
    IncludesIffOccurs(a + b, sub);
    var i :| OccursAt(b, sub, i);
    assert (a + b)[|a| + i..|a| + i + |sub|] == b[i..i + |sub|];
    assert OccursAt(a + b, sub, |a| + i);
  }

  /** ASCII case folding of one character. */
  function LowerChar(c: char): (d: char)
  {
    if 'A' <= c <= 'Z' then (c as int - 'A' as int + 'a' as int) as char else c
  }

  /** `s.toLowerCase()` restricted to ASCII letters. */
  function ToLower(s: string): string
  {
    Seqs.Map(s, LowerChar)
  }

  /** `s` starts with `prefix` once both are compared with ASCII letters folded to lower case. */
  predicate StartsWithIgnoringCase(s: string, prefix: string)
  {
    |prefix| <= |s| && forall i :: 0 <= i < |prefix| ==> LowerChar(s[i]) == prefix[i]
  }

  /**
   * `s.toLowerCase().startsWith(prefix)` holds exactly when the first
   * characters of `s` fold to `prefix`, whatever their case.
   */
  lemma StartsWithLowerIff(s: string, prefix: string)
    ensures StartsWith(ToLower(s), prefix) <==> StartsWithIgnoringCase(s, prefix)
  {
    if StartsWith(ToLower(s), prefix) {
      forall i | 0 <= i < |prefix| ensures LowerChar(s[i]) == prefix[i] {
        assert ToLower(s)[..|prefix|][i] == prefix[i];
      }
    }
    if StartsWithIgnoringCase(s, prefix) {
      assert ToLower(s)[..|prefix|] == prefix;
    }
  }

  /** Lower-casing neither creates nor removes a `#`. */
  lemma IncludesHashIgnoresCase(s: string)
    ensures Includes(ToLower(s), "#") <==> Includes(s, "#")
  {
    var l := ToLower(s);
    IncludesIffOccurs(l, "#");
    IncludesIffOccurs(s, "#");
    forall i | 0 <= i < |s| ensures OccursAt(l, "#", i) <==> OccursAt(s, "#", i) {
      assert l[i..i + 1] == [l[i]];
      assert s[i..i + 1] == [s[i]];
    }
    if Includes(l, "#") {
      var i :| OccursAt(l, "#", i);
      assert OccursAt(s, "#", i);
    }
    if Includes(s, "#") {
      var i :| OccursAt(s, "#", i);
      assert OccursAt(l, "#", i);
    }
  }

  /** The decimal digit for `d`. */
  function DigitChar(d: nat): (c: char)
    requires d < 10
    ensures '0' <= c <= '9'
  {
    ('0' as int + d) as char
  }

  /** The decimal notation of `n`, most significant digit first, no leading zeros. */
  function NatToDecimal(n: nat): (s: string)
    ensures s != []
    ensures forall i :: 0 <= i < |s| ==> '0' <= s[i] <= '9'
  {
    if n < 10 then [DigitChar(n)] else NatToDecimal(n / 10) + [DigitChar(n % 10)]
  }

  /** The value of a string of decimal digits. */
  function DecimalValue(s: string): nat
    requires forall i :: 0 <= i < |s| ==> '0' <= s[i] <= '9'
  {
    if s == [] then 0
    else 10 * DecimalValue(s[..|s| - 1]) + (s[|s| - 1] as int - '0' as int)
  }

  /** How JavaScript renders an integer in a template literal, as in `HTTP ${status}`. */
  function IntToDecimal(i: int): (s: string)
    ensures s != []
  {
    if i < 0 then "-" + NatToDecimal(-i) else NatToDecimal(i)
  }

  /** An optional minus sign followed by at least one decimal digit. */
  predicate IsDecimalInt(s: string)
  {
    s != [] && (s[0] == '-' ==> |s| > 1)
    && (forall k :: 1 <= k < |s| ==> '0' <= s[k] <= '9')
    && (s[0] == '-' || '0' <= s[0] <= '9')
  }

  /** Reads back what IntToDecimal writes. */
  function ParseInt(s: string): int
    requires IsDecimalInt(s)
  {
    if s[0] == '-' then 0 - DecimalValue(s[1..]) else DecimalValue(s)
  }

  lemma {:induction false} DecimalRoundTrip(n: nat)
    ensures DecimalValue(NatToDecimal(n)) == n
  {
    if n >= 10 {
      DecimalRoundTrip(n / 10);
      var s := NatToDecimal(n);
      assert s[..|s| - 1] == NatToDecimal(n / 10);
    }
  }

  /** The decimal rendering of an integer is well formed and loses nothing. */
  lemma IntToDecimalRoundTrip(i: int)
    ensures IsDecimalInt(IntToDecimal(i)) && ParseInt(IntToDecimal(i)) == i
  {
    var s := IntToDecimal(i);
    if i < 0 {
      var d := NatToDecimal(-i);
      assert s[1..] == d;
      DecimalRoundTrip(-i);
    } else {
      DecimalRoundTrip(i);
    }
  }

  /** `xs.join(sep)`. */
  function Join(xs: seq<string>, sep: string): string
  {
    if xs == [] then ""
    else if |xs| == 1 then xs[0]
    else Join(xs[..|xs| - 1], sep) + sep + xs[|xs| - 1]
  }

  /** Every joined piece occurs in the joined string. */
  lemma {:induction false} JoinIncludesEach(xs: seq<string>, sep: string, k: nat)
    requires k < |xs|
    ensures Includes(Join(xs, sep), xs[k])
  {
    var j := Join(xs, sep);
    IncludesIffOccurs(j, xs[k]);
    if |xs| == 1 {
      assert OccursAt(j, xs[k], 0);
    } else {
      var init := xs[..|xs| - 1];
      var head := Join(init, sep) + sep;
      assert j == head + xs[|xs| - 1];
      if k == |xs| - 1 {
        assert j[|head|..|head| + |xs[k]|] == xs[k];
        assert OccursAt(j, xs[k], |head|);
      } else {
        JoinIncludesEach(init, sep, k);
        IncludesIffOccurs(Join(init, sep), init[k]);
        var i :| OccursAt(Join(init, sep), init[k], i);
        assert j[i..i + |xs[k]|] == Join(init, sep)[i..i + |xs[k]|];
        assert OccursAt(j, xs[k], i);
      }
    }
  }
}
