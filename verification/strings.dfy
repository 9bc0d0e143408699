/** The handful of JavaScript string primitives the handlers rely on:
    `length` (UTF-16 code units), `trim`, `includes`/`contains`,
    `toUpperCase` on ASCII letters, and code-unit ordering. */
module Strings {

  /** Characters outside the Basic Multilingual Plane occupy two UTF-16 code units. */
  function CodeUnits(c: char): nat
  {
    if c as int > 0xFFFF then 2 else 1
  }

  /** The value of JavaScript's `s.length`, which zod's `min`/`max` compare. */
  function Utf16Length(s: string): (n: nat)
    ensures |s| <= n <= 2 * |s|
    ensures (forall i | 0 <= i < |s| :: s[i] as int <= 0xFFFF) ==> n == |s|
  {
    if |s| == 0 then 0 else CodeUnits(s[0]) + Utf16Length(s[1..])
  }

  /** Lengths add up under concatenation. */
  lemma {:induction false} Utf16LengthAppend(s: string, t: string)
    ensures Utf16Length(s + t) == Utf16Length(s) + Utf16Length(t)
  {
    if |s| == 0 {
      assert s + t == t;
    } else {
      assert (s + t)[0] == s[0];
      assert (s + t)[1..] == s[1..] + t;
      Utf16LengthAppend(s[1..], t);
    }
  }

  /** The characters `String.prototype.trim` removes: ECMAScript WhiteSpace
      (tab, vertical tab, form feed, space, no-break space, BOM and the
      Space_Separator category) and LineTerminator. */
  predicate IsJsWhitespace(c: char)
  {
    var n := c as int;
    n == 0x09 || n == 0x0A || n == 0x0B || n == 0x0C || n == 0x0D || n == 0x20
    || n == 0xA0 || n == 0x1680 || (0x2000 <= n <= 0x200A) || n == 0x2028
    || n == 0x2029 || n == 0x202F || n == 0x205F || n == 0x3000 || n == 0xFEFF
  }

  /** `s` with its leading whitespace removed: a suffix of `s` that starts
      with a non-whitespace character, and only whitespace was dropped. */
  function TrimStart(s: string): (r: string)
    ensures |r| <= |s| && r == s[|s| - |r|..]
    ensures forall i | 0 <= i < |s| - |r| :: IsJsWhitespace(s[i])
    ensures |r| > 0 ==> !IsJsWhitespace(r[0])
  {
    if |s| > 0 && IsJsWhitespace(s[0]) then TrimStart(s[1..]) else s
  }

  /** `s` with its trailing whitespace removed: a prefix of `s` that ends
      with a non-whitespace character, and only whitespace was dropped. */
  function TrimEnd(s: string): (r: string)
    ensures |r| <= |s| && r == s[..|r|]
    ensures forall i | |r| <= i < |s| :: IsJsWhitespace(s[i])
    ensures |r| > 0 ==> !IsJsWhitespace(r[|r| - 1])
  {
    if |s| > 0 && IsJsWhitespace(s[|s| - 1]) then TrimEnd(s[..|s| - 1]) else s
  }

  /** JavaScript's `s.trim()`. */
  function Trim(s: string): string
  {
    TrimEnd(TrimStart(s))
  }

  /** A trimmed string is empty exactly when the input is all whitespace,
      and otherwise neither starts nor ends with whitespace. */
  lemma TrimProperties(s: string)
    ensures Trim(s) == "" <==> forall i | 0 <= i < |s| :: IsJsWhitespace(s[i])
    ensures |Trim(s)| > 0 ==> !IsJsWhitespace(Trim(s)[0]) && !IsJsWhitespace(Trim(s)[|Trim(s)| - 1])
    ensures |Trim(s)| <= |s|
  {
    var a := TrimStart(s);
    var r := TrimEnd(a);
    if |r| > 0 {
      assert r[0] == a[0];
    }
  }

  /** `t` occurs in `s` starting at position `i`. */
  predicate MatchAt(s: string, t: string, i: int)
  {
    0 <= i && i + |t| <= |s| && s[i..i + |t|] == t
  }

  /** `t` occurs in `s` as a contiguous run of characters. */
  ghost predicate OccursIn(t: string, s: string)
  {
    exists i :: MatchAt(s, t, i)
  }

  /** An occurrence either starts at the front or lies in the tail. */
  lemma OccursSplit(s: string, t: string)
    requires 0 < |s|
    ensures OccursIn(t, s) <==> MatchAt(s, t, 0) || OccursIn(t, s[1..])
  {
    forall i | 0 <= i
      ensures MatchAt(s[1..], t, i) <==> MatchAt(s, t, i + 1)
    {
      if i + |t| <= |s| - 1 {
        assert s[1..][i..i + |t|] == s[i + 1..i + 1 + |t|];
      }
    }
    if OccursIn(t, s) {
      var i :| MatchAt(s, t, i);
      if i > 0 {
        assert MatchAt(s[1..], t, i - 1);
      }
    }
    if OccursIn(t, s[1..]) {
      var i :| MatchAt(s[1..], t, i);
      assert MatchAt(s, t, i + 1);
    }
  }

  /** JavaScript's `s.includes(t)` / Prisma's `contains` filter, compared
      character by character. */
  function Contains(s: string, t: string): (b: bool)
    ensures b <==> OccursIn(t, s)
    decreases |s|
  {
    if |t| > |s| then
      assert !OccursIn(t, s) by {
        forall i ensures !MatchAt(s, t, i) { }
      }
      false
    else if |s| == 0 then
      assert MatchAt(s, t, 0);
      true
    else
      OccursSplit(s, t);
      MatchAt(s, t, 0) || Contains(s[1..], t)
  }

  /** JavaScript's `toUpperCase` restricted to the ASCII letters. */
  function UpperAscii(c: char): char
  {
    if 'a' <= c <= 'z' then (c as int - 'a' as int + 'A' as int) as char else c
  }

  /** `s` with every ASCII lower-case letter replaced by its upper-case form. */
  function ToUpperAscii(s: string): (r: string)
    ensures |r| == |s|
    ensures forall i | 0 <= i < |s| :: r[i] == UpperAscii(s[i])
  {
    if |s| == 0 then "" else [UpperAscii(s[0])] + ToUpperAscii(s[1..])
  }

  /** Two characters are the same letter up to ASCII case, or equal. */
  predicate SameIgnoringAsciiCase(a: char, b: char)
  {
    a == b
    || ('a' <= a <= 'z' && b as int == a as int - 32)
    || ('A' <= a <= 'Z' && b as int == a as int + 32)
  }

  /** Two strings that differ at most in the case of ASCII letters. */
  predicate EqualIgnoringAsciiCase(s: string, t: string)
  {
    |s| == |t| && forall i | 0 <= i < |s| :: SameIgnoringAsciiCase(s[i], t[i])
  }

  lemma UpperCharIdentifiesCaseVariants(a: char, b: char)
    ensures UpperAscii(a) == UpperAscii(b) <==> SameIgnoringAsciiCase(a, b)
  {
  }

  /** Upper-casing identifies exactly the strings that differ only in ASCII case. */
  lemma UpperCaseIdentifiesCaseVariants(s: string, t: string)
    ensures ToUpperAscii(s) == ToUpperAscii(t) <==> EqualIgnoringAsciiCase(s, t)
  {
    forall i | 0 <= i < |s| && i < |t|
      ensures UpperAscii(s[i]) == UpperAscii(t[i]) <==> SameIgnoringAsciiCase(s[i], t[i])
    {
      UpperCharIdentifiesCaseVariants(s[i], t[i]);
    }
    if ToUpperAscii(s) == ToUpperAscii(t) {
      assert forall i | 0 <= i < |s| :: UpperAscii(s[i]) == ToUpperAscii(t)[i];
    }
    if EqualIgnoringAsciiCase(s, t) {
      assert forall i | 0 <= i < |s| :: ToUpperAscii(s)[i] == ToUpperAscii(t)[i];
    }
  }

  /** Upper-casing twice is upper-casing once. */
  lemma ToUpperIdempotent(s: string)
    ensures ToUpperAscii(ToUpperAscii(s)) == ToUpperAscii(s)
  {
  }

  /** Code-unit-wise lexicographic order (JavaScript's `<=` on strings for
      BMP text); the empty string precedes everything. */
  predicate StrLe(a: string, b: string)
  {
    |a| == 0 || (|b| > 0 && (a[0] < b[0] || (a[0] == b[0] && StrLe(a[1..], b[1..]))))
  }

  lemma {:induction false} StrLeTotal(a: string, b: string)
    ensures StrLe(a, b) || StrLe(b, a)
  {
    if |a| > 0 && |b| > 0 && a[0] == b[0] {
      StrLeTotal(a[1..], b[1..]);
    }
  }

  lemma {:induction false} StrLeTransitive(a: string, b: string, c: string)
    requires StrLe(a, b) && StrLe(b, c)
    ensures StrLe(a, c)
  {
    if |a| > 0 && a[0] == b[0] && b[0] == c[0] {
      StrLeTransitive(a[1..], b[1..], c[1..]);
    }
  }
}
