/** Byte strings and the small string operations the renderer relies on:
    Go's strings.ToLower (against ASCII literals), strings.Split, the
    concatenation done by a strings.Builder, and decimal formatting of
    integers by fmt. */
module Text {

  // A Go string is a sequence of bytes; the model writes it as a Dafny
  // string, one character per byte. Where the byte range matters (the
  // output of a decoder, the input of an encoder) the type says so.
  type Byte = c: char | c as int < 256 witness '\0'
  type Bytes = seq<Byte>

  datatype Option<+T> = None | Some(value: T)

  /** Number of occurrences of `c` in `s`. */
  function Count(s: string, c: char): nat
    decreases |s|
  {
    if s == [] then 0 else (if s[0] == c then 1 else 0) + Count(s[1..], c)
  }

  lemma {:induction false} CountPositive(s: string, c: char)
    ensures Count(s, c) > 0 <==> c in s
    decreases |s|
  {
    if s != [] {
      CountPositive(s[1..], c);
      assert c in s <==> s[0] == c || c in s[1..];
    }
  }

  lemma {:induction false} CountAppend(a: string, b: string, c: char)
    ensures Count(a + b, c) == Count(a, c) + Count(b, c)
    decreases |a|
  {
    if a != [] {
      assert (a + b)[1..] == a[1..] + b;
      CountAppend(a[1..], b, c);
    } else {
      assert a + b == b;
    }
  }

  lemma Associative(a: string, b: string, c: string)
    ensures a + b + c == a + (b + c)
  {
  }

  /** The concatenation of a sequence of byte strings, as successive
      writes to a strings.Builder produce it. */
  function Concat(parts: seq<string>): (joined: string)
    ensures joined == [] <==> forall i :: 0 <= i < |parts| ==> parts[i] == []
    decreases |parts|
  {
    if parts == [] then [] else parts[0] + Concat(parts[1..])
  }

  lemma {:induction false} ConcatAppend(a: seq<string>, b: seq<string>)
    ensures Concat(a + b) == Concat(a) + Concat(b)
    decreases |a|
  {
    if a == [] {
      assert a + b == b;
    } else {
      assert (a + b)[1..] == a[1..] + b;
      ConcatAppend(a[1..], b);
    }
  }

  // ---------------------------------------------------------------------
  // strings.ToLower, as used to compare a header prefix with a lower-case
  // ASCII literal.

  /** Lower-cases an ASCII letter and leaves every other byte alone. */
  function LowerByte(c: char): char
  {
    if 'A' <= c <= 'Z' then (c as int + 32) as char else c
  }

  /** strings.ToLower on ASCII: the result has no upper-case letter, and
      every byte that is not an upper-case letter is kept. */
  function Lower(s: string): (r: string)
    ensures |r| == |s| && IsLowerCase(r)
    ensures forall i :: 0 <= i < |s| && !('A' <= s[i] <= 'Z') ==> r[i] == s[i]
  {
    seq(|s|, i requires 0 <= i < |s| => LowerByte(s[i]))
  }

  /** No upper-case ASCII letter occurs in `lit`. */
  predicate IsLowerCase(lit: string)
  {
    forall i :: 0 <= i < |lit| ==> !('A' <= lit[i] <= 'Z')
  }

  /** `s` spells `lit` with every letter in either case. */
  predicate EqualFold(s: string, lit: string)
  {
    |s| == |lit| &&
    forall i :: 0 <= i < |s| ==>
      s[i] == lit[i] || ('a' <= lit[i] <= 'z' && s[i] as int == lit[i] as int - 32)
  }

  /** Comparing the lower-cased text with a lower-case literal is a
      case-insensitive comparison. */
  lemma LowerEqualsIffFold(s: string, lit: string)
    requires IsLowerCase(lit)
    ensures Lower(s) == lit <==> EqualFold(s, lit)
  {
  }

  // ---------------------------------------------------------------------
  // strings.Split with a one-byte separator.

  /** The fields of `s` between occurrences of `sep`, left to right; there
      is always at least one field. */
  function Split(s: string, sep: char): (fields: seq<string>)
    ensures |fields| == Count(s, sep) + 1
    ensures |fields| >= 2 <==> sep in s
    ensures forall i :: 0 <= i < |fields| ==> sep !in fields[i]
    decreases |s|
  {
    if s == [] then [[]]
    else
      var rest := Split(s[1..], sep);
      if s[0] == sep then [[]] + rest
      else [[s[0]] + rest[0]] + rest[1..]
  }

  /** strings.Join with a one-byte separator: the inverse of Split. */
  function Join(fields: seq<string>, sep: char): string
    requires |fields| >= 1
    decreases |fields|
  {
    if |fields| == 1 then fields[0] else fields[0] + [sep] + Join(fields[1..], sep)
  }

  lemma {:induction false} JoinSplit(s: string, sep: char)
    ensures Join(Split(s, sep), sep) == s
    decreases |s|
  {
    if s != [] {
      var rest := Split(s[1..], sep);
      JoinSplit(s[1..], sep);
      if s[0] == sep {
        assert ([[]] + rest)[1..] == rest;
      } else if |rest| > 1 {
        assert ([[s[0]] + rest[0]] + rest[1..])[1..] == rest[1..];
      }
    }
  }

  /** The first field is the text before the first separator, or all of
      `s` when there is none. */
  lemma {:induction false} FirstField(s: string, sep: char)
    ensures var f := Split(s, sep)[0];
      f <= s && sep !in f && (|f| < |s| ==> s[|f|] == sep) && (sep !in s ==> f == s)
    decreases |s|
  {
    if s != [] {
      FirstField(s[1..], sep);
    }
  }

  /** The fields after the first are the fields of the text after the
      first separator. */
  lemma {:induction false} LaterFields(s: string, sep: char)
    requires sep in s
    ensures var f := Split(s, sep); |f[0]| < |s| && Split(s[|f[0]| + 1..], sep) == f[1..]
    decreases |s|
  {
    var rest := Split(s[1..], sep);
    if s[0] != sep {
      assert sep in s[1..];
      LaterFields(s[1..], sep);
      assert s[1..][|rest[0]| + 1..] == s[|rest[0]| + 2..];
    } else {
      assert ([[]] + rest)[1..] == rest;
    }
  }

  // ---------------------------------------------------------------------
  // Decimal formatting of a non-negative integer (fmt's %v of an int).

  predicate IsDigits(s: string)
  {
    forall i :: 0 <= i < |s| ==> '0' <= s[i] <= '9'
  }

  function Digit(d: nat): (c: char)
    requires d < 10
    ensures '0' <= c <= '9' && c as int - '0' as int == d
  {
    ('0' as int + d) as char
  }

  /** The decimal digits of `n`, most significant first, without leading
      zeros. */
  function Decimal(n: nat): (r: string)
    ensures |r| >= 1 && IsDigits(r)
    ensures n > 0 ==> r[0] != '0'
    decreases n
  {
    if n < 10 then [Digit(n)] else Decimal(n / 10) + [Digit(n % 10)]
  }

  /** The number a string of decimal digits denotes. */
  function DigitsValue(s: string): nat
    requires IsDigits(s)
    decreases |s|
  {
    if s == [] then 0 else DigitsValue(s[..|s| - 1]) * 10 + (s[|s| - 1] as int - '0' as int)
  }

  lemma {:induction false} DecimalRoundTrip(n: nat)
    ensures DigitsValue(Decimal(n)) == n
    decreases n
  {
    if n >= 10 {
      DecimalRoundTrip(n / 10);
      var r := Decimal(n);
      assert r[..|r| - 1] == Decimal(n / 10);
    }
  }

  // ---------------------------------------------------------------------

  predicate EndsWith(s: string, suffix: string)
  {
    |suffix| <= |s| && s[|s| - |suffix|..] == suffix
  }

  lemma EndsWithAppended(s: string, suffix: string)
    ensures EndsWith(s + suffix, suffix)
  {
    assert (s + suffix)[|s|..] == suffix;
  }
}
