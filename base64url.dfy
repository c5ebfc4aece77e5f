/** Unpadded base64url (the "URL and Filename safe" alphabet of section 5
    of RFC 4648, with the padding left out as section 3.2 allows), decoded
    the way Go's base64.RawURLEncoding.DecodeString does: carriage returns
    and line feeds are skipped, '=' and every other byte outside the
    alphabet is an error, a final group of one symbol is an error, and the
    unused low bits of a final group of two or three symbols are ignored. */
module Base64Url {
  import opened Text

  predicate InAlphabet(c: char)
  {
    'A' <= c <= 'Z' || 'a' <= c <= 'z' || '0' <= c <= '9' || c == '-' || c == '_'
  }

  /** The six-bit value of an alphabet symbol. */
  function Val(c: char): (v: nat)
    requires InAlphabet(c)
    ensures v < 64
  {
    if 'A' <= c <= 'Z' then c as int - 'A' as int
    else if 'a' <= c <= 'z' then c as int - 'a' as int + 26
    else if '0' <= c <= '9' then c as int - '0' as int + 52
    else if c == '-' then 62
    else 63
  }

  /** The alphabet symbol of a six-bit value: the inverse of Val. */
  function Sym(v: nat): (c: char)
    requires v < 64
    ensures InAlphabet(c) && Val(c) == v
  {
    if v < 26 then ('A' as int + v) as char
    else if v < 52 then ('a' as int + v - 26) as char
    else if v < 62 then ('0' as int + v - 52) as char
    else if v == 62 then '-'
    else '_'
  }

  function ByteOf(n: nat): Byte
    requires n < 256
  {
    n as char
  }

  /** The input with every carriage return and line feed removed. */
  function SkipNewlines(s: string): (r: string)
    ensures |r| <= |s|
    decreases |s|
  {
    if s == [] then []
    else if s[0] == '\r' || s[0] == '\n' then SkipNewlines(s[1..])
    else [s[0]] + SkipNewlines(s[1..])
  }

  lemma {:induction false} SkipNewlinesKeeps(s: string, c: char)
    ensures c in SkipNewlines(s) <==> c in s && c != '\r' && c != '\n'
    decreases |s|
  {
    if s != [] {
      SkipNewlinesKeeps(s[1..], c);
      assert c in s <==> c == s[0] || c in s[1..];
    }
  }

  /** A newline-free input that decodes: alphabet symbols only, and no
      final group of a single symbol. */
  predicate Decodable(t: string)
  {
    (forall i :: 0 <= i < |t| ==> InAlphabet(t[i])) && |t| % 4 != 1
  }

  /** The three bytes carried by four six-bit values. */
  function JoinGroup(v0: nat, v1: nat, v2: nat, v3: nat): (r: Bytes)
    requires v0 < 64 && v1 < 64 && v2 < 64 && v3 < 64
    ensures |r| == 3
  {
    [ByteOf(v0 * 4 + v1 / 16), ByteOf((v1 % 16) * 16 + v2 / 4), ByteOf((v2 % 4) * 64 + v3)]
  }

  /** Decodes groups of four symbols into three bytes; a final group of
      three or two symbols is decoded as if completed with zero values and
      gives its first two or one bytes. */
  function DecodeGroups(t: string): (r: Bytes)
    requires Decodable(t)
    ensures |r| == |t| * 6 / 8
    decreases |t|
  {
    if |t| == 0 then []
    else if |t| == 2 then JoinGroup(Val(t[0]), Val(t[1]), 0, 0)[..1]
    else if |t| == 3 then JoinGroup(Val(t[0]), Val(t[1]), Val(t[2]), 0)[..2]
    else JoinGroup(Val(t[0]), Val(t[1]), Val(t[2]), Val(t[3])) + DecodeGroups(t[4..])
  }

  /** base64.RawURLEncoding.DecodeString: the decoded bytes, or None for
      the inputs the library reports as corrupt. */
  function Decode(s: string): (r: Option<Bytes>)
    ensures r.Some? ==> |r.value| == |SkipNewlines(s)| * 6 / 8
  {
    var t := SkipNewlines(s);
    if Decodable(t) then Some(DecodeGroups(t)) else None
  }

  /** The four symbols that carry three bytes. */
  function SplitGroup(x0: nat, x1: nat, x2: nat): (r: string)
    requires x0 < 256 && x1 < 256 && x2 < 256
    ensures |r| == 4 && forall i :: 0 <= i < 4 ==> InAlphabet(r[i])
  {
    [Sym(x0 / 4), Sym((x0 % 4) * 16 + x1 / 16), Sym((x1 % 16) * 4 + x2 / 64), Sym(x2 % 64)]
  }

  /** The unpadded base64url encoding (base64.RawURLEncoding.EncodeToString),
      which Decode inverts: a final group of two or one bytes is encoded as
      if completed with zero bytes, keeping three or two symbols. */
  function Encode(b: Bytes): (r: string)
    ensures |r| == (|b| * 8 + 5) / 6
    ensures Decodable(r)
    decreases |b|
  {
    if |b| == 0 then []
    else if |b| == 1 then SplitGroup(b[0] as int, 0, 0)[..2]
    else if |b| == 2 then SplitGroup(b[0] as int, b[1] as int, 0)[..3]
    else SplitGroup(b[0] as int, b[1] as int, b[2] as int) + Encode(b[3..])
  }

  /** Decoding the encoding of any byte string gives that byte string back. */
  lemma DecodeEncode(b: Bytes)
    ensures Decode(Encode(b)) == Some(b)
  {
    var e := Encode(b);
    NoNewlinesSkipped(e);
    DecodeGroupsEncode(b);
  }

  /** Decoding fails exactly on a byte outside the alphabet that is not a
      carriage return or line feed, or on a final group of one symbol. */
  lemma DecodeFails(s: string)
    ensures Decode(s) == None <==>
      (exists i :: 0 <= i < |s| && !InAlphabet(s[i]) && s[i] != '\r' && s[i] != '\n')
      || |SkipNewlines(s)| % 4 == 1
  {
    var t := SkipNewlines(s);
    if i :| 0 <= i < |s| && !InAlphabet(s[i]) && s[i] != '\r' && s[i] != '\n' {
      SkipNewlinesKeeps(s, s[i]);
      var j :| 0 <= j < |t| && t[j] == s[i];
      assert !InAlphabet(t[j]);
    }
    if !Decodable(t) && |t| % 4 != 1 {
      var j :| 0 <= j < |t| && !InAlphabet(t[j]);
      SkipNewlinesKeeps(s, t[j]);
      var i :| 0 <= i < |s| && s[i] == t[j];
      assert !InAlphabet(s[i]) && s[i] != '\r' && s[i] != '\n';
    }
  }

  lemma {:induction false} NoNewlinesSkipped(t: string)
    requires forall i :: 0 <= i < |t| ==> InAlphabet(t[i])
    ensures SkipNewlines(t) == t
    decreases |t|
  {
    if t != [] {
      assert InAlphabet(t[0]);
      NoNewlinesSkipped(t[1..]);
    }
  }

  lemma {:induction false} DecodeGroupsEncode(b: Bytes)
    ensures DecodeGroups(Encode(b)) == b
    decreases |b|
  {
    if |b| == 1 {
      LastByte(b);
    } else if |b| == 2 {
      LastTwoBytes(b);
    } else if |b| >= 3 {
      DecodeGroupsEncode(b[3..]);
      FirstGroup(b);
    }
  }

  lemma LastByte(b: Bytes)
    requires |b| == 1
    ensures DecodeGroups(Encode(b)) == b
  {
    var g := SplitGroup(b[0] as int, 0, 0);
    GroupRoundTrip(b[0] as int, 0, 0);
    assert Encode(b) == g[..2];
    assert DecodeGroups(g[..2]) == JoinGroup(Val(g[0]), Val(g[1]), 0, 0)[..1];
  }

  lemma LastTwoBytes(b: Bytes)
    requires |b| == 2
    ensures DecodeGroups(Encode(b)) == b
  {
    var g := SplitGroup(b[0] as int, b[1] as int, 0);
    GroupRoundTrip(b[0] as int, b[1] as int, 0);
    assert Encode(b) == g[..3];
    assert DecodeGroups(g[..3]) == JoinGroup(Val(g[0]), Val(g[1]), Val(g[2]), 0)[..2];
  }

  /** Decoding an encoding peels off the first three bytes. */
  lemma FirstGroup(b: Bytes)
    requires |b| >= 3 && DecodeGroups(Encode(b[3..])) == b[3..]
    ensures DecodeGroups(Encode(b)) == b
  {
    var e := Encode(b);
    var g := SplitGroup(b[0] as int, b[1] as int, b[2] as int);
    GroupRoundTrip(b[0] as int, b[1] as int, b[2] as int);
    var rest := Encode(b[3..]);
    assert e == g + rest;
    DecodeFirstGroup(g, rest);
    FirstThree(b);
  }

  lemma FirstThree(b: Bytes)
    requires |b| >= 3
    ensures [ByteOf(b[0] as int), ByteOf(b[1] as int), ByteOf(b[2] as int)] + b[3..] == b
  {
  }

  /** A full first group decodes to three bytes ahead of the rest. */
  lemma DecodeFirstGroup(g: string, rest: string)
    requires |g| == 4 && forall i :: 0 <= i < 4 ==> InAlphabet(g[i])
    requires Decodable(rest)
    ensures Decodable(g + rest)
    ensures DecodeGroups(g + rest) == JoinGroup(Val(g[0]), Val(g[1]), Val(g[2]), Val(g[3])) + DecodeGroups(rest)
  {
  }

  /** Joining the four values a group of three bytes is split into gives
      the three bytes back. */
  lemma GroupRoundTrip(x0: nat, x1: nat, x2: nat)
    requires x0 < 256 && x1 < 256 && x2 < 256
    ensures var g := SplitGroup(x0, x1, x2);
      JoinGroup(Val(g[0]), Val(g[1]), Val(g[2]), Val(g[3])) == [ByteOf(x0), ByteOf(x1), ByteOf(x2)]
  {
    assert ((x0 % 4) * 16 + x1 / 16) / 16 == x0 % 4;
    assert ((x0 % 4) * 16 + x1 / 16) % 16 == x1 / 16;
    assert ((x1 % 16) * 4 + x2 / 64) / 4 == x1 % 16;
    assert ((x1 % 16) * 4 + x2 / 64) % 4 == x2 / 64;
  }
}
