/** The rendering rules of the request dump written by server.go's
    handler, as functions of the request: the inputs net/http hands over
    (method, URL text, header entries, cookie records), the answers the
    body stream gives to successive reads, and the JSON decoder, passed in. The
    imperative code in module Server is proved to write exactly these. */
module Render {
  import opened Text
  import Base64Url

  /** One key of the header map with its values, in their order. The order
      of the entries stands for Go's map iteration order, which the caller
      chooses. */
  datatype HeaderEntry = HeaderEntry(key: string, values: seq<string>)

  /** The fields of an http.Cookie the dump reads (and its name, which it
      does not). */
  datatype Cookie = Cookie(name: string, value: string, path: string, domain: string,
                           maxAge: int, httpOnly: bool, secure: bool)

  datatype Request = Request(requestMethod: string, url: string, header: seq<HeaderEntry>, cookies: seq<Cookie>)

  /** What one call of the body's Read puts in the buffer, and whether an
      error came with it. */
  datatype Chunk = Chunk(data: string, failed: bool)

  /** One member of a decoded JSON object: its key and its value as %v
      prints it. */
  datatype Member = Member(key: string, text: string)

  /** What json.Unmarshal into an interface{} gives: an error, a value that
      is not an object (null, a number, a string, a bool, an array), or an
      object, whose members come in Go's map iteration order. */
  datatype Json = Malformed | NotAnObject | Object(members: seq<Member>)

  /** The run-time panics the handler can hit. */
  datatype Fault =
    | AuthorizationTooShort  // auth[0:7] on a value shorter than 7 bytes
    | TokenWithoutDot        // ss[1] when the token has a single field
    | PayloadNotAnObject     // i.(map[string]interface{}) on a non-object

  /** The text a step writes, and the panic it ends in, if any. */
  datatype Section = Section(text: string, fault: Option<Fault>)

  /** The handler either writes the dump or panics before writing anything. */
  datatype Response = Sent(text: string) | Panicked(fault: Fault)

  /** A `key: value` line, as fmt.Sprintf("%s: %s\n", k, v) writes it for
      headers and as "%s: %v\n" writes it for token claims. */
  function Line(key: string, value: string): (line: string)
    ensures key + ": " <= line && |line| == |key| + 2 + |value| + 1
    ensures line[|line| - 1] == '\n'
  {
    key + ": " + value + "\n"
  }

  // ---------------------------------------------------------------------
  // printHeaders

  function ValueLines(key: string, values: seq<string>): seq<string>
  {
    seq(|values|, j requires 0 <= j < |values| => Line(key, values[j]))
  }

  function TotalValues(h: seq<HeaderEntry>): nat
    decreases |h|
  {
    if h == [] then 0 else |h[0].values| + TotalValues(h[1..])
  }

  /** The header lines: for each entry, one line per value, in the value
      order. */
  function HeaderLines(h: seq<HeaderEntry>): (lines: seq<string>)
    ensures |lines| == TotalValues(h)
    ensures forall i :: 0 <= i < |lines| ==> |lines[i]| >= 3
    decreases |h|
  {
    if h == [] then [] else ValueLines(h[0].key, h[0].values) + HeaderLines(h[1..])
  }

  /** The header text: nothing is written exactly when no entry holds a
      value. */
  function HeadersText(h: seq<HeaderEntry>): (text: string)
    ensures text == [] <==> TotalValues(h) == 0
  {
    Concat(HeaderLines(h))
  }

  lemma {:induction false} HeaderLinesAppend(h1: seq<HeaderEntry>, h2: seq<HeaderEntry>)
    ensures HeaderLines(h1 + h2) == HeaderLines(h1) + HeaderLines(h2)
    decreases |h1|
  {
    if h1 == [] {
      assert h1 + h2 == h2;
    } else {
      assert (h1 + h2)[1..] == h1[1..] + h2;
      HeaderLinesAppend(h1[1..], h2);
    }
  }

  /** A line is among the header lines exactly when it is the line of some
      value of some entry. */
  lemma {:induction false} HeaderLinesAre(h: seq<HeaderEntry>, line: string)
    ensures line in HeaderLines(h) <==>
      exists e, j :: 0 <= e < |h| && 0 <= j < |h[e].values| && line == Line(h[e].key, h[e].values[j])
    decreases |h|
  {
    if h != [] {
      HeaderLinesAre(h[1..], line);
      var own := ValueLines(h[0].key, h[0].values);
      assert line in HeaderLines(h) <==> line in own || line in HeaderLines(h[1..]);
      if line in own {
        var j :| 0 <= j < |own| && own[j] == line;
        assert line == Line(h[0].key, h[0].values[j]);
      } else if line in HeaderLines(h[1..]) {
        var e, j :| 0 <= e < |h[1..]| && 0 <= j < |h[1..][e].values| && line == Line(h[1..][e].key, h[1..][e].values[j]);
        assert line == Line(h[e + 1].key, h[e + 1].values[j]);
      }
      if exists e, j :: 0 <= e < |h| && 0 <= j < |h[e].values| && line == Line(h[e].key, h[e].values[j]) {
        var e, j :| 0 <= e < |h| && 0 <= j < |h[e].values| && line == Line(h[e].key, h[e].values[j]);
        if e == 0 {
          assert own[j] == line;
        } else {
          assert h[1..][e - 1] == h[e];
        }
      }
    }
  }

  predicate NoNewline(s: string)
  {
    '\n' !in s
  }

  /** When no key or value holds a line feed (net/http never delivers one),
      the header text has exactly one line per value. */
  lemma {:induction false} HeaderLineCount(h: seq<HeaderEntry>)
    requires forall e :: 0 <= e < |h| ==>
      NoNewline(h[e].key) && (forall j :: 0 <= j < |h[e].values| ==> NoNewline(h[e].values[j]))
    ensures Count(HeadersText(h), '\n') == TotalValues(h)
    decreases |h|
  {
    if h != [] {
      var own := ValueLines(h[0].key, h[0].values);
      ConcatAppend(own, HeaderLines(h[1..]));
      CountAppend(Concat(own), HeadersText(h[1..]), '\n');
      HeaderLineCount(h[1..]);
      ValueLinesCount(h[0].key, h[0].values);
    }
  }

  lemma {:induction false} ValueLinesCount(key: string, values: seq<string>)
    requires NoNewline(key)
    requires forall j :: 0 <= j < |values| ==> NoNewline(values[j])
    ensures Count(Concat(ValueLines(key, values)), '\n') == |values|
    decreases |values|
  {
    if values != [] {
      var lines := ValueLines(key, values);
      assert lines[1..] == ValueLines(key, values[1..]);
      ValueLinesCount(key, values[1..]);
      CountAppend(lines[0], Concat(lines[1..]), '\n');
      LineCount(key, values[0]);
    }
  }

  lemma LineCount(key: string, value: string)
    requires NoNewline(key) && NoNewline(value)
    ensures Count(Line(key, value), '\n') == 1
  {
    CountPositive(key, '\n');
    CountPositive(value, '\n');
    CountAppend(key, ": ", '\n');
    CountAppend(key + ": ", value, '\n');
    CountAppend(key + ": " + value, "\n", '\n');
    assert Count(": ", '\n') == 0;
    assert Count("\n", '\n') == 1;
  }

  // ---------------------------------------------------------------------
  // printCookies

  /** " [<MaxAge>]" when MaxAge is positive. */
  function AgeSegment(maxAge: int): string
  {
    if maxAge > 0 then " [" + Decimal(maxAge) + "]" else ""
  }

  function HttpOnlySegment(httpOnly: bool): string
  {
    if httpOnly then " http-only" else ""
  }

  function SecureSegment(secure: bool): string
  {
    if secure then " secure" else ""
  }

  /** The optional segments after the path: age, http-only, secure. */
  function Attributes(c: Cookie): (attributes: string)
    ensures attributes == [] <==> c.maxAge <= 0 && !c.httpOnly && !c.secure
  {
    AgeSegment(c.maxAge) + HttpOnlySegment(c.httpOnly) + SecureSegment(c.secure)
  }

  /** A cookie's line starts with its domain, "/" and its path, and ends
      with ": " and its value. */
  function CookieLine(c: Cookie): (line: string)
    ensures c.domain + "/" + c.path <= line
    ensures EndsWith(line, ": " + c.value)
  {
    Associative(c.domain + "/" + c.path + Attributes(c), ": ", c.value);
    EndsWithAppended(c.domain + "/" + c.path + Attributes(c), ": " + c.value);
    c.domain + "/" + c.path + Attributes(c) + ": " + c.value
  }

  function CookieLines(cs: seq<Cookie>): seq<string>
  {
    seq(|cs|, i requires 0 <= i < |cs| => CookieLine(cs[i]))
  }

  /** The cookie records, written back to back with no separator. */
  function CookiesText(cs: seq<Cookie>): (text: string)
    ensures text == [] <==> cs == []
  {
    Concat(CookieLines(cs))
  }

  /** The attributes a cookie line's segments show: the positive max-age (0
      for none), and the two flags. */
  datatype AttributeView = AttributeView(maxAge: nat, httpOnly: bool, secure: bool)

  /** Removes `flag` from the end of `s` when it is there, and says whether
      it was. */
  function TrimFlag(s: string, flag: string): (string, bool)
  {
    if EndsWith(s, flag) then (s[..|s| - |flag|], true) else (s, false)
  }

  /** Reads an age segment back: nothing, or " [" digits "]". */
  function ReadAge(s: string): Option<nat>
  {
    if s == [] then Some(0)
    else if |s| >= 4 && s[..2] == " [" && s[|s| - 1] == ']' && IsDigits(s[2..|s| - 1])
    then Some(DigitsValue(s[2..|s| - 1]))
    else None
  }

  /** Reads the segments back, last first: the partner of Attributes. */
  function ReadAttributes(s: string): Option<AttributeView>
  {
    var (s1, secure) := TrimFlag(s, " secure");
    var (s2, httpOnly) := TrimFlag(s1, " http-only");
    match ReadAge(s2)
    case None => None
    case Some(maxAge) => Some(AttributeView(maxAge, httpOnly, secure))
  }

  /** Each segment is present exactly when its attribute is set, and they
      can be told apart: reading the segments back recovers a positive
      max-age and both flags. */
  lemma AttributesRoundTrip(c: Cookie)
    ensures ReadAttributes(Attributes(c))
      == Some(AttributeView(if c.maxAge > 0 then c.maxAge else 0, c.httpOnly, c.secure))
  {
    var a, h := AgeSegment(c.maxAge), HttpOnlySegment(c.httpOnly);
    var ah := a + h;
    assert a == [] || a[|a| - 1] == ']';
    assert ah == [] || ah[|ah| - 1] == ']' || ah[|ah| - 1] == 'y';
    TrimFlagOf(ah, " secure", c.secure);
    TrimFlagOf(a, " http-only", c.httpOnly);
    AgeRoundTrip(c.maxAge);
  }

  /** A flag segment, present or not, is recognised and removed, given the
      text before it does not end as the flag does. */
  lemma TrimFlagOf(s: string, flag: string, present: bool)
    requires |flag| > 0 && (s == [] || s[|s| - 1] != flag[|flag| - 1])
    ensures TrimFlag(s + (if present then flag else ""), flag) == (s, present)
  {
    if present {
      assert (s + flag)[..|s + flag| - |flag|] == s;
    } else {
      assert s + "" == s;
      NotEndsWith(s, flag);
    }
  }

  lemma AgeRoundTrip(maxAge: int)
    ensures ReadAge(AgeSegment(maxAge)) == Some(if maxAge > 0 then maxAge else 0)
  {
    if maxAge > 0 {
      var a := AgeSegment(maxAge);
      assert a[2..|a| - 1] == Decimal(maxAge);
      DecimalRoundTrip(maxAge);
    }
  }

  /** A text whose last byte differs from the suffix's last does not end
      with it. */
  lemma NotEndsWith(s: string, suffix: string)
    requires |suffix| > 0 && (s == [] || s[|s| - 1] != suffix[|suffix| - 1])
    ensures !EndsWith(s, suffix)
  {
  }

  /** A cookie line does not depend on the cookie's name. */
  lemma CookieLineIgnoresName(c: Cookie, name: string)
    ensures CookieLine(c.(name := name)) == CookieLine(c)
  {
  }

  /** No line feed separates the cookies: when no domain, path or value
      holds one, the whole cookie text is a single line. */
  lemma {:induction false} CookiesOnOneLine(cs: seq<Cookie>)
    requires forall i :: 0 <= i < |cs| ==>
      NoNewline(cs[i].domain) && NoNewline(cs[i].path) && NoNewline(cs[i].value)
    ensures NoNewline(CookiesText(cs))
    decreases |cs|
  {
    if cs != [] {
      var lines := CookieLines(cs);
      assert lines[1..] == CookieLines(cs[1..]);
      CookiesOnOneLine(cs[1..]);
      CookieLineOneLine(cs[0]);
      assert CookiesText(cs) == CookieLine(cs[0]) + CookiesText(cs[1..]);
    }
  }

  lemma CookieLineOneLine(c: Cookie)
    requires NoNewline(c.domain) && NoNewline(c.path) && NoNewline(c.value)
    ensures NoNewline(CookieLine(c))
  {
  }

  /** The line of a cookie record with MaxAge 60 and HttpOnly set, and no
      domain or path. */
  lemma SessionCookieExample()
    ensures CookieLine(Cookie("name", "abc", "", "", 60, true, false)) == "/ [60] http-only: abc"
  {
  }

  // ---------------------------------------------------------------------
  // printAuth

  /** r.Header.Get(key): the first value stored under `key`, or the empty
      string when there is none. */
  function HeaderGet(h: seq<HeaderEntry>, key: string): (v: string)
    ensures v != [] ==> exists e :: 0 <= e < |h| && h[e].key == key && h[e].values != [] && h[e].values[0] == v
    ensures (forall e :: 0 <= e < |h| ==> h[e].key != key) ==> v == []
    ensures forall e :: 0 <= e < |h| && h[e].key == key && (forall d :: 0 <= d < e ==> h[d].key != key) ==>
      v == (if h[e].values == [] then [] else h[e].values[0])
    decreases |h|
  {
    if h == [] then []
    else if h[0].key == key then (if h[0].values == [] then [] else h[0].values[0])
    else HeaderGet(h[1..], key)
  }

  /** How printAuth treats an Authorization value. */
  datatype Scheme = NoAuthorization | TooShort | BearerToken | BasicCredentials | OtherScheme

  const BearerPrefix: string := "bearer "
  const BasicPrefix: string := "basic "

  /** The tests of printAuth in their order: the empty value, then
      strings.ToLower(auth[0:7]) against "bearer " (the slice panics on a
      shorter value), then strings.ToLower(auth[0:6]) against "basic ". */
  function Classify(auth: string): (k: Scheme)
    ensures (k == BearerToken || k == BasicCredentials || k == OtherScheme) <==> |auth| >= 7
  {
    if auth == [] then NoAuthorization
    else if |auth| < 7 then TooShort
    else if Lower(auth[..7]) == BearerPrefix then BearerToken
    else if Lower(auth[..6]) == BasicPrefix then BasicCredentials
    else OtherScheme
  }

  /** Each outcome in terms of a case-insensitive prefix. The two prefixes
      exclude each other, so the Basic case needs no "and not Bearer". */
  lemma ClassifyCases(auth: string)
    ensures Classify(auth) == NoAuthorization <==> auth == []
    ensures Classify(auth) == TooShort <==> 0 < |auth| < 7
    ensures Classify(auth) == BearerToken <==> |auth| >= 7 && EqualFold(auth[..7], BearerPrefix)
    ensures Classify(auth) == BasicCredentials <==> |auth| >= 7 && EqualFold(auth[..6], BasicPrefix)
  {
    if |auth| >= 7 {
      LowerEqualsIffFold(auth[..7], BearerPrefix);
      LowerEqualsIffFold(auth[..6], BasicPrefix);
      if EqualFold(auth[..6], BasicPrefix) {
        assert auth[..7][1] == auth[..6][1];
        assert !EqualFold(auth[..7], BearerPrefix);
      }
    }
  }

  const JwtBanner: string := "\n=== JWT Token ===\n"
  const BasicBanner: string := "\n=== Basic Auth ===\n"
  const Redacted: string := ":<redacted for viewing pleasure>"
  const Warning: string := "Do not store this output! Password is out in the open!"

  /** One line per claim, in the order the members are given, each led by
      the claim's key. */
  function MemberLines(ms: seq<Member>): (lines: seq<string>)
    ensures |lines| == |ms|
    ensures forall i :: 0 <= i < |ms| ==> ms[i].key + ": " <= lines[i]
  {
    seq(|ms|, i requires 0 <= i < |ms| => Line(ms[i].key, ms[i].text))
  }

  /** printJwt on the text after the 7-byte scheme: field 1 of the split on
      '.', decoded as unpadded base64url, then unmarshalled; one line per
      member of an object. */
  function JwtSection(token: string, unmarshal: string -> Json): (section: Section)
    ensures section.fault == Some(TokenWithoutDot) <==> '.' !in token
    ensures section.fault.Some? ==> section.text == []
  {
    var fields := Split(token, '.');
    if |fields| < 2 then Section([], Some(TokenWithoutDot))
    else
      match Base64Url.Decode(fields[1])
      case None => Section([], None)
      case Some(payload) =>
        match unmarshal(payload)
        case Malformed => Section([], None)
        case NotAnObject => Section([], Some(PayloadNotAnObject))
        case Object(ms) => Section(Concat(MemberLines(ms)), None)
  }

  /** The text before the first ':' of the decoded credentials, or all of
      it. */
  function Username(credentials: string): (user: string)
    ensures user <= credentials && ':' !in user
    ensures |user| < |credentials| ==> credentials[|user|] == ':'
    ensures ':' !in credentials ==> user == credentials
  {
    FirstField(credentials, ':');
    Split(credentials, ':')[0]
  }

  /** printBasicAuth on the text after the 6-byte scheme. */
  function BasicSection(encoded: string): (text: string)
    ensures text == [] <==> Base64Url.Decode(encoded).None?
    ensures text != [] ==> EndsWith(text, Redacted + Warning)
  {
    match Base64Url.Decode(encoded)
    case None => []
    case Some(credentials) =>
      var user := Username(credentials);
      Associative(user, Redacted, Warning);
      EndsWithAppended(user, Redacted + Warning);
      user + Redacted + Warning
  }

  /** printAuth: the banner of the scheme, then what its printer writes. */
  function AuthSection(auth: string, unmarshal: string -> Json): (section: Section)
    ensures section.text == [] || JwtBanner <= section.text || BasicBanner <= section.text
    ensures section.fault.Some? ==> |auth| >= 1
  {
    match Classify(auth)
    case NoAuthorization => Section([], None)
    case OtherScheme => Section([], None)
    case TooShort => Section([], Some(AuthorizationTooShort))
    case BearerToken =>
      var jwt := JwtSection(auth[7..], unmarshal);
      Section(JwtBanner + jwt.text, jwt.fault)
    case BasicCredentials => Section(BasicBanner + BasicSection(auth[6..]), None)
  }

  /** The three panics: a short value, a bearer token without a '.', and a
      claims segment that decodes to JSON that is not an object. */
  lemma AuthFaults(auth: string, unmarshal: string -> Json)
    ensures AuthSection(auth, unmarshal).fault == Some(AuthorizationTooShort) <==> 0 < |auth| < 7
    ensures AuthSection(auth, unmarshal).fault == Some(TokenWithoutDot) <==>
      |auth| >= 7 && EqualFold(auth[..7], BearerPrefix) && '.' !in auth[7..]
    ensures AuthSection(auth, unmarshal).fault == Some(PayloadNotAnObject) <==>
      |auth| >= 7 && EqualFold(auth[..7], BearerPrefix) && '.' in auth[7..] &&
      var claims := Base64Url.Decode(Split(auth[7..], '.')[1]);
      claims.Some? && unmarshal(claims.value) == NotAnObject
  {
  }

  /** printAuth writes nothing exactly when the value is empty, too short,
      or starts with neither scheme; otherwise its first bytes are the
      banner of the scheme, Bearer taking precedence. */
  lemma AuthBanner(auth: string, unmarshal: string -> Json)
    ensures var text := AuthSection(auth, unmarshal).text;
      (text == [] <==> |auth| < 7 || (!EqualFold(auth[..7], BearerPrefix) && !EqualFold(auth[..6], BasicPrefix))) &&
      (|auth| >= 7 && EqualFold(auth[..7], BearerPrefix) ==> JwtBanner <= text) &&
      (|auth| >= 7 && EqualFold(auth[..6], BasicPrefix) ==> BasicBanner <= text)
  {
    ClassifyCases(auth);
  }

  /** The banner is written before anything is decoded: when the claims or
      the credentials do not decode, the banner is all that is written. */
  lemma BannerBeforeDecoding(auth: string, unmarshal: string -> Json)
    ensures |auth| >= 7 && EqualFold(auth[..7], BearerPrefix) && '.' in auth[7..] &&
      (var claims := Base64Url.Decode(Split(auth[7..], '.')[1]);
       claims.None? || unmarshal(claims.value) == Malformed)
      ==> AuthSection(auth, unmarshal) == Section(JwtBanner, None)
    ensures |auth| >= 7 && EqualFold(auth[..6], BasicPrefix) && Base64Url.Decode(auth[6..]).None?
      ==> AuthSection(auth, unmarshal) == Section(BasicBanner, None)
  {
    ClassifyCases(auth);
  }

  /** With decodable credentials, the Basic section is the text before the
      first ':' and the fixed redaction and warning, with no line feed
      added; nothing after the first ':' is written. */
  lemma BasicCredentialsShown(auth: string, unmarshal: string -> Json)
    requires Classify(auth) == BasicCredentials
    requires Base64Url.Decode(auth[6..]).Some?
    ensures var credentials: string := Base64Url.Decode(auth[6..]).value;
      var user := Username(credentials);
      AuthSection(auth, unmarshal) == Section(BasicBanner + (user + Redacted + Warning), None) &&
      user <= credentials && ':' !in user && (|user| < |credentials| ==> credentials[|user|] == ':')
  {
  }

  /** "Basic " followed by the encoding of user ":" password shows the user
      and never the password. */
  lemma BasicRoundTrip(user: Bytes, password: Bytes)
    requires ':' !in user
    ensures BasicSection(Base64Url.Encode(user + ":" + password)) == user + Redacted + Warning
  {
    var credentials := user + ":" + password;
    Base64Url.DecodeEncode(credentials);
    assert credentials == user + [':'] + password;
    FieldsAfter(user, password, ':');
  }

  /** A token head "." claims "." signature, with a head free of '.',
      shows one line per member when the claims decode to an object, and
      nothing when they are not JSON. */
  lemma BearerRoundTrip(head: string, claims: Bytes, signature: string, unmarshal: string -> Json)
    requires '.' !in head
    ensures var section := JwtSection(head + "." + Base64Url.Encode(claims) + "." + signature, unmarshal);
      match unmarshal(claims)
      case Object(ms) => section == Section(Concat(MemberLines(ms)), None)
      case Malformed => section == Section([], None)
      case NotAnObject => section == Section([], Some(PayloadNotAnObject))
  {
    var encoded := Base64Url.Encode(claims);
    var token := head + "." + encoded + "." + signature;
    assert '.' !in encoded by {
      forall i | 0 <= i < |encoded| ensures encoded[i] != '.' {
        assert Base64Url.InAlphabet(encoded[i]);
      }
    }
    assert Split(token, '.')[1] == encoded by {
      assert token == head + ['.'] + (encoded + ['.'] + signature);
      FieldsAfter(head, encoded + ['.'] + signature, '.');
      FieldsAfter(encoded, signature, '.');
    }
    assert Base64Url.Decode(encoded) == Some(claims) by {
      Base64Url.DecodeEncode(claims);
    }
  }

  /** Splitting a field free of the separator, the separator, and a rest. */
  lemma {:induction false} FieldsAfter(field: string, rest: string, sep: char)
    requires sep !in field
    ensures Split(field + [sep] + rest, sep) == [field] + Split(rest, sep)
    decreases |field|
  {
    var s := field + [sep] + rest;
    if field == [] {
      assert s[1..] == rest;
    } else {
      assert s[1..] == field[1..] + [sep] + rest;
      FieldsAfter(field[1..], rest, sep);
      assert s[0] == field[0] && s[0] != sep;
      assert [field[0]] + field[1..] == field;
    }
  }

  // ---------------------------------------------------------------------
  // printBody

  /** The length of the buffer p the body is read into. */
  const BufferSize: nat := 1024

  /** The reader keeps to io.Reader's contract: no read returns more bytes
      than the buffer holds. */
  predicate FitsIn(chunks: seq<Chunk>, size: nat)
  {
    forall i :: 0 <= i < |chunks| ==> |chunks[i].data| <= size
  }

  /** The copy loop stops after a read of zero bytes or one that returned an
      error. */
  predicate Stops(c: Chunk)
  {
    |c.data| == 0 || c.failed
  }

  /** The bytes the copy loop appends, given the chunks the body answers in
      order; once the chunks are used up the stream is at its end. */
  function Copied(chunks: seq<Chunk>): (copied: string)
    ensures chunks != [] ==> chunks[0].data <= copied
    decreases |chunks|
  {
    if chunks == [] || |chunks[0].data| == 0 then []
    else if chunks[0].failed then chunks[0].data
    else chunks[0].data + Copied(chunks[1..])
  }

  /** How many of the chunks the loop consumes. */
  function ReadsTaken(chunks: seq<Chunk>): (n: nat)
    ensures n <= |chunks|
    decreases |chunks|
  {
    if chunks == [] then 0
    else if Stops(chunks[0]) then 1
    else 1 + ReadsTaken(chunks[1..])
  }

  /** The chunks the body still holds once the loop has stopped. */
  function Unread(chunks: seq<Chunk>): (rest: seq<Chunk>)
    ensures |rest| <= |chunks| && rest == chunks[|chunks| - |rest|..]
    ensures chunks != [] ==> |rest| < |chunks|
  {
    chunks[ReadsTaken(chunks)..]
  }

  function Data(chunks: seq<Chunk>): seq<string>
  {
    seq(|chunks|, i requires 0 <= i < |chunks| => chunks[i].data)
  }

  /** The loop copies every read verbatim up to the first that stops it: a
      zero-length read adds nothing, a read with an error is still added.
      Later chunks are left unread. */
  lemma {:induction false} CopiedUpTo(chunks: seq<Chunk>, k: nat)
    requires k < |chunks| && Stops(chunks[k])
    requires forall j :: 0 <= j < k ==> !Stops(chunks[j])
    ensures Copied(chunks) == Concat(Data(chunks[..k + 1]))
    ensures ReadsTaken(chunks) == k + 1
    decreases k
  {
    if k == 0 {
      assert Data(chunks[..1]) == [chunks[0].data];
    } else {
      assert !Stops(chunks[0]);
      assert chunks[1..][..k] == chunks[1..k + 1];
      CopiedUpTo(chunks[1..], k - 1);
      assert Data(chunks[..k + 1]) == [chunks[0].data] + Data(chunks[1..k + 1]);
    }
  }

  /** When no read stops it, the loop copies every read, and stops on the
      end of the stream. */
  lemma {:induction false} CopiedAll(chunks: seq<Chunk>)
    requires forall j :: 0 <= j < |chunks| ==> !Stops(chunks[j])
    ensures Copied(chunks) == Concat(Data(chunks))
    ensures ReadsTaken(chunks) == |chunks|
    decreases |chunks|
  {
    if chunks != [] {
      CopiedAll(chunks[1..]);
      assert Data(chunks) == [chunks[0].data] + Data(chunks[1..]);
    }
  }

  // ---------------------------------------------------------------------
  // handle

  const AuthorizationKey: string := "Authorization"
  const GeneralBanner: string := "=== General ===\n"
  const HeadersBanner: string := "\n\n=== Headers ===\n"
  const CookiesBanner: string := "\n=== Cookies ===\n"
  const BodyOpening: string := "\n----- Body -----\n"
  const BodyClosing: string := "\n----------------\n"

  /** The dump handle writes, around the authentication section: the
      general section, the headers, the cookies and the body. */
  function Dump(req: Request, auth: string, body: string): (text: string)
    ensures GeneralBanner + RequestLine(req) + HeadersBanner <= text
  {
    GeneralBanner + RequestLine(req) + HeadersBanner + Sections(req, auth, body)
  }

  /** fmt.Sprintf("%s %s", r.Method, r.URL). */
  function RequestLine(req: Request): (line: string)
    ensures req.requestMethod + " " <= line
    ensures NoNewline(req.requestMethod) && NoNewline(req.url) ==> NoNewline(line)
  {
    req.requestMethod + " " + req.url
  }

  /** Everything after the headers banner. */
  function Sections(req: Request, auth: string, body: string): (text: string)
    ensures HeadersText(req.header) + auth <= text
  {
    HeadersText(req.header) + auth
    + CookiesBanner + CookiesText(req.cookies) + "\n"
    + BodyOpening + body + BodyClosing
  }

  /** What handle does with a request: the dump, or the panic that stops it
      before anything is written. */
  function Render(req: Request, body: seq<Chunk>, unmarshal: string -> Json): (r: Response)
    ensures r.Panicked? ==> HeaderGet(req.header, AuthorizationKey) != []
    ensures r.Sent? ==> GeneralBanner <= r.text
  {
    var auth := AuthSection(HeaderGet(req.header, AuthorizationKey), unmarshal);
    if auth.fault.Some? then Panicked(auth.fault.value)
    else Sent(Dump(req, auth.text, Copied(body)))
  }

  /** The handler panics exactly on the three faults of the Authorization
      value. */
  lemma RenderPanics(req: Request, body: seq<Chunk>, unmarshal: string -> Json)
    ensures var auth := HeaderGet(req.header, AuthorizationKey);
      Render(req, body, unmarshal).Panicked? <==>
        0 < |auth| < 7 ||
        (|auth| >= 7 && EqualFold(auth[..7], BearerPrefix) &&
         ('.' !in auth[7..] ||
          var claims := Base64Url.Decode(Split(auth[7..], '.')[1]);
          claims.Some? && unmarshal(claims.value) == NotAnObject))
  {
    var auth := HeaderGet(req.header, AuthorizationKey);
    AuthFaults(auth, unmarshal);
    var s := AuthSection(auth, unmarshal);
    assert s.fault.Some? ==> s.fault.value in {AuthorizationTooShort, TokenWithoutDot, PayloadNotAnObject};
  }

  /** Without an Authorization header there is no authentication section. */
  lemma NoAuthorizationNoSection(req: Request, body: seq<Chunk>, unmarshal: string -> Json)
    requires forall e :: 0 <= e < |req.header| ==> req.header[e].key != AuthorizationKey
    ensures Render(req, body, unmarshal) == Sent(Dump(req, [], Copied(body)))
  {
  }

  /** The dump's first lines are the general banner, "METHOD URL" as
      received, an empty line and the headers banner. */
  lemma DumpOpening(req: Request, auth: string, body: string)
    requires NoNewline(req.requestMethod) && NoNewline(req.url)
    ensures var lines := Split(Dump(req, auth, body), '\n');
      |lines| >= 4 && lines[0] == "=== General ===" && lines[1] == req.requestMethod + " " + req.url &&
      lines[2] == [] && lines[3] == "=== Headers ==="
  {
    OpeningLines(RequestLine(req), Sections(req, auth, body));
  }

  /** The dump ends with the body, verbatim, between its two delimiters,
      whatever bytes the body holds. */
  lemma DumpClosing(req: Request, auth: string, body: string)
    ensures EndsWith(Dump(req, auth, body), BodyOpening + body + BodyClosing)
  {
    var before := HeadersText(req.header) + auth + CookiesBanner + CookiesText(req.cookies) + "\n";
    EndsWithLast(GeneralBanner + RequestLine(req) + HeadersBanner, before, BodyOpening, body, BodyClosing);
  }

  /** The cookies section sits between its banner and a line feed, just
      before the body and its delimiters at the end of the dump. */
  lemma DumpCookies(req: Request, auth: string, body: string)
    ensures EndsWith(Dump(req, auth, body),
      CookiesBanner + CookiesText(req.cookies) + "\n" + BodyOpening + body + BodyClosing)
  {
    Tail(GeneralBanner + RequestLine(req) + HeadersBanner, HeadersText(req.header) + auth,
      CookiesBanner, CookiesText(req.cookies), "\n", BodyOpening, body, BodyClosing);
  }

  /** The last six parts of a concatenation end it. */
  lemma Tail(a: string, b: string, c: string, d: string, e: string, f: string, g: string, x: string)
    ensures EndsWith(a + (b + c + d + e + f + g + x), c + d + e + f + g + x)
  {
  }

  lemma EndsWithLast(q: string, p: string, x: string, y: string, z: string)
    ensures EndsWith(q + (p + x + y + z), x + y + z)
  {
  }

  lemma OpeningLines(requestLine: string, rest: string)
    requires '\n' !in requestLine
    ensures var lines := Split(GeneralBanner + requestLine + HeadersBanner + rest, '\n');
      |lines| >= 4 && lines[0] == "=== General ===" && lines[1] == requestLine &&
      lines[2] == [] && lines[3] == "=== Headers ==="
  {
    var l0: string, l3: string := "=== General ===", "=== Headers ===";
    Regrouped(GeneralBanner, requestLine, HeadersBanner, rest, l0, l3);
    FourLines(l0, requestLine, l3, rest);
  }

  /** The banners around the request line, regrouped line by line. */
  lemma Regrouped(g: string, line: string, h: string, rest: string, l0: string, l3: string)
    requires g == l0 + ['\n'] && h == ['\n', '\n'] + l3 + ['\n']
    ensures g + line + h + rest == l0 + ['\n'] + (line + ['\n'] + ([] + ['\n'] + (l3 + ['\n'] + rest)))
  {
  }

  lemma FourLines(l0: string, line: string, l3: string, rest: string)
    requires '\n' !in l0 && '\n' !in line && '\n' !in l3
    ensures var lines := Split(l0 + ['\n'] + (line + ['\n'] + ([] + ['\n'] + (l3 + ['\n'] + rest))), '\n');
      |lines| >= 4 && lines[0] == l0 && lines[1] == line && lines[2] == [] && lines[3] == l3
  {
    var after3 := l3 + ['\n'] + rest;
    var after2 := [] + ['\n'] + after3;
    var after1 := line + ['\n'] + after2;
    FieldsAfter(l0, after1, '\n');
    FieldsAfter(line, after2, '\n');
    FieldsAfter([], after3, '\n');
    FieldsAfter(l3, rest, '\n');
  }
}
