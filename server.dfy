/** The handler of server.go as it runs: every printer appends to one
    strings.Builder, the body is drained through a 1024-byte buffer, and
    each method is proved to write what module Render says it writes. */
module Server {
  import opened Text
  import opened Render
  import Base64Url

  /** The strings.Builder the dump is assembled in. */
  class Builder {
    var text: string

    constructor ()
      ensures text == []
    {
      text := [];
    }

    /** WriteString and Write: append bytes. */
    method WriteString(s: string)
      modifies this
      ensures text == old(text) + s
    {
      text := text + s;
    }
  }

  /** The request body: the answers the stream still has to give to Read,
      in order. */
  class Body {
    var pending: seq<Chunk>

    constructor (answers: seq<Chunk>)
      ensures pending == answers
    {
      pending := answers;
    }

    /** Read(p): the next answer, copied into the front of p; once no
        answers are left, the stream is at its end (0 bytes, io.EOF). */
    method Read(p: array<char>) returns (n: nat, failed: bool)
      requires FitsIn(pending, p.Length)
      modifies this, p
      ensures n <= p.Length && FitsIn(pending, p.Length)
      ensures old(pending) == [] ==> n == 0 && failed && pending == []
      ensures old(pending) != [] ==>
        p[..n] == old(pending)[0].data && failed == old(pending)[0].failed && pending == old(pending)[1..]
    {
      if pending == [] {
        n, failed := 0, true;
      } else {
        var answer := pending[0];
        n, failed := |answer.data|, answer.failed;
        forall i | 0 <= i < n {
          p[i] := answer.data[i];
        }
        pending := pending[1..];
      }
    }
  }

  /** printHeaders: one line per value of each header entry. */
  method PrintHeaders(b: Builder, h: seq<HeaderEntry>)
    modifies b
    ensures b.text == old(b.text) + HeadersText(h)
  {
    for i := 0 to |h|
      invariant b.text == old(b.text) + HeadersText(h[..i])
    {
      var key, values := h[i].key, h[i].values;
      ghost var before := b.text;
      for j := 0 to |values|
        invariant b.text == before + Concat(ValueLines(key, values[..j]))
      {
        b.WriteString(Line(key, values[j]));
        ValueLinesStep(key, values, j);
        Associative(before, Concat(ValueLines(key, values[..j])), Line(key, values[j]));
      }
      assert values[..|values|] == values;
      HeadersTextStep(h, i);
      Associative(old(b.text), HeadersText(h[..i]), Concat(ValueLines(key, values)));
    }
    assert h[..|h|] == h;
  }

  /** printCookies: each cookie's line, built from its three optional
      segments, with nothing between cookies. */
  method PrintCookies(b: Builder, cs: seq<Cookie>)
    modifies b
    ensures b.text == old(b.text) + CookiesText(cs)
  {
    for i := 0 to |cs|
      invariant b.text == old(b.text) + CookiesText(cs[..i])
    {
      var c := cs[i];
      var age := "";
      if c.maxAge > 0 {
        age := " [" + Decimal(c.maxAge) + "]";
      }
      var ho := "";
      if c.httpOnly {
        ho := " http-only";
      }
      var sec := "";
      if c.secure {
        sec := " secure";
      }
      assert age + ho + sec == Attributes(c);
      b.WriteString(c.domain + "/" + c.path + (age + ho + sec) + ": " + c.value);
      CookiesTextStep(cs, i);
      Associative(old(b.text), CookiesText(cs[..i]), CookieLine(c));
    }
    assert cs[..|cs|] == cs;
  }

  /** printAuth: classify the Authorization value, write the banner of its
      scheme and hand over to the scheme's printer; the result is the
      panic that stops the handler, if any. */
  method PrintAuth(b: Builder, h: seq<HeaderEntry>, unmarshal: string -> Json) returns (fault: Option<Fault>)
    modifies b
    ensures var section := AuthSection(HeaderGet(h, AuthorizationKey), unmarshal);
      fault == section.fault && b.text == old(b.text) + section.text
  {
    var auth := HeaderGet(h, AuthorizationKey);
    ghost var scheme := Classify(auth);
    fault := None;
    if auth != [] {
      if |auth| < 7 {
        assert scheme == TooShort;
        fault := Some(AuthorizationTooShort);
        return;
      }
      if Lower(auth[..7]) == BearerPrefix {
        assert scheme == BearerToken;
        b.WriteString(JwtBanner);
        fault := PrintJwt(b, auth, unmarshal);
        Associative(old(b.text), JwtBanner, JwtSection(auth[7..], unmarshal).text);
      } else if Lower(auth[..6]) == BasicPrefix {
        assert scheme == BasicCredentials;
        b.WriteString(BasicBanner);
        PrintBasicAuth(b, auth);
        Associative(old(b.text), BasicBanner, BasicSection(auth[6..]));
      } else {
        assert scheme == OtherScheme;
      }
    } else {
      assert scheme == NoAuthorization;
    }
  }

  /** printJwt: field 1 of the token, decoded and unmarshalled; one line
      per member of an object. */
  method PrintJwt(b: Builder, auth: string, unmarshal: string -> Json) returns (fault: Option<Fault>)
    requires |auth| >= 7
    modifies b
    ensures var section := JwtSection(auth[7..], unmarshal);
      fault == section.fault && b.text == old(b.text) + section.text
  {
    var ss := Split(auth[7..], '.');
    if |ss| < 2 {
      return Some(TokenWithoutDot);
    }
    fault := None;
    var s := Base64Url.Decode(ss[1]);
    if s.Some? {
      match unmarshal(s.value)
      case Malformed =>
      case NotAnObject =>
        fault := Some(PayloadNotAnObject);
      case Object(ms) =>
        for k := 0 to |ms|
          invariant b.text == old(b.text) + Concat(MemberLines(ms[..k]))
        {
          b.WriteString(Line(ms[k].key, ms[k].text));
          MemberLinesStep(ms, k);
          Associative(old(b.text), Concat(MemberLines(ms[..k])), Line(ms[k].key, ms[k].text));
        }
        assert ms[..|ms|] == ms;
    }
  }

  /** printBasicAuth: the text before the first ':' of the decoded
      credentials, then the redaction and the warning. */
  method PrintBasicAuth(b: Builder, auth: string)
    requires |auth| >= 6
    modifies b
    ensures b.text == old(b.text) + BasicSection(auth[6..])
  {
    var s := Base64Url.Decode(auth[6..]);
    if s.Some? {
      var ss := Split(s.value, ':');
      b.WriteString(ss[0] + Redacted);
      b.WriteString(Warning);
      Associative(old(b.text), ss[0] + Redacted, Warning);
    }
  }

  /** printBody: read into a 1024-byte buffer and append what each read
      returned, until a read returns nothing; a read that returns bytes
      with an error is appended and ends the loop. */
  method PrintBody(b: Builder, body: Body)
    requires FitsIn(body.pending, BufferSize)
    modifies b, body
    ensures b.text == old(b.text) + Copied(old(body.pending))
    ensures body.pending == Unread(old(body.pending))
  {
    ghost var answers := body.pending;
    var p := new char[BufferSize];
    var l, failed := body.Read(p);
    ghost var last := Chunk(p[..l], failed);
    while l > 0
      invariant FitsIn(body.pending, p.Length) && l <= p.Length
      invariant last == Chunk(p[..l], failed)
      invariant b.text + Copied([last] + body.pending) == old(b.text) + Copied(answers)
      invariant Unread([last] + body.pending) == Unread(answers)
      decreases |body.pending| + (if l > 0 then 1 else 0)
    {
      ghost var before := b.text;
      b.WriteString(p[..l]);
      if failed {
        assert ([last] + body.pending)[1..] == body.pending;
        break;
      }
      ghost var rest := body.pending;
      l, failed := body.Read(p);
      ghost var next := Chunk(p[..l], failed);
      NextRead(last, rest, next, body.pending);
      Associative(before, last.data, Copied([next] + body.pending));
      last := next;
    }
  }

  /** handle: the general section, the headers, the authentication section,
      the cookies and the body, in that order; a panic in printAuth ends
      the handler before anything is written or the body is read. */
  method Handle(req: Request, body: Body, unmarshal: string -> Json) returns (response: Response)
    requires FitsIn(body.pending, BufferSize)
    modifies body
    ensures response == Render.Render(req, old(body.pending), unmarshal)
    ensures body.pending == if response.Panicked? then old(body.pending) else Unread(old(body.pending))
  {
    ghost var answers := body.pending;
    ghost var section := AuthSection(HeaderGet(req.header, AuthorizationKey), unmarshal);
    var b := new Builder();
    b.WriteString(GeneralBanner);
    b.WriteString(RequestLine(req));
    b.WriteString(HeadersBanner);
    ghost var opening := b.text;
    assert opening == GeneralBanner + RequestLine(req) + HeadersBanner;
    PrintHeaders(b, req.header);
    var fault := PrintAuth(b, req.header, unmarshal);
    if fault.Some? {
      return Panicked(fault.value);
    }
    b.WriteString(CookiesBanner);
    PrintCookies(b, req.cookies);
    b.WriteString("\n");
    b.WriteString(BodyOpening);
    PrintBody(b, body);
    b.WriteString(BodyClosing);
    Assembled(opening, req, section.text, Copied(answers));
    assert b.text == Dump(req, section.text, Copied(answers));
    response := Sent(b.text);
  }

  // ---------------------------------------------------------------------
  // One step of each loop, in terms of the rendering functions.

  lemma ValueLinesStep(key: string, values: seq<string>, j: nat)
    requires j < |values|
    ensures Concat(ValueLines(key, values[..j + 1])) == Concat(ValueLines(key, values[..j])) + Line(key, values[j])
  {
    assert ValueLines(key, values[..j + 1]) == ValueLines(key, values[..j]) + [Line(key, values[j])];
    ConcatAppend(ValueLines(key, values[..j]), [Line(key, values[j])]);
  }

  lemma HeadersTextStep(h: seq<HeaderEntry>, i: nat)
    requires i < |h|
    ensures HeadersText(h[..i + 1]) == HeadersText(h[..i]) + Concat(ValueLines(h[i].key, h[i].values))
  {
    assert h[..i + 1] == h[..i] + [h[i]];
    HeaderLinesAppend(h[..i], [h[i]]);
    assert HeaderLines([h[i]]) == ValueLines(h[i].key, h[i].values) + HeaderLines([]);
    assert ValueLines(h[i].key, h[i].values) + [] == ValueLines(h[i].key, h[i].values);
    ConcatAppend(HeaderLines(h[..i]), ValueLines(h[i].key, h[i].values));
  }

  lemma CookiesTextStep(cs: seq<Cookie>, i: nat)
    requires i < |cs|
    ensures CookiesText(cs[..i + 1]) == CookiesText(cs[..i]) + CookieLine(cs[i])
  {
    assert CookieLines(cs[..i + 1]) == CookieLines(cs[..i]) + [CookieLine(cs[i])];
    ConcatAppend(CookieLines(cs[..i]), [CookieLine(cs[i])]);
  }

  lemma MemberLinesStep(ms: seq<Member>, k: nat)
    requires k < |ms|
    ensures Concat(MemberLines(ms[..k + 1])) == Concat(MemberLines(ms[..k])) + Line(ms[k].key, ms[k].text)
  {
    assert MemberLines(ms[..k + 1]) == MemberLines(ms[..k]) + [Line(ms[k].key, ms[k].text)];
    ConcatAppend(MemberLines(ms[..k]), [Line(ms[k].key, ms[k].text)]);
  }

  /** After a read that did not stop the loop, the next read answers the
      next chunk, or the end of the stream once there is none. */
  lemma NextRead(last: Chunk, rest: seq<Chunk>, next: Chunk, after: seq<Chunk>)
    requires !Stops(last)
    requires rest == [] ==> next == Chunk([], true) && after == []
    requires rest != [] ==> next == rest[0] && after == rest[1..]
    ensures Copied([last] + rest) == last.data + Copied([next] + after)
    ensures Unread([last] + rest) == Unread([next] + after)
  {
    assert ([last] + rest)[1..] == rest;
    if rest != [] {
      assert [next] + after == rest;
    }
  }

  /** The writes of handle after the headers banner make up Sections. */
  lemma Assembled(opening: string, req: Request, auth: string, body: string)
    ensures opening + HeadersText(req.header) + auth + CookiesBanner + CookiesText(req.cookies) + "\n"
      + BodyOpening + body + BodyClosing == opening + Sections(req, auth, body)
  {
    var s1 := HeadersText(req.header);
    var s2 := s1 + auth;
    Associative(opening, s1, auth);
    var s3 := s2 + CookiesBanner;
    Associative(opening, s2, CookiesBanner);
    var s4 := s3 + CookiesText(req.cookies);
    Associative(opening, s3, CookiesText(req.cookies));
    var s5 := s4 + "\n";
    Associative(opening, s4, "\n");
    var s6 := s5 + BodyOpening;
    Associative(opening, s5, BodyOpening);
    var s7 := s6 + body;
    Associative(opening, s6, body);
    Associative(opening, s7, BodyClosing);
  }
}
