# whatigot request dump, in Dafny

whatigot is an HTTP server that answers every request with a plain-text dump
of the request. The handler in `server.go` writes the dump in this order:

- a general section, `METHOD URL`;
- one line per header value;
- an authentication section for a Bearer token or Basic credentials;
- the cookies;
- the body, copied through a 1024-byte buffer.

This project models that handler and proves what it writes.

The model has four modules:

- **`Text`**: Go strings as Dafny strings, one character per byte. It holds
  `strings.Split` with its inverse `Join`, `strings.ToLower` used against a
  lower-case ASCII literal, decimal formatting of integers, and the
  concatenation a `strings.Builder` performs.
- **`Base64Url`**: `base64.RawURLEncoding.DecodeString`. This is the
  URL-and-filename-safe alphabet of section 5 of RFC 4648, with padding
  omitted as section 3.2 allows.
  - Carriage returns and line feeds are skipped.
  - `=` and every other byte outside the alphabet is an error.
  - A final group of one symbol is an error.
  - Unused low bits of a final group are ignored.
  - An encoder is included as the decoder's partner for the round-trip proof.
- **`Render`**: the rendering rules as functions of the request.
  - The request is its method, its URL text, its header entries and its cookie
    records. The body is the sequence of answers the stream gives to
    successive reads. The JSON decoder is a parameter.
  - The run-time panics of the handler are explicit outcomes (`Fault`):
    - a non-empty `Authorization` value shorter than 7 bytes (the slice
      `auth[0:7]`);
    - a Bearer token without a `.` (`ss[1]`);
    - claims that decode to JSON that is not an object (the type assertion).

    When the handler panics, nothing is written and the body is not read
    (`Response.Panicked`).
- **`Server`**: the handler as it runs.
  - A `Builder` class holds the text written so far, and a `Body` class holds
    the stream's pending answers.
  - There is one method per Go function. Each loop is proved with invariants to
    append exactly the text the `Render` functions describe.
  - `Handle` is proved to return `Render.Render` of the request. On a normal
    return it leaves exactly the chunks after the one that stopped the copy
    loop unread.

Behaviour of the handler that is easy to misread, which the model keeps as
`server.go` has it:

- A short `Authorization` value panics; it is not treated as "no match".
- A Bearer token without a dot panics; the section is not silently omitted.
- Claims that are JSON but not an object panic.
- The body is copied only up to the first read that returns no bytes or an
  error; it is not always drained.
- Cookie lines are written back to back with no line feed between them.
- There is only one layout. There is no banner-less "minimal" variant.
- Basic credentials are decoded with the URL-safe, unpadded alphabet. The
  standard base64 alphabet (section 4 of RFC 4648), which RFC 7617
  prescribes, agrees with it except on `+`, `/` and `=` padding. So only credentials whose standard encoding contains one of
  those show nothing after the banner.

## Model

| member | source | states |
|---|---|---|
| Text.Split | server.go:75 | strings.Split on one byte: there is one more field than there are separators, there are at least two fields exactly when the separator occurs, and no field contains the separator |
| Text.JoinSplit | server.go:75 | joining the fields with the separator gives the input back, so nothing is lost or reordered |
| Text.FirstField | server.go:91 | field 0 is a prefix free of the separator, and it is followed by the separator unless it is the whole input (ss[0] is the user name) |
| Text.LaterFields | server.go:75-76 | the fields after the first are the fields of the text after the first separator |
| Text.LowerEqualsIffFold | server.go:64-67 | comparing the ASCII-lowered prefix with a lower-case literal is exactly a case-insensitive comparison |
| Text.Lower | server.go:64-67 | strings.ToLower on ASCII: the result has the same length and no upper-case letter, and every other byte is kept; LowerEqualsIffFold turns the comparison into a case-insensitive one |
| Text.Decimal | server.go:101 | %v of a positive int gives at least one decimal digit, with no leading zero |
| Text.DecimalRoundTrip | server.go:101 | the digits written denote the number |
| Base64Url.Decode | server.go:76 | a successful decode yields 6/8 of a byte per symbol kept after the line breaks are removed |
| Base64Url.DecodeEncode | server.go:76 | decoding the unpadded base64url encoding of any byte string gives that byte string back |
| Base64Url.DecodeFails | server.go:89 | decoding fails exactly on a byte outside A-Z a-z 0-9 - _ that is not CR or LF (so on '='), or on a length of 1 mod 4 after removing line breaks |
| Base64Url.SkipNewlinesKeeps | server.go:89 | the decoder keeps exactly the bytes that are not CR or LF |
| Render.Line | server.go:57 | the header line `"%s: %s\n"`, written the same way as the claim line `"%s: %v\n"` at server.go:82: the key, ": ", the value and a final line feed; HeaderLinesAre and LineCount describe the header lines built from it |
| Render.HeaderLines | server.go:55-59 | the header text has one line per value, in total as many as there are values |
| Render.HeaderLinesAre | server.go:55-59 | a line is written exactly when it is `key: value\n` for some entry and some value of it |
| Render.HeaderLineCount | server.go:54-60 | when keys and values hold no line feed, the header text holds exactly one line feed per value |
| Render.AttributesRoundTrip | server.go:99-111 | the age, http-only and secure segments are present exactly when MaxAge > 0, HttpOnly and Secure hold, in that order, and they can be read back unambiguously |
| Render.CookieLineIgnoresName | server.go:111 | a cookie's name never affects its line |
| Render.CookiesOnOneLine | server.go:97-113 | no line feed separates cookies: without line feeds in domain, path and value the cookie text is one line |
| Render.SessionCookieExample | server.go:111 | a cookie with MaxAge 60, HttpOnly, and no domain or path is written `/ [60] http-only: abc` |
| Render.HeaderGet | server.go:63 | the value read is the first value of the first entry whose key matches, empty when that entry has no values, and empty when the key is absent |
| Render.Classify | server.go:62-72 | the value is compared with a scheme prefix exactly when it has at least 7 bytes |
| Render.ClassifyCases | server.go:62-72 | empty gives no section, 1 to 6 bytes panics, a case-insensitive "bearer " gives the token, and otherwise a case-insensitive "basic " gives credentials; Bearer wins, because the prefixes exclude each other |
| Render.AuthFaults | server.go:63-81 | the section panics on a short value, on a Bearer token without '.', and on claims that decode to a JSON non-object, in each case exactly then |
| Render.AuthBanner | server.go:62-72 | nothing is written exactly when the value matches neither prefix, and otherwise the text starts with that scheme's banner |
| Render.BannerBeforeDecoding | server.go:64-94 | when the claims or credentials do not decode, or the claims are not JSON, the banner alone is written |
| Render.BasicCredentialsShown | server.go:88-95 | with decodable credentials the section is the banner, the text before the first ':', the redaction and the warning, with no line feed; the user text is a ':'-free prefix of the credentials |
| Render.BasicRoundTrip | server.go:88-95 | the Basic section of the encoding of user ":" password shows the user, then the redaction and warning, and never the password |
| Render.BearerRoundTrip | server.go:74-86 | for a token head.claims.signature, an object gives one `key: value` line per member, malformed JSON gives nothing, and a non-object panics |
| Render.FieldsAfter | server.go:75 | splitting a separator-free field, a separator and a rest gives that field followed by the fields of the rest |
| Render.Unread | server.go:118-122 | the body the copy loop leaves unread is a suffix of the chunks, shorter than them unless there are none |
| Render.CopiedUpTo | server.go:115-124 | up to the first read that returns nothing or an error, every read is appended verbatim (including the read with the error), and no later read is taken |
| Render.CopiedAll | server.go:115-124 | when no read stops the loop, every read is appended and the stream's end stops it |
| Render.HeadersText | server.go:54-60 | printHeaders as a function: it writes nothing exactly when no header holds a value; HeaderLinesAre and HeaderLineCount describe its lines |
| Render.Attributes | server.go:99-110 | the age, ho and sec segments together are empty exactly when MaxAge <= 0 and neither flag is set; described by AttributesRoundTrip |
| Render.CookieLine | server.go:111 | the line of one cookie starts with its domain, "/" and path and ends with ": " and its value; AttributesRoundTrip, CookieLineIgnoresName and SessionCookieExample describe the rest |
| Render.CookiesText | server.go:97-113 | printCookies as a function: it writes nothing exactly when there are no cookies; CookiesOnOneLine shows the lines run together |
| Render.MemberLines | server.go:81-83 | one line per claim, each led by the claim's key; BearerRoundTrip ties these lines to the decoded claims |
| Render.JwtSection | server.go:74-86 | printJwt as a function: it panics for a missing '.' exactly when the token has no '.', and a panicking section writes nothing more; described by BearerRoundTrip and BannerBeforeDecoding |
| Render.Username | server.go:91 | ss[0] of the decoded credentials: a ':'-free prefix, followed by ':' unless it is all of them |
| Render.BasicSection | server.go:88-95 | printBasicAuth as a function: it writes nothing exactly when the credentials do not decode, and otherwise ends with the redaction and the warning; described by BasicCredentialsShown and BasicRoundTrip |
| Render.AuthSection | server.go:62-72 | printAuth as a function: its text is empty or starts with a banner, and it panics only on a non-empty value; described by ClassifyCases, AuthFaults and AuthBanner |
| Render.Copied | server.go:115-124 | printBody as a function of the reads: the first read is always appended verbatim; described by CopiedUpTo and CopiedAll |
| Render.ReadsTaken | server.go:118 | the copy loop takes no more reads than the stream answers; described by CopiedUpTo and CopiedAll |
| Render.Sections | server.go:34-45 | what handle writes after the headers banner starts with the headers and then the authentication section; DumpClosing describes its end |
| Render.Dump | server.go:31-45 | the text handle writes starts with the general banner, the request line and the headers banner; DumpOpening describes its first lines, DumpCookies the cookies section and DumpClosing the body |
| Render.RequestLine | server.go:32 | `fmt.Sprintf("%s %s", r.Method, r.URL)`: the method and a space lead it, and it has no line feed when method and URL have none; DumpOpening shows it as the dump's second line |
| Render.Render | server.go:28-45 | handle as a function: it panics only when the request has a non-empty Authorization value, and otherwise writes text starting with the general banner; RenderPanics and NoAuthorizationNoSection refine this |
| Render.RenderPanics | server.go:28-45 | the handler panics exactly on a short Authorization value, a Bearer token without '.', or claims that decode to a JSON non-object |
| Render.NoAuthorizationNoSection | server.go:62-63 | without an Authorization header the dump has no authentication section |
| Render.DumpOpening | server.go:31-34 | the dump's first lines are `=== General ===`, `METHOD URL`, an empty line and `=== Headers ===` |
| Render.DumpCookies | server.go:39-45 | the cookie text sits between the cookies banner and a line feed, and only the body and its two delimiters follow it |
| Render.DumpClosing | server.go:43-45 | the dump ends with the body verbatim between the two body delimiters |
| Server.Builder.constructor | server.go:29 | a new builder holds no text |
| Server.Builder.WriteString | server.go:57 | a write appends its bytes to the builder's text and changes nothing else |
| Server.Body.Read | server.go:118 | a read copies the next answer into the front of the buffer, returns its length and error, and consumes it; once there are no answers it returns 0 bytes and an error |
| Server.PrintHeaders | server.go:54-60 | the nested loops append exactly the header text |
| Server.PrintCookies | server.go:97-113 | the loop, choosing each segment as age, ho and sec, appends exactly the cookie text |
| Server.PrintAuth | server.go:62-72 | writes the authentication section and reports its panic |
| Server.PrintJwt | server.go:74-86 | writes the members of the claims, or panics on a missing '.' or a non-object |
| Server.PrintBasicAuth | server.go:88-95 | writes the user, the redaction and the warning, or nothing when decoding fails |
| Server.PrintBody | server.go:115-124 | the read loop over the 1024-byte buffer appends exactly the copied body, and leaves the unread chunks in the stream |
| Server.Handle | server.go:28-45 | the handler produces Render of the request: the full dump, or a panic with nothing written and the body untouched |

## Left out

- The server bootstrap (`main`, `http.ListenAndServe`) is not modelled; it is network I/O.
- The response is not written: the `Content-Type` header, `w.Write` and the logging of a write error are left out as network I/O and logging. `Handle` returns the text instead.
- `json.Unmarshal` and `%v` formatting of JSON values are not modelled. They are library code: the decoder is the parameter `unmarshal`, which returns an error, a non-object, or the object's members with their values already formatted.
- net/http's construction of the inputs is not modelled, because the model starts from what net/http hands over:
  - header-key canonicalisation;
  - `r.Cookies()` parsing, so request cookies carry only a name and a value, and the other fields are zero unless given;
  - the serialisation of `r.URL`.

  The method, URL text, header entries and cookie records are inputs.
- HeaderGet: takes the first entry whose key is exactly `Authorization`, since a Go header map has one entry per key. Canonicalisation of the key is not modelled.
- Go's map iteration order, for header keys and for JSON object members, is not modelled: it is the order of the caller's sequence, and nothing is claimed about order across keys.
- Concurrency between requests is not modelled; the handler shares no state.
- UTF-8 is not modelled.
  - Strings are sequences of bytes, one character per byte.
  - `strings.ToLower` is modelled as ASCII lowering. It is only compared with the lower-case ASCII literals `"bearer "` and `"basic "`, and a prefix that has a non-ASCII byte cannot lower to those under Go's Unicode rules either.
- The buffer's bytes beyond what a read returned are not modelled.
- Server.Body.Read: the io.Reader contract, that a read returns at most the buffer's length, is a precondition of `Read`, `PrintBody` and `Handle` (`FitsIn`). A reader that breaks it is not modelled.
- The reuse and growth of the `strings.Builder`'s storage are not modelled; the builder is its text.
