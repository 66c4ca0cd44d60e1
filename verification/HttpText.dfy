/** The HTTP request parser as a function, a printer of requests, and the proof that one undoes the other. */
module HttpText {
  import opened Wrappers
  import opened CText

  const METHOD_SIZE := 8
  const PATH_SIZE := 256
  const AUTH_SIZE := 512
  const BODY_MAX := 1024 * 1024

  const CRLF := "\r\n"
  const BLANK_LINE := "\r\n\r\n"
  const AUTHORIZATION := "\r\nAuthorization: "

  // ---- The searches of the C library ----

  predicate Without(s: string, c: char) {
    forall i :: 0 <= i < |s| ==> s[i] != c
  }

  // A buffer up to the first of a character; a C string is a buffer up to its NUL.
  function UpTo(s: string, c: char): (r: string)
    ensures r <= s && Without(r, c)
    ensures |r| < |s| ==> s[|r|] == c
  {
    if s == "" || s[0] == c then "" else [s[0]] + UpTo(s[1..], c)
  }

  // strchr: where a character is first; the length when it is nowhere.
  function IndexOf(s: string, c: char): nat {
    |UpTo(s, c)|
  }

  function LowerCase(c: char): char {
    if 'A' <= c <= 'Z' then c + 32 as char else c
  }

  predicate SameChar(fold: bool, a: char, b: char) {
    a == b || (fold && LowerCase(a) == LowerCase(b))
  }

  predicate Starts(fold: bool, s: string, pat: string) {
    |pat| <= |s| && forall i {:trigger SameChar(fold, s[i], pat[i])} :: 0 <= i < |pat| ==> SameChar(fold, s[i], pat[i])
  }

  // strstr, or strcasestr when folding: where a text first is; the length when it is nowhere.
  function Find(fold: bool, s: string, pat: string): (n: nat)
    requires pat != ""
    ensures n <= |s| && (n < |s| ==> n + |pat| <= |s|)
  {
    if s == "" || Starts(fold, s, pat) then 0 else 1 + Find(fold, s[1..], pat)
  }

  // What is found is the first place where the text starts, and nothing is found when there is none.
  lemma {:induction false} FindIsFirst(fold: bool, s: string, pat: string)
    requires pat != ""
    ensures var n := Find(fold, s, pat);
            && (n < |s| ==> Starts(fold, s[n..], pat))
            && (forall i :: 0 <= i < n ==> !Starts(fold, s[i..], pat))
  {
    if s != "" && !Starts(fold, s, pat) {
      FindIsFirst(fold, s[1..], pat);
      assert forall i :: 1 <= i <= |s| ==> s[i..] == s[1..][i - 1..];
      assert s[0..] == s;
    } else {
      assert s[0..] == s;
    }
  }

  // ---- Parsing ----

  datatype Parsed = Parsed(verb: string, path: string, auth: string, body: Option<string>)

  // A text up to the end of its line, as far as it fits the buffer.
  function LineClip(value: string, eol: string): string
    requires eol != ""
  {
    Clip(value[..Find(false, value, eol)], AUTH_SIZE)
  }

  function DropAt(text: string, k: nat): string {
    if k <= |text| then text[k..] else ""
  }

  // The rest of the line after the first place a prefix is found; nothing when it is nowhere.
  function ValueAfter(text: string, pat: string, eol: string): string
    requires pat != "" && eol != ""
  {
    LineClip(DropAt(text, Find(true, text, pat) + |pat|), eol)
  }

  // The value of the first line found that begins with the Authorization prefix.
  function AuthOf(text: string): string {
    ValueAfter(text, AUTHORIZATION, CRLF)
  }

  // The path is cut to its buffer and then at its query; a body is kept when it is not empty and
  // under the limit.
  function Fields(verb: string, target: string, auth: string, body: string): Parsed {
    Parsed(verb, UpTo(Clip(target, PATH_SIZE), '?'), auth, if 0 < |body| < BODY_MAX then Some(body) else None)
  }

  // Where the method ends, where the target ends after it, and where the blank line begins.
  datatype Cuts = Cuts(verb: nat, target: nat, head: nat)

  // From where the first two blanks and the blank line were found, in a text of some length.
  function CutsAt(len: nat, sp: nat, sp2: nat, head: nat): Option<Cuts> {
    if sp >= len || sp >= METHOD_SIZE || sp + 1 + sp2 >= len || head >= len then None
    else Some(Cuts(sp, sp2, head))
  }

  function CutsOf(text: string): (c: Option<Cuts>)
    ensures c.Some? ==> c.value.verb + 1 + c.value.target < |text| && c.value.head + 4 <= |text|
  {
    var sp := IndexOf(text, ' ');
    CutsAt(|text|, sp, IndexOf(DropAt(text, sp + 1), ' '), Find(false, text, BLANK_LINE))
  }

  // The fields at given places, with the body as it was received.
  function FieldsAt(data: string, text: string, cuts: Option<Cuts>, auth: string): Option<Parsed>
    requires text <= data
    requires cuts.Some? ==> cuts.value.verb + 1 + cuts.value.target < |text| && cuts.value.head + 4 <= |text|
  {
    match cuts
    case None => None
    case Some(c) => Some(Fields(text[..c.verb], text[c.verb + 1..][..c.target], auth, data[c.head + 4..]))
  }

  // gw_parse_request on the bytes received; the searches stop at the first NUL, the body does not.
  function Parse(data: string): Option<Parsed> {
    var text := UpTo(data, '\0');
    FieldsAt(data, text, CutsOf(text), AuthOf(text))
  }

  // ---- Printing ----

  datatype Header = Header(name: string, value: string)

  // A request: its line as in section 3 of RFC 9112, its header lines, and its body.
  datatype Request = Request(verb: string, target: string, headers: seq<Header>, body: string)

  function LineOf(h: Header): string {
    h.name + ": " + h.value
  }

  function Lines(headers: seq<Header>): string {
    if headers == [] then ""
    else CRLF + LineOf(headers[0]) + Lines(headers[1..])
  }

  function RequestLine(r: Request): string {
    r.verb + " " + r.target + " HTTP/1.1"
  }

  function Head(r: Request): string {
    RequestLine(r) + Lines(r.headers) + BLANK_LINE
  }

  function Render(r: Request): string {
    Head(r) + r.body
  }

  predicate Plain(s: string) {
    Without(s, '\0') && Without(s, '\r')
  }

  // What the grammar asks of the parts: no blank in the method and the target, no colon in a field
  // name, and no NUL or end of line in any of them. The body is free.
  predicate WellFormed(r: Request) {
    && Plain(r.verb) && Plain(r.target) && Without(r.verb, ' ') && Without(r.target, ' ')
    && forall h :: h in r.headers ==> Plain(h.name) && Plain(h.value) && Without(h.name, ':')
  }

  predicate IsAuth(name: string) {
    |name| == 13 && Starts(true, name, "Authorization")
  }

  // The first Authorization field, as far as it fits; without one, what the search finds on from
  // the blank line.
  function ExpectedAuth(headers: seq<Header>, body: string): string {
    if headers == [] then AuthOf(CRLF + UpTo(body, '\0'))
    else if IsAuth(headers[0].name) then Clip(headers[0].value, AUTH_SIZE)
    else ExpectedAuth(headers[1..], body)
  }

  // ---- Searching in what was printed ----

  lemma {:induction false} UpToConcat(s: string, c: char, rest: string)
    requires Without(s, c)
    ensures UpTo(s + rest, c) == s + UpTo(rest, c)
  {
    if s == "" {
      assert s + rest == rest;
    } else {
      assert (s + rest)[1..] == s[1..] + rest;
      UpToConcat(s[1..], c, rest);
    }
  }

  lemma IndexAfter(s: string, c: char, rest: string)
    requires Without(s, c)
    ensures IndexOf(s + [c] + rest, c) == |s|
  {
    assert s + [c] + rest == s + ([c] + rest);
    UpToConcat(s, c, [c] + rest);
  }

  // A text that begins with a carriage return is not found before the first one.
  lemma {:induction false} FindSkips(fold: bool, p: string, t: string, pat: string)
    requires pat != "" && pat[0] == '\r' && Without(p, '\r')
    ensures Find(fold, p + t, pat) == |p| + Find(fold, t, pat)
  {
    if p == "" {
      assert p + t == t;
    } else {
      var s := p + t;
      assert s[1..] == p[1..] + t;
      assert !SameChar(fold, s[0], pat[0]);
      FindSkips(fold, p[1..], t, pat);
    }
  }

  // A line that does not match is skipped whole.
  lemma FindSkipsLine(fold: bool, line: string, t: string, pat: string)
    requires pat != "" && pat[0] == '\r' && Without(line, '\r')
    requires !Starts(fold, CRLF + line + t, pat)
    ensures Find(fold, CRLF + line + t, pat) == 2 + |line| + Find(fold, t, pat)
  {
    var s := CRLF + line + t;
    assert s[1..] == "\n" + line + t;
    assert "\n" + line + t == ("\n" + line) + t;
    FindSkips(fold, "\n" + line, t, pat);
  }

  lemma Regroup(a: string, b: string, c: string, d: string)
    ensures a + b + c + d == a + b + (c + d)
  {
  }

  lemma LinesStep(headers: seq<Header>, tail: string)
    requires headers != []
    ensures Lines(headers) + tail == CRLF + LineOf(headers[0]) + (Lines(headers[1..]) + tail)
  {
  }

  lemma LinePlain(h: Header)
    requires Plain(h.name) && Plain(h.value)
    ensures Plain(LineOf(h))
  {
  }

  // Neither a blank line nor an Authorization line can begin where a blank line's first half or a
  // header line does: its third character differs.
  lemma ThirdDiffers(fold: bool, line: string, t: string, pat: string)
    requires |pat| >= 3 && |line + t| > 0 && !SameChar(fold, (line + t)[0], pat[2])
    ensures !Starts(fold, CRLF + line + t, pat)
  {
    assert (CRLF + line + t)[2] == (line + t)[0];
  }

  lemma BlankLineStep(h: Header, more: string)
    requires Plain(h.name) && Plain(h.value)
    ensures Find(false, CRLF + LineOf(h) + more, BLANK_LINE) == 2 + |LineOf(h)| + Find(false, more, BLANK_LINE)
  {
    LinePlain(h);
    ThirdDiffers(false, LineOf(h), more, BLANK_LINE);
    FindSkipsLine(false, LineOf(h), more, BLANK_LINE);
  }

  // No header line is blank, so the blank line is found where the lines end.
  lemma {:induction false} BlankLineFound(headers: seq<Header>, tail: string)
    requires forall h :: h in headers ==> Plain(h.name) && Plain(h.value)
    requires Starts(false, tail, BLANK_LINE)
    ensures Find(false, Lines(headers) + tail, BLANK_LINE) == |Lines(headers)|
  {
    if headers == [] {
      assert Lines(headers) + tail == tail;
    } else {
      LinesStep(headers, tail);
      BlankLineStep(headers[0], Lines(headers[1..]) + tail);
      BlankLineFound(headers[1..], tail);
    }
  }

  lemma AuthPrefix()
    ensures |AUTHORIZATION| == 17 && AUTHORIZATION[0] == '\r' && AUTHORIZATION[1] == '\n' && AUTHORIZATION[2] == 'A'
    ensures AUTHORIZATION[15] == ':' && AUTHORIZATION[16] == ' '
    ensures forall i :: 0 <= i < 13 ==>
              AUTHORIZATION[i + 2] == "Authorization"[i] && LowerCase("Authorization"[i]) != ':'
  {
  }

  // A line begins with the Authorization prefix exactly when that is its field's name.
  lemma AuthLine(h: Header, more: string)
    requires Without(h.name, ':')
    ensures Starts(true, CRLF + LineOf(h) + more, AUTHORIZATION) <==> IsAuth(h.name)
  {
    var s := CRLF + LineOf(h) + more;
    assert forall i :: 0 <= i < |h.name| ==> s[2 + i] == h.name[i];
    assert s[2 + |h.name|] == ':' && s[3 + |h.name|] == ' ';
    AuthPrefix();
    if IsAuth(h.name) {
      forall i | 0 <= i < 17 ensures SameChar(true, s[i], AUTHORIZATION[i]) {
        if 2 <= i < 15 {
          assert SameChar(true, h.name[i - 2], "Authorization"[i - 2]);
        }
      }
    }
    if |h.name| != 13 {
      var k := if |h.name| < 13 then |h.name| else 13;
      assert |h.name| > 13 ==> s[2 + k] == h.name[13];
      assert !SameChar(true, s[2 + k], AUTHORIZATION[2 + k]);
    } else if Starts(true, s, AUTHORIZATION) {
      forall i | 0 <= i < 13 ensures SameChar(true, h.name[i], "Authorization"[i]) {
        assert SameChar(true, s[i + 2], AUTHORIZATION[i + 2]);
      }
    }
  }

  lemma DropShift(p: string, t: string, k: nat)
    ensures DropAt(p + t, |p| + k) == DropAt(t, k)
  {
  }

  lemma LineShift(p: string, t: string, k: nat, eol: string)
    requires eol != ""
    ensures LineClip(DropAt(p + t, |p| + k), eol) == LineClip(DropAt(t, k), eol)
  {
    DropShift(p, t, k);
  }

  lemma ValueIs(text: string, pat: string, eol: string, k: nat)
    requires pat != "" && eol != "" && Find(true, text, pat) + |pat| == k
    ensures ValueAfter(text, pat, eol) == LineClip(DropAt(text, k), eol)
  {
  }

  // Text in front in which the prefix does not begin changes nothing.
  lemma ValueShift(p: string, t: string, pat: string, eol: string)
    requires pat != "" && eol != "" && Find(true, p + t, pat) == |p| + Find(true, t, pat)
    ensures ValueAfter(p + t, pat, eol) == ValueAfter(t, pat, eol)
  {
    var n := Find(true, t, pat) + |pat|;
    ValueIs(p + t, pat, eol, |p| + n);
    ValueIs(t, pat, eol, n);
    LineShift(p, t, n, eol);
  }

  lemma LineClipHere(value: string, more: string, eol: string)
    requires Plain(value) && eol != "" && eol[0] == '\r' && Starts(false, more, eol)
    ensures LineClip(value + more, eol) == Clip(value, AUTH_SIZE)
  {
    FindSkips(false, value, more, eol);
    assert (value + more)[..|value|] == value;
  }

  lemma ValueHere(text: string, pat: string, value: string, more: string, eol: string)
    requires pat != "" && Starts(true, text, pat) && text[|pat|..] == value + more
    requires Plain(value) && eol != "" && eol[0] == '\r' && Starts(false, more, eol)
    ensures ValueAfter(text, pat, eol) == Clip(value, AUTH_SIZE)
  {
    LineClipHere(value, more, eol);
  }

  lemma AuthHere(h: Header, more: string)
    requires Plain(h.value) && IsAuth(h.name) && Without(h.name, ':') && Starts(false, more, CRLF)
    ensures AuthOf(CRLF + LineOf(h) + more) == Clip(h.value, AUTH_SIZE)
  {
    var s := CRLF + LineOf(h) + more;
    AuthLine(h, more);
    AuthPrefix();
    assert s[17..] == h.value + more;
    ValueHere(s, AUTHORIZATION, h.value, more, CRLF);
  }

  lemma AuthOther(h: Header, more: string)
    requires Plain(h.name) && Plain(h.value) && Without(h.name, ':') && !IsAuth(h.name)
    ensures AuthOf(CRLF + LineOf(h) + more) == AuthOf(more)
  {
    AuthLine(h, more);
    LinePlain(h);
    AuthPrefix();
    FindSkipsLine(true, LineOf(h), more, AUTHORIZATION);
    ValueShift(CRLF + LineOf(h), more, AUTHORIZATION, CRLF);
  }

  lemma BlankLineIsTwo(rest: string)
    ensures BLANK_LINE + rest == CRLF + (CRLF + rest)
  {
  }

  lemma FindSkipsCrlf(fold: bool, t: string, pat: string)
    requires |pat| >= 3 && pat[0] == '\r' && t != "" && !SameChar(fold, t[0], pat[2])
    ensures Find(fold, CRLF + t, pat) == |CRLF| + Find(fold, t, pat)
  {
    assert "" + t == t && CRLF + "" + t == CRLF + t;
    ThirdDiffers(fold, "", t, pat);
    FindSkipsLine(fold, "", t, pat);
  }

  lemma AuthBeyond(rest: string)
    ensures AuthOf(BLANK_LINE + rest) == AuthOf(CRLF + rest)
  {
    BlankLineIsTwo(rest);
    AuthPrefix();
    FindSkipsCrlf(true, CRLF + rest, AUTHORIZATION);
    ValueShift(CRLF, CRLF + rest, AUTHORIZATION, CRLF);
  }

  lemma LinesStart(headers: seq<Header>, tail: string)
    requires Starts(false, tail, CRLF)
    ensures Starts(false, Lines(headers) + tail, CRLF)
  {
  }

  // The search for the Authorization line finds the first field of that name.
  lemma {:induction false} AuthFound(headers: seq<Header>, body: string)
    requires forall h :: h in headers ==> Plain(h.name) && Plain(h.value) && Without(h.name, ':')
    ensures AuthOf(Lines(headers) + (BLANK_LINE + UpTo(body, '\0'))) == ExpectedAuth(headers, body)
  {
    var tail := BLANK_LINE + UpTo(body, '\0');
    if headers == [] {
      assert Lines(headers) + tail == tail;
      AuthBeyond(UpTo(body, '\0'));
    } else {
      LinesStep(headers, tail);
      if IsAuth(headers[0].name) {
        LinesStart(headers[1..], tail);
        AuthHere(headers[0], Lines(headers[1..]) + tail);
      } else {
        AuthOther(headers[0], Lines(headers[1..]) + tail);
        AuthFound(headers[1..], body);
      }
    }
  }

  lemma {:induction false} LinesNulFree(headers: seq<Header>)
    requires forall h :: h in headers ==> Plain(h.name) && Plain(h.value)
    ensures Without(Lines(headers), '\0')
  {
    if headers != [] {
      LinesNulFree(headers[1..]);
      LinePlain(headers[0]);
    }
  }

  // Cutting a target to its buffer and then at its query is cutting its path to the buffer.
  lemma {:induction false} ClipQuery(s: string, n: nat)
    ensures UpTo(if |s| < n + 1 then s else s[..n], '?') ==
            (if |UpTo(s, '?')| < n + 1 then UpTo(s, '?') else UpTo(s, '?')[..n])
  {
    if s != "" && s[0] != '?' && n > 0 {
      ClipQuery(s[1..], n - 1);
      assert |s| >= n + 1 ==> s[..n][1..] == s[1..][..n - 1];
    }
  }

  // ---- Parsing what was printed ----

  function ExpectedPath(target: string): string {
    Clip(UpTo(target, '?'), PATH_SIZE)
  }

  lemma RequestLineRead(verb: string, target: string, rest: string)
    requires Without(verb, ' ') && Without(target, ' ')
    ensures var text := verb + " " + target + " HTTP/1.1" + rest;
            && IndexOf(text, ' ') == |verb| < |text|
            && text[..|verb|] == verb
            && text[|verb| + 1..] == target + " " + ("HTTP/1.1" + rest)
            && IndexOf(text[|verb| + 1..], ' ') == |target|
            && text[|verb| + 1..][..|target|] == target
  {
    var text, after := verb + " " + target + " HTTP/1.1" + rest, "HTTP/1.1" + rest;
    assert text == verb + [' '] + (target + [' '] + after);
    IndexAfter(verb, ' ', target + [' '] + after);
    assert text[|verb| + 1..] == target + [' '] + after;
    IndexAfter(target, ' ', after);
  }

  lemma Nested(a: string, b: string, c: string, d: string)
    ensures a + b + c + d == a + (b + (c + d))
  {
  }

  lemma SeenText(a: string, b: string, c: string, d: string)
    requires Without(a, '\0') && Without(b, '\0') && Without(c, '\0')
    ensures UpTo(a + b + c + d, '\0') == a + (b + (c + UpTo(d, '\0')))
  {
    assert Without(a + b + c, '\0');
    UpToConcat(a + b + c, '\0', d);
    Nested(a, b, c, UpTo(d, '\0'));
  }

  lemma RequestLinePlain(r: Request)
    requires WellFormed(r)
    ensures Plain(RequestLine(r))
  {
  }

  // What the searches see of a printed request: the head, and the body up to its first NUL.
  lemma TextOfRendered(r: Request)
    requires WellFormed(r)
    ensures UpTo(Render(r), '\0') == RequestLine(r) + (Lines(r.headers) + (BLANK_LINE + UpTo(r.body, '\0')))
  {
    LinesNulFree(r.headers);
    RequestLinePlain(r);
    SeenText(RequestLine(r), Lines(r.headers), BLANK_LINE, r.body);
  }

  lemma HeadFound(line: string, headers: seq<Header>, tail: string)
    requires Without(line, '\r') && Starts(false, tail, BLANK_LINE)
    requires forall h :: h in headers ==> Plain(h.name) && Plain(h.value)
    ensures Find(false, line + (Lines(headers) + tail), BLANK_LINE) == |line| + |Lines(headers)|
  {
    FindSkips(false, line, Lines(headers) + tail, BLANK_LINE);
    BlankLineFound(headers, tail);
  }

  lemma BodyOfRendered(r: Request)
    ensures |RequestLine(r)| + |Lines(r.headers)| + 4 <= |Render(r)|
    ensures Render(r)[|RequestLine(r)| + |Lines(r.headers)| + 4..] == r.body
  {
  }

  lemma WordsOfRendered(r: Request)
    requires WellFormed(r)
    ensures var text := UpTo(Render(r), '\0');
            && IndexOf(text, ' ') == |r.verb| && |r.verb| + 1 + |r.target| < |text|
            && IndexOf(DropAt(text, |r.verb| + 1), ' ') == |r.target|
            && text[..|r.verb|] == r.verb && text[|r.verb| + 1..][..|r.target|] == r.target
  {
    TextOfRendered(r);
    RequestLineRead(r.verb, r.target, Lines(r.headers) + (BLANK_LINE + UpTo(r.body, '\0')));
  }

  lemma BlankStarts(rest: string)
    ensures Starts(false, BLANK_LINE + rest, BLANK_LINE)
  {
  }

  lemma HeadOfRendered(r: Request)
    requires WellFormed(r)
    ensures var text, head := UpTo(Render(r), '\0'), |RequestLine(r)| + |Lines(r.headers)|;
            Find(false, text, BLANK_LINE) == head < |text|
  {
    RequestLinePlain(r);
    TextOfRendered(r);
    BlankStarts(UpTo(r.body, '\0'));
    HeadFound(RequestLine(r), r.headers, BLANK_LINE + UpTo(r.body, '\0'));
  }

  lemma CutsOfRendered(r: Request)
    requires WellFormed(r)
    ensures CutsOf(UpTo(Render(r), '\0')) ==
            if |r.verb| >= METHOD_SIZE then None
            else Some(Cuts(|r.verb|, |r.target|, |RequestLine(r)| + |Lines(r.headers)|))
  {
    WordsOfRendered(r);
    HeadOfRendered(r);
  }

  lemma AuthOfRendered(r: Request)
    requires WellFormed(r)
    ensures AuthOf(UpTo(Render(r), '\0')) == ExpectedAuth(r.headers, r.body)
  {
    var line, rest := RequestLine(r), Lines(r.headers) + (BLANK_LINE + UpTo(r.body, '\0'));
    RequestLinePlain(r);
    TextOfRendered(r);
    AuthPrefix();
    FindSkips(true, line, rest, AUTHORIZATION);
    ValueShift(line, rest, AUTHORIZATION, CRLF);
    AuthFound(r.headers, r.body);
  }

  lemma FieldsAtAre(data: string, text: string, verb: string, target: string, head: nat, auth: string, body: string)
    requires text <= data && |verb| + 1 + |target| < |text| && head + 4 <= |text|
    requires text[..|verb|] == verb && text[|verb| + 1..][..|target|] == target && data[head + 4..] == body
    ensures FieldsAt(data, text, Some(Cuts(|verb|, |target|, head)), auth) == Some(Fields(verb, target, auth, body))
  {
  }

  lemma PathCut(target: string)
    ensures UpTo(Clip(target, PATH_SIZE), '?') == ExpectedPath(target)
  {
    ClipQuery(target, PATH_SIZE - 1);
  }

  lemma FieldsOfRendered(r: Request)
    requires WellFormed(r)
    ensures var text, head := UpTo(Render(r), '\0'), |RequestLine(r)| + |Lines(r.headers)|;
            && |r.verb| + 1 + |r.target| < |text| && head + 4 <= |text|
            && FieldsAt(Render(r), text, Some(Cuts(|r.verb|, |r.target|, head)), ExpectedAuth(r.headers, r.body)) ==
               Some(Fields(r.verb, r.target, ExpectedAuth(r.headers, r.body), r.body))
  {
    WordsOfRendered(r);
    HeadOfRendered(r);
    BodyOfRendered(r);
    FieldsAtAre(Render(r), UpTo(Render(r), '\0'), r.verb, r.target, |RequestLine(r)| + |Lines(r.headers)|,
                ExpectedAuth(r.headers, r.body), r.body);
  }

  // Parsing a printed request gives back its parts: the method when it fits, otherwise the request
  // is refused; the path without its query, as far as it fits; the first Authorization value, as
  // far as it fits; and the body when it is not empty and under the limit.
  lemma ParseUndoesRender(r: Request)
    requires WellFormed(r)
    ensures Parse(Render(r)) ==
            if |r.verb| >= 8 then None
            else Some(Parsed(r.verb, Clip(UpTo(r.target, '?'), 256), ExpectedAuth(r.headers, r.body),
                             if 0 < |r.body| < 1024 * 1024 then Some(r.body) else None))
  {
    CutsOfRendered(r);
    AuthOfRendered(r);
    if |r.verb| < METHOD_SIZE {
      FieldsOfRendered(r);
      PathCut(r.target);
    }
  }

  predicate BlankLineAt(text: string, h: nat) {
    h + 4 <= |text| && text[h] == '\r' && text[h + 1] == '\n' && text[h + 2] == '\r' && text[h + 3] == '\n'
  }

  // A request is refused exactly when, up to its first NUL, there is no blank within its first 8
  // characters, no second blank, or no blank line.
  lemma RefusedExactly(data: string)
    ensures var text := UpTo(data, '\0');
            Parse(data).Some? <==>
              && (exists i, j :: 0 <= i < j < |text| && i < 8 && text[i] == ' ' && text[j] == ' ')
              && (exists h: nat :: BlankLineAt(text, h))
  {
    CutsExactly(UpTo(data, '\0'));
  }

  lemma CutsExactly(text: string)
    ensures CutsOf(text).Some? <==>
              && (exists i, j :: 0 <= i < j < |text| && i < 8 && text[i] == ' ' && text[j] == ' ')
              && (exists h: nat :: BlankLineAt(text, h))
  {
    TwoBlanks(text);
    BlankLineExactly(text);
  }

  // Where a request has its words, as far as the parser is concerned.
  lemma TwoBlanks(text: string)
    ensures var sp := IndexOf(text, ' ');
            (sp < |text| && sp < METHOD_SIZE && sp + 1 + IndexOf(DropAt(text, sp + 1), ' ') < |text|) <==>
            exists i, j :: 0 <= i < j < |text| && i < 8 && text[i] == ' ' && text[j] == ' '
  {
    var sp := IndexOf(text, ' ');
    assert text[..sp] == UpTo(text, ' ');
    assert forall k :: 0 <= k < sp ==> text[k] == UpTo(text, ' ')[k];
    if sp < |text| {
      var rest := text[sp + 1..];
      var sp2 := IndexOf(rest, ' ');
      assert rest[..sp2] == UpTo(rest, ' ');
      assert forall k :: 0 <= k < sp2 ==> rest[k] == UpTo(rest, ' ')[k];
      assert forall k :: sp < k < |text| ==> text[k] == rest[k - sp - 1];
      if sp2 < |rest| {
        assert text[sp] == ' ' && text[sp + 1 + sp2] == ' ';
      }
    }
  }

  lemma BlankLineExactly(text: string)
    ensures Find(false, text, BLANK_LINE) < |text| <==> exists h: nat :: BlankLineAt(text, h)
  {
    var n := Find(false, text, BLANK_LINE);
    FindIsFirst(false, text, BLANK_LINE);
    if n < |text| {
      BlankLineHere(text, n);
    }
    if h: nat :| BlankLineAt(text, h) {
      BlankLineHere(text, h);
    }
  }

  lemma BlankLineHere(text: string, h: nat)
    requires h <= |text|
    ensures Starts(false, text[h..], BLANK_LINE) <==> BlankLineAt(text, h)
  {
    var s := text[h..];
    assert |BLANK_LINE| == 4 && BLANK_LINE[0] == BLANK_LINE[2] == '\r' && BLANK_LINE[1] == BLANK_LINE[3] == '\n';
    if Starts(false, s, BLANK_LINE) {
      assert SameChar(false, s[0], BLANK_LINE[0]) && SameChar(false, s[1], BLANK_LINE[1]);
      assert SameChar(false, s[2], BLANK_LINE[2]) && SameChar(false, s[3], BLANK_LINE[3]);
    }
  }

  // ---- Where the Authorization value comes from ----

  // A field's name is told whatever the case of its letters.
  lemma AuthIgnoresCase(name: string)
    ensures IsAuth(name) <==>
            |name| == 13 && forall i :: 0 <= i < 13 ==> name[i] == "authorization"[i] || name[i] == "AUTHORIZATION"[i]
  {
    if |name| == 13 {
      forall i | 0 <= i < 13
        ensures SameChar(true, name[i], "Authorization"[i]) <==>
                name[i] == "authorization"[i] || name[i] == "AUTHORIZATION"[i]
      {
        EitherCase(name[i], "authorization"[i], "AUTHORIZATION"[i], "Authorization"[i]);
      }
    }
  }

  lemma EitherCase(c: char, low: char, high: char, one: char)
    requires 'a' <= low <= 'z' && high as int == low as int - 32 && (one == low || one == high)
    ensures SameChar(true, c, one) <==> c == low || c == high
  {
  }

  predicate NoAuth(headers: seq<Header>) {
    forall h :: h in headers ==> !IsAuth(h.name)
  }

  // The first Authorization field is header i.
  predicate FirstAuth(headers: seq<Header>, i: nat) {
    i < |headers| && IsAuth(headers[i].name) && NoAuth(headers[..i])
  }

  lemma {:induction false} NoFieldAuth(headers: seq<Header>, body: string)
    requires NoAuth(headers)
    ensures ExpectedAuth(headers, body) == AuthOf(CRLF + UpTo(body, '\0'))
  {
    if headers != [] {
      assert headers[0] in headers;
      NoFieldAuth(headers[1..], body);
    }
  }

  lemma {:induction false} FirstFieldAuth(headers: seq<Header>, body: string, i: nat)
    requires FirstAuth(headers, i)
    ensures ExpectedAuth(headers, body) == Clip(headers[i].value, AUTH_SIZE)
  {
    if i > 0 {
      assert headers[..i][0] == headers[0] && headers[..i][1..] == headers[1..][..i - 1];
      FirstFieldAuth(headers[1..], body, i - 1);
    }
  }

  // The Authorization prefix stands at place i of a text.
  predicate AuthAt(text: string, i: nat) {
    i <= |text| && Starts(true, text[i..], AUTHORIZATION)
  }

  // The first such place is i, and the line is not over there.
  predicate ValueFrom(text: string, i: nat) {
    && AuthAt(text, i) && (forall j: nat :: j < i ==> !AuthAt(text, j))
    && i + 17 < |text| && !Starts(false, text[i + 17..], CRLF)
  }

  lemma FindIs(text: string, i: nat)
    requires AuthAt(text, i) && forall j: nat :: j < i ==> !AuthAt(text, j)
    ensures Find(true, text, AUTHORIZATION) == i
  {
    AuthPrefix();
    FindIsFirst(true, text, AUTHORIZATION);
    var n := Find(true, text, AUTHORIZATION);
    assert n < |text| ==> AuthAt(text, n);
    assert !(i < n);
  }

  // A value is found in a text exactly when the prefix is there and, where it is first, something
  // follows it on its line.
  lemma AuthOfExactly(text: string)
    ensures AuthOf(text) != "" <==> exists i: nat :: ValueFrom(text, i)
  {
    AuthPrefix();
    FindIsFirst(true, text, AUTHORIZATION);
    var n := Find(true, text, AUTHORIZATION);
    assert forall j: nat :: j < n ==> !AuthAt(text, j);
    if n < |text| {
      assert AuthAt(text, n);
      var rest := text[n + 17..];
      assert rest != "" && !Starts(false, rest, CRLF) <==> ValueFrom(text, n);
      FindIsFirst(false, rest, CRLF);
      assert rest[0..] == rest;
    }
    if i: nat :| ValueFrom(text, i) {
      FindIs(text, i);
    }
  }

  // The Authorization value of a parsed request. With a field of that name it is the first one's,
  // whatever the body holds. Without one it comes from the body: it is not empty exactly when the
  // body, up to its first NUL and taken to begin a line, has such a line, and the first of them
  // has a value.
  lemma AuthorizationExactly(r: Request)
    requires WellFormed(r) && |r.verb| < METHOD_SIZE
    ensures Parse(Render(r)).Some?
    ensures var auth := Parse(Render(r)).value.auth;
            && (forall i: nat :: FirstAuth(r.headers, i) ==> auth == Clip(r.headers[i].value, 512))
            && (NoAuth(r.headers) ==>
                  (auth != "" <==> exists i: nat :: ValueFrom(CRLF + UpTo(r.body, '\0'), i)))
  {
    ParseUndoesRender(r);
    forall i: nat | FirstAuth(r.headers, i)
      ensures ExpectedAuth(r.headers, r.body) == Clip(r.headers[i].value, 512)
    {
      FirstFieldAuth(r.headers, r.body, i);
    }
    if NoAuth(r.headers) {
      NoFieldAuth(r.headers, r.body);
    }
    AuthOfExactly(CRLF + UpTo(r.body, '\0'));
  }

  lemma LastLineClip(value: string)
    requires Plain(value)
    ensures LineClip(value, CRLF) == Clip(value, 512)
  {
    FindSkips(false, value, "", CRLF);
    assert value + "" == value && value[..|value|] == value;
  }

  lemma LastAuthLine(text: string, value: string)
    requires Plain(value) && Starts(true, text, AUTHORIZATION) && text[17..] == value
    ensures AuthOf(text) == Clip(value, 512)
  {
    AuthPrefix();
    LastLineClip(value);
  }

  lemma LastAuthHere(h: Header)
    requires Plain(h.value) && IsAuth(h.name) && Without(h.name, ':')
    ensures AuthOf(CRLF + LineOf(h)) == Clip(h.value, 512)
  {
    AuthLine(h, "");
    assert CRLF + LineOf(h) + "" == CRLF + LineOf(h);
    LastAuthLine(CRLF + LineOf(h), h.value);
  }

  lemma AuthFieldPlain()
    ensures Plain("Authorization") && IsAuth("Authorization") && Without("Authorization", ':')
  {
  }

  lemma PlainSeen(s: string)
    requires Plain(s)
    ensures UpTo(s, '\0') == s
  {
    UpToConcat(s, '\0', "");
    assert s + "" == s;
  }

  // A body that reads like an Authorization line is taken for one where there is no such field.
  lemma BodyTakenForAuth(r: Request, value: string)
    requires WellFormed(r) && |r.verb| < METHOD_SIZE && NoAuth(r.headers)
    requires Plain(value) && r.body == LineOf(Header("Authorization", value))
    ensures Parse(Render(r)).Some? && Parse(Render(r)).value.auth == Clip(value, 512)
  {
    ParseUndoesRender(r);
    NoFieldAuth(r.headers, r.body);
    var h := Header("Authorization", value);
    AuthFieldPlain();
    LinePlain(h);
    PlainSeen(r.body);
    LastAuthHere(h);
  }
}
