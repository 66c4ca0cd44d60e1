/** The gateway's request record and the parser that fills it from a receive buffer. */
module HttpRequest {
  import opened CText
  import opened HttpText

  class GwRequest {
    const verb: array<char>
    const path: array<char>
    const auth: array<char>
    var body: array?<char>
    var bodyLen: nat

    // The buffers of the record, zeroed.
    constructor ()
      ensures Blank() && body == null && bodyLen == 0
      ensures fresh(verb) && fresh(path) && fresh(auth)
    {
      verb := new char[METHOD_SIZE](_ => '\0');
      path := new char[PATH_SIZE](_ => '\0');
      auth := new char[AUTH_SIZE](_ => '\0');
      body := null;
      bodyLen := 0;
    }

    ghost predicate Blank()
      reads verb, path, auth
    {
      && verb.Length == METHOD_SIZE && path.Length == PATH_SIZE && auth.Length == AUTH_SIZE
      && verb != path && verb != auth && path != auth
      && Zeroed(verb[..]) && Zeroed(path[..]) && Zeroed(auth[..])
    }

    // What a reader of the record's C strings and body sees.
    ghost predicate Holds(p: Parsed)
      reads this, verb, path, auth, body
    {
      && UpTo(verb[..], '\0') == p.verb
      && UpTo(path[..], '\0') == p.path
      && UpTo(auth[..], '\0') == p.auth
      && match p.body
         case None => body == null && bodyLen == 0
         case Some(b) => body != null && body.Length == bodyLen + 1 && body[..bodyLen] == b && body[bodyLen] == '\0'
    }
  }

  predicate Zeroed(s: string) {
    forall i :: 0 <= i < |s| ==> s[i] == '\0'
  }

  // memcpy to the start of a zeroed buffer: a C string, as the text has no NUL and leaves room.
  method CopyText(text: string, buffer: array<char>)
    requires |text| < buffer.Length && Without(text, '\0') && Zeroed(buffer[..])
    modifies buffer
    ensures buffer[..|text|] == text && forall i :: |text| <= i < buffer.Length ==> buffer[i] == '\0'
    ensures UpTo(buffer[..], '\0') == text
  {
    forall i | 0 <= i < |text| {
      buffer[i] := text[i];
    }
    assert buffer[..] == text + buffer[|text|..];
    UpToConcat(text, '\0', buffer[|text|..]);
  }

  // strchr and the overwriting of the query mark: the C string ends there now.
  method CutQuery(buffer: array<char>, ghost text: string)
    requires |text| < buffer.Length && Without(text, '\0')
    requires buffer[..|text|] == text && buffer[|text|] == '\0'
    modifies buffer
    ensures UpTo(buffer[..], '\0') == UpTo(text, '?')
  {
    var i := 0;
    while buffer[i] != '\0' && buffer[i] != '?'
      invariant i <= |text| && Without(text[..i], '?')
      invariant buffer[..] == old(buffer[..])
      decreases |text| - i
    {
      assert i < |text| && buffer[i] == text[i];
      i := i + 1;
    }
    ghost var kept := text[..i];
    assert i < |text| ==> text[i] == buffer[..|text|][i];
    assert text == kept + text[i..];
    UpToConcat(kept, '?', text[i..]);
    if buffer[i] == '?' {
      buffer[i] := '\0';
    }
    assert buffer[..] == kept + buffer[i..];
    UpToConcat(kept, '\0', buffer[i..]);
  }

  lemma PartWithout(s: string, i: nat, j: nat, c: char)
    requires i <= j <= |s| && Without(s, c)
    ensures Without(s[i..j], c)
  {
  }

  // The method and the path of the request line; the places where they end.
  method ParseLine(text: string, verb: array<char>, path: array<char>) returns (ok: bool)
    requires Without(text, '\0') && verb != path
    requires verb.Length == METHOD_SIZE && path.Length == PATH_SIZE && Zeroed(verb[..]) && Zeroed(path[..])
    modifies verb, path
    ensures var sp := IndexOf(text, ' ');
            ok <==> sp < METHOD_SIZE && sp < |text| && IndexOf(text[sp + 1..], ' ') < |text[sp + 1..]|
    ensures ok ==>
              var sp := IndexOf(text, ' ');
              var rest := text[sp + 1..];
              && UpTo(verb[..], '\0') == text[..sp]
              && UpTo(path[..], '\0') == UpTo(Clip(rest[..IndexOf(rest, ' ')], PATH_SIZE), '?')
  {
    var sp := IndexOf(text, ' ');
    if sp == |text| || sp >= METHOD_SIZE {
      return false;
    }
    PartWithout(text, 0, sp, '\0');
    assert text[0..sp] == text[..sp];
    CopyText(text[..sp], verb);
    var rest := text[sp + 1..];
    PartWithout(text, sp + 1, |text|, '\0');
    var sp2 := IndexOf(rest, ' ');
    if sp2 == |rest| {
      return false;
    }
    var target := Clip(rest[..sp2], PATH_SIZE);
    CopyText(target, path);
    CutQuery(path, target);
    return true;
  }

  // The value of the first Authorization line found anywhere in the text.
  method ParseAuth(text: string, auth: array<char>)
    requires Without(text, '\0') && auth.Length == AUTH_SIZE && Zeroed(auth[..])
    modifies auth
    ensures UpTo(auth[..], '\0') == AuthOf(text)
  {
    AuthPrefix();
    var line := Find(true, text, AUTHORIZATION);
    if line < |text| {
      var value := text[line + 17..];
      var eol := Find(false, value, CRLF);
      var kept := if eol >= AUTH_SIZE then value[..AUTH_SIZE - 1] else value[..eol];
      assert kept == Clip(value[..eol], AUTH_SIZE);
      CopyText(kept, auth);
    } else {
      assert AuthOf(text) == "";
      assert auth[..] == "" + auth[..];
      UpToConcat("", '\0', auth[..]);
    }
  }

  // The rest of the buffer as a body, when it is not empty and under the limit.
  method ParseBody(buf: array<char>, len: nat, bodyStart: nat) returns (body: array?<char>, bodyLen: nat)
    requires bodyStart <= len <= buf.Length
    ensures body == null <==> !(0 < len - bodyStart < BODY_MAX)
    ensures body == null ==> bodyLen == 0
    ensures body != null ==>
              && body.Length == bodyLen + 1 && bodyLen == len - bodyStart
              && body[..bodyLen] == buf[..len][bodyStart..] && body[bodyLen] == '\0'
  {
    bodyLen := len - bodyStart;
    if bodyLen == 0 || bodyLen >= BODY_MAX {
      return null, 0;
    }
    body := new char[bodyLen + 1](_ => '\0');
    forall i | 0 <= i < bodyLen {
      body[i] := buf[bodyStart + i];
    }
  }

  // Everything up to the blank line; where the body starts, or 0 when the request is refused.
  method ParseHead(text: string, out: GwRequest) returns (bodyStart: nat)
    requires Without(text, '\0') && out.Blank()
    modifies out.verb, out.path, out.auth
    ensures bodyStart == (match CutsOf(text) case Some(c) => c.head + 4 case None => 0)
    ensures bodyStart > 0 ==>
              var c := CutsOf(text).value;
              && UpTo(out.verb[..], '\0') == text[..c.verb]
              && UpTo(out.path[..], '\0') == UpTo(Clip(text[c.verb + 1..][..c.target], PATH_SIZE), '?')
              && UpTo(out.auth[..], '\0') == AuthOf(text)
  {
    var ok := ParseLine(text, out.verb, out.path);
    if !ok {
      return 0;
    }
    var headersEnd := Find(false, text, BLANK_LINE);
    if headersEnd == |text| {
      return 0;
    }
    ghost var verb, path := out.verb[..], out.path[..];
    ParseAuth(text, out.auth);
    assert out.verb[..] == verb && out.path[..] == path;
    return headersEnd + 4;
  }

  // gw_parse_request on the first len characters received. The body's length is what is left after
  // the blank line, which a successful search never leaves negative.
  method ParseRequest(buf: array<char>, len: nat) returns (rc: int, out: GwRequest)
    requires len <= buf.Length
    ensures fresh(out)
    ensures rc == if Parse(buf[..len]).Some? then 0 else -1
    ensures rc == 0 ==> out.Holds(Parse(buf[..len]).value)
  {
    var text := UpTo(buf[..len], '\0');
    out := new GwRequest();
    var bodyStart := ParseHead(text, out);
    if bodyStart == 0 {
      return -1, out;
    }
    ghost var verb, path, auth := out.verb[..], out.path[..], out.auth[..];
    out.body, out.bodyLen := ParseBody(buf, len, bodyStart);
    assert out.verb[..] == verb && out.path[..] == path && out.auth[..] == auth;
    return 0, out;
  }
}
