/**
  HTTP signatures on requests between servers, after draft-cavage-http-signatures-12.

  RSA with SHA-256 is a pair of functions on the signing string.
*/
module Signatures {
  import opened Wrappers
  import opened Base64
  import opened Text
  import Utf8

  /** `header` is indexed by canonical names. `urlHost` is the host of the URL on the sending side, `host`
      the field beside the header map that Go fills from the Host line of a received request. */
  datatype Message = Message(verb: string, uri: string, urlHost: string, host: string, header: map<string, string>)

  datatype KeyPair = KeyPair(sign: string -> seq<Byte>, verify: (string, seq<Byte>) -> bool)

  /** A signature is what the private key makes of the string, and nothing else passes. */
  ghost predicate Sound(key: KeyPair) {
    forall text, sig :: key.verify(text, sig) <==> sig == key.sign(text) && sig != []
  }

  /** Different strings with the same signature, as a collision of the hash would give. */
  ghost predicate Collide(key: KeyPair, a: string, b: string) {
    a != b && key.sign(a) == key.sign(b)
  }

  ghost predicate Signs(key: KeyPair) {
    forall text :: key.sign(text) != []
  }

  // ---------------------------------------------------------------------------------------------
  // Header names

  function ToUpper(c: char): char {
    if 'a' <= c <= 'z' then (c as int - 32) as char else c
  }

  function ToLower(c: char): char {
    if 'A' <= c <= 'Z' then (c as int + 32) as char else c
  }

  function LowerCase(s: string): string {
    seq(|s|, i requires 0 <= i < |s| => ToLower(s[i]))
  }

  predicate IsTokenChar(c: char) {
    'a' <= c <= 'z' || 'A' <= c <= 'Z' || '0' <= c <= '9' || c in "!#$%&'*+-.^_`|~"
  }

  /** Upper case at the start and after hyphens, lower case elsewhere. */
  function Capitalize(s: string): string {
    seq(|s|, i requires 0 <= i < |s| => if i == 0 || s[i - 1] == '-' then ToUpper(s[i]) else ToLower(s[i]))
  }

  function Canonical(name: string): string {
    if forall c :: c in name ==> IsTokenChar(c) then Capitalize(name) else name
  }

  function Get(m: Message, name: string): string {
    if Canonical(name) in m.header then m.header[Canonical(name)] else ""
  }

  function Set(m: Message, name: string, value: string): Message {
    m.(header := m.header[Canonical(name) := value])
  }

  const TARGET := "(request-target)"

  lemma CanonicalNames()
    ensures Canonical("Host") == Canonical("host") == "Host"
    ensures Canonical("Date") == Canonical("date") == "Date"
    ensures Canonical("Digest") == Canonical("digest") == "Digest"
    ensures Canonical("Signature") == "Signature"
  {
    CanonicalHost();
    CanonicalDate();
    CanonicalDigest();
    CanonicalSignature();
  }

  lemma CanonicalHost()
    ensures Canonical("Host") == Canonical("host") == "Host"
  {
  }

  lemma CanonicalDate()
    ensures Canonical("Date") == Canonical("date") == "Date"
  {
  }

  lemma CanonicalDigest()
    ensures Canonical("Digest") == Canonical("digest") == "Digest"
  {
  }

  lemma CanonicalSignature()
    ensures Canonical("Signature") == "Signature"
  {
  }

  // ---------------------------------------------------------------------------------------------
  // The signing string

  function Target(m: Message): string {
    LowerCase(m.verb) + " " + m.uri
  }

  function Host(m: Message, fallback: string): string {
    if Get(m, "Host") != "" then Get(m, "Host") else fallback
  }

  function Line(m: Message, name: string, fallback: string): string {
    if name == TARGET then TARGET + ": " + Target(m)
    else if name == "host" then "host: " + Host(m, fallback)
    else name + ": " + Get(m, name)
  }

  function Lines(m: Message, names: seq<string>, fallback: string): (lines: seq<string>)
    ensures |lines| == |names|
  {
    seq(|names|, i requires 0 <= i < |names| => Line(m, names[i], fallback))
  }

  function SigningString(m: Message, names: seq<string>, fallback: string): string {
    Join(Lines(m, names, fallback), '\n')
  }

  lemma {:induction false} JoinOneMore(parts: seq<string>, last: string, sep: char)
    ensures Join(parts + [last], sep) == if parts == [] then last else Join(parts, sep) + [sep] + last
  {
    if parts == [] {
      assert parts + [last] == [last];
    } else {
      assert (parts + [last])[1..] == parts[1..] + [last];
      JoinOneMore(parts[1..], last, sep);
      if |parts| > 1 {
        assert parts[0] + [sep] + (Join(parts[1..], sep) + [sep] + last)
            == parts[0] + [sep] + Join(parts[1..], sep) + [sep] + last;
      }
    }
  }

  method BuildLine(m: Message, h: string, fallback: string) returns (line: string)
    ensures line == Line(m, h, fallback)
  {
    if h == TARGET {
      var target := LowerCase(m.verb) + " " + m.uri;
      line := TARGET + ": " + target;
    } else if h == "host" {
      var host := Get(m, "Host");
      if host == "" {
        host := fallback;
      }
      line := "host: " + host;
    } else {
      line := h + ": " + Get(m, h);
    }
  }

  lemma LinesOneMore(lines: seq<string>, i: nat)
    requires i < |lines|
    ensures Join(lines[..i + 1], '\n') == if i == 0 then lines[i] else Join(lines[..i], '\n') + ['\n'] + lines[i]
  {
    assert lines[..i + 1] == lines[..i] + [lines[i]];
    JoinOneMore(lines[..i], lines[i], '\n');
  }

  method BuildSigningString(m: Message, names: seq<string>, fallback: string) returns (text: string)
    ensures text == SigningString(m, names, fallback)
  {
    text := "";
    ghost var lines := Lines(m, names, fallback);
    for i := 0 to |names|
      invariant text == Join(lines[..i], '\n')
    {
      LinesOneMore(lines, i);
      var line := BuildLine(m, names[i], fallback);
      assert line == lines[i];
      if i > 0 {
        text := text + ['\n'];
      } else {
        assert text + line == line;
      }
      text := text + line;
    }
    assert lines[..|names|] == lines;
  }

  // ---------------------------------------------------------------------------------------------
  // Signing

  function WithDate(m: Message, now: string): Message {
    if Get(m, "Date") == "" then Set(m, "Date", now) else m
  }

  function WithHost(m: Message): Message {
    if Get(m, "Host") == "" then Set(m, "Host", m.urlHost) else m
  }

  /** The message with the headers that signing fills in. */
  function Completed(m: Message, now: string): Message {
    WithHost(WithDate(m, now))
  }

  function SignedNames(m: Message): seq<string> {
    [TARGET, "host", "date"] + if Get(m, "Digest") != "" then ["digest"] else []
  }

  function Quoted(value: string): string {
    "\"" + value + "\""
  }

  function Part(name: string, value: string): string {
    name + "=" + Quoted(value)
  }

  function SignatureValue(keyId: string, names: seq<string>, sig: seq<Byte>): string {
    Join([Part("keyId", keyId), Part("algorithm", "rsa-sha256"),
          Part("headers", Join(names, ' ')), Part("signature", Encode(sig, true))], ',')
  }

  function Signed(m: Message, keyId: string, now: string, key: KeyPair): Message {
    var c := Completed(m, now);
    var names := SignedNames(c);
    Set(c, "Signature", SignatureValue(keyId, names, key.sign(SigningString(c, names, c.urlHost))))
  }

  /** A request under construction. */
  class Request {
    var message: Message

    constructor (message: Message)
      ensures this.message == message
    {
      this.message := message;
    }

    /** `key` is absent when the private key cannot be parsed. */
    method Sign(keyId: string, now: string, key: Option<KeyPair>) returns (ok: bool)
      modifies this
      ensures ok == key.Some?
      ensures message == if ok then Signed(old(message), keyId, now, key.value) else old(message)
    {
      if key.None? {
        return false;
      }
      Complete(now);
      var names := [TARGET, "host", "date"];
      if Get(message, "Digest") != "" {
        names := names + ["digest"];
      }
      assert names == SignedNames(message);
      var text := BuildSigningString(message, names, message.urlHost);
      message := Set(message, "Signature", SignatureValue(keyId, names, key.value.sign(text)));
      return true;
    }

    /** Fills in the date and the host unless they are set. */
    method Complete(now: string)
      modifies this
      ensures message == Completed(old(message), now)
    {
      if Get(message, "Date") == "" {
        message := Set(message, "Date", now);
      }
      if Get(message, "Host") == "" {
        message := Set(message, "Host", message.urlHost);
      }
    }
  }

  // ---------------------------------------------------------------------------------------------
  // Verification

  function AddParam(params: map<string, string>, part: string): map<string, string> {
    var p := Utf8.TrimSpace(part);
    var idx := IndexOf(p, '=');
    if idx == |p| then params
    else params[Utf8.TrimSpace(p[..idx]) := Trim(Utf8.TrimSpace(p[idx + 1..]), "\"")]
  }

  function AddParams(params: map<string, string>, parts: seq<string>): map<string, string>
    decreases |parts|
  {
    if parts == [] then params else AddParams(AddParam(params, parts[0]), parts[1..])
  }

  function Params(header: string): map<string, string> {
    AddParams(map[], Split(header, ','))
  }

  method ParseSignatureHeader(header: string) returns (params: map<string, string>)
    ensures params == Params(header)
  {
    params := map[];
    var parts := Split(header, ',');
    for i := 0 to |parts|
      invariant AddParams(params, parts[i..]) == Params(header)
    {
      assert parts[i..][0] == parts[i] && parts[i..][1..] == parts[i + 1..];
      var part := Utf8.TrimSpace(parts[i]);
      var idx := IndexOf(part, '=');
      if idx < |part| {
        var key := Utf8.TrimSpace(part[..idx]);
        var val := Utf8.TrimSpace(part[idx + 1..]);
        val := Trim(val, "\"");
        params := params[key := val];
      }
    }
  }

  datatype VerifyError =
    MissingHeader | UnsupportedAlgorithm | MissingSignature | BadEncoding | BadKey | InvalidSignature

  function Param(params: map<string, string>, name: string): string {
    if name in params then params[name] else ""
  }

  function VerifiedNames(params: map<string, string>): seq<string> {
    Fields(if Param(params, "headers") == "" then "date" else Param(params, "headers"))
  }

  /** The string whose signature was accepted, or why none was. */
  function VerifiedParams(m: Message, params: map<string, string>, key: Option<KeyPair>): Result<string, VerifyError> {
    if Param(params, "algorithm") != "" && Param(params, "algorithm") != "rsa-sha256" then Err(UnsupportedAlgorithm)
    else if Param(params, "signature") == "" then Err(MissingSignature)
    else
      match Decode(Param(params, "signature"), true)
      case None => Err(BadEncoding)
      case Some(sig) =>
        var text := SigningString(m, VerifiedNames(params), m.host);
        if key.None? then Err(BadKey)
        else if key.value.verify(text, sig) then Ok(text) else Err(InvalidSignature)
  }

  function Verified(m: Message, key: Option<KeyPair>): Result<string, VerifyError> {
    if Get(m, "Signature") == "" then Err(MissingHeader)
    else VerifiedParams(m, Params(Get(m, "Signature")), key)
  }

  /** `key` is absent when the public key cannot be parsed. */
  method Verify(m: Message, key: Option<KeyPair>) returns (r: Result<string, VerifyError>)
    ensures r == Verified(m, key)
  {
    var header := Get(m, "Signature");
    if header == "" {
      return Err(MissingHeader);
    }
    var params := ParseSignatureHeader(header);
    var algorithm := Param(params, "algorithm");
    if algorithm != "" && algorithm != "rsa-sha256" {
      return Err(UnsupportedAlgorithm);
    }
    var sig64 := Param(params, "signature");
    if sig64 == "" {
      return Err(MissingSignature);
    }
    var sig := Decode(sig64, true);
    if sig.None? {
      return Err(BadEncoding);
    }
    var text := BuildSigningString(m, VerifiedNames(params), m.host);
    if key.None? {
      return Err(BadKey);
    }
    if !key.value.verify(text, sig.value) {
      return Err(InvalidSignature);
    }
    return Ok(text);
  }
}
