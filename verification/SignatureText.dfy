/** The texts of HTTP signatures letter by letter: what is signed, what is sent, and what is read. */
module SignatureText {
  import opened Wrappers
  import opened Base64
  import opened Text
  import opened Signatures
  import opened SignThenVerify
  import Utf8

  /** v is the verb with its upper-case letters made lower-case. */
  ghost predicate SameButCase(v: string, verb: string) {
    && |v| == |verb|
    && forall i :: 0 <= i < |v| ==>
         && !('A' <= v[i] <= 'Z')
         && (v[i] == verb[i] || ('A' <= verb[i] <= 'Z' && v[i] as int == verb[i] as int + 32))
  }

  lemma TargetIs(m: Message) returns (v: string)
    ensures SameButCase(v, m.verb) && Target(m) == v + " " + m.uri
  {
    v := LowerCase(m.verb);
  }

  /** The value of a header, empty if there is none. */
  function Header(m: Message, name: string): string {
    if name in m.header then m.header[name] else ""
  }

  lemma CompletedIs(m: Message, now: string)
    ensures var c := Completed(m, now);
            && Header(c, "Date") == Get(c, "Date") == (if Header(m, "Date") == "" then now else Header(m, "Date"))
            && Header(c, "Host") == Get(c, "Host") == (if Header(m, "Host") == "" then m.urlHost else Header(m, "Host"))
            && Get(c, "Digest") == Header(m, "Digest")
  {
    CanonicalNames();
  }

  lemma CompletedKeeps(m: Message, now: string)
    ensures var c := Completed(m, now);
            && c.verb == m.verb && c.uri == m.uri && c.urlHost == m.urlHost
            && forall h :: h != "Date" && h != "Host" ==> (h in c.header <==> h in m.header) && Header(c, h) == Header(m, h)
  {
    CanonicalHost();
    CanonicalDate();
  }

  lemma JoinThree(a: string, b: string, c: string)
    ensures Join([a, b, c], '\n') == a + "\n" + (b + "\n" + c)
  {
    JoinStep(b, [c], '\n');
    JoinStep(a, [b, c], '\n');
    assert [a] + [b, c] == [a, b, c] && [b] + [c] == [b, c];
  }

  lemma JoinFour(a: string, b: string, c: string, d: string)
    ensures Join([a, b, c, d], '\n') == a + "\n" + (b + "\n" + (c + "\n" + d))
  {
    JoinThree(b, c, d);
    JoinStep(a, [b, c, d], '\n');
    assert [a] + [b, c, d] == [a, b, c, d];
  }

  /** The signed lines: target, host, date and, if there is one, digest. */
  function SignedText(target: string, host: string, date: string, digest: string): string {
    "(request-target): " + target + "\n"
    + ("host: " + host + "\n"
       + ("date: " + date + if digest == "" then "" else "\n" + ("digest: " + digest)))
  }

  lemma ListJoined(lines: seq<string>)
    requires |lines| == 3 || |lines| == 4
    ensures Join(lines, '\n')
         == lines[0] + "\n" + (lines[1] + "\n" + (lines[2] + if |lines| == 3 then "" else "\n" + lines[3]))
  {
    if |lines| == 3 {
      assert lines == [lines[0], lines[1], lines[2]];
      JoinThree(lines[0], lines[1], lines[2]);
      assert lines[2] + "" == lines[2];
    } else {
      assert lines == [lines[0], lines[1], lines[2], lines[3]];
      JoinFour(lines[0], lines[1], lines[2], lines[3]);
      assert lines[2] + "\n" + lines[3] == lines[2] + ("\n" + lines[3]);
    }
  }

  lemma TextOfLines(lines: seq<string>, target: string, host: string, date: string, digest: string)
    requires |lines| == if digest == "" then 3 else 4
    requires lines[0] == "(request-target): " + target && lines[1] == "host: " + host && lines[2] == "date: " + date
    requires digest != "" ==> lines[3] == "digest: " + digest
    ensures Join(lines, '\n') == SignedText(target, host, date, digest)
  {
    ListJoined(lines);
  }

  lemma LinesJoined(m: Message, fallback: string, names: seq<string>)
    requires IsSignedList(names) && (|names| == 4 ==> Get(m, "Digest") != "")
    ensures SigningString(m, names, fallback)
         == SignedText(Target(m), Host(m, fallback), Get(m, "Date"), if |names| == 3 then "" else Get(m, "Digest"))
  {
    CoveredLines(m, fallback, names);
    TextOfLines(Lines(m, names, fallback), Target(m), Host(m, fallback), Get(m, "Date"),
                if |names| == 3 then "" else Get(m, "Digest"));
  }

  /** What `Sign` signs of any request, letter by letter: the lower-case verb and the target, the host of the
      header or else of the URL, the date of the header or else the present one, and the digest if there is one. */
  lemma SignedStringIs(m: Message, now: string) returns (v: string)
    ensures SameButCase(v, m.verb)
    ensures SignedString(m, now)
         == SignedText(v + " " + m.uri,
                       if Header(m, "Host") == "" then m.urlHost else Header(m, "Host"),
                       if Header(m, "Date") == "" then now else Header(m, "Date"),
                       Header(m, "Digest"))
  {
    var c := Completed(m, now);
    v := TargetIs(c);
    CompletedIs(m, now);
    CanonicalNames();
    SignedNamesAreList(c);
    LinesJoined(c, c.urlHost, SignedNames(c));
  }

  /** What is signed of a delivery. */
  lemma DeliveredStringIs(uri: string, urlHost: string, date: string, digest: string, now: string)
    requires date != "" && digest != ""
    ensures SignedString(Outgoing(uri, urlHost, date, digest), now)
         == "(request-target): post " + uri + "\nhost: " + urlHost + "\ndate: " + date + "\ndigest: " + digest
  {
    var m := Outgoing(uri, urlHost, date, digest);
    var v := SignedStringIs(m, now);
    PostIs(v);
    OutgoingHeaders(uri, urlHost, date, digest);
    PostText(uri, urlHost, date, digest);
  }

  lemma PostIs(v: string)
    requires SameButCase(v, "POST")
    ensures v == "post"
  {
  }

  lemma OutgoingHeaders(uri: string, urlHost: string, date: string, digest: string)
    ensures var m := Outgoing(uri, urlHost, date, digest);
            && m.verb == "POST" && m.uri == uri && m.urlHost == urlHost
            && Header(m, "Host") == urlHost && Header(m, "Date") == date && Header(m, "Digest") == digest
  {
  }

  lemma PostText(uri: string, host: string, date: string, digest: string)
    requires digest != ""
    ensures SignedText("post" + " " + uri, host, date, digest)
         == "(request-target): post " + uri + "\nhost: " + host + "\ndate: " + date + "\ndigest: " + digest
  {
    var a, b, c := "(request-target): post ", "\nhost: ", "\ndate: ";
    assert "(request-target): " + ("post" + " " + uri) == a + uri;
    assert "\n" + ("host: " + host) == b + host && "\n" + ("date: " + date) == c + date;
    assert "\n" + ("digest: " + digest) == "\ndigest: " + digest;
    assert a + uri + "\n" + ("host: " + host + "\n" + ("date: " + date + ("\ndigest: " + digest)))
        == a + uri + (b + host + (c + date + ("\ndigest: " + digest)));
  }

  /** The headers that are filled in; all others but the signature stay as they are. */
  lemma FilledInAre(m: Message, keyId: string, now: string, key: KeyPair)
    ensures var s := Signed(m, keyId, now, key);
            && Header(s, "Date") == (if Header(m, "Date") == "" then now else Header(m, "Date"))
            && Header(s, "Host") == (if Header(m, "Host") == "" then m.urlHost else Header(m, "Host"))
            && forall h :: h != "Date" && h != "Host" && h != "Signature" ==>
                 (h in s.header <==> h in m.header) && Header(s, h) == Header(m, h)
  {
    CompletedIs(m, now);
    CompletedKeeps(m, now);
    CanonicalSignature();
  }

  lemma ListText(m: Message, now: string)
    ensures Join(SignedNames(Completed(m, now)), ' ')
         == "(request-target) host date" + if Header(m, "Digest") == "" then "" else " digest"
  {
    CompletedIs(m, now);
    NamesTextOf(SignedNames(Completed(m, now)), Header(m, "Digest") == "");
  }

  lemma NamesTextOf(names: seq<string>, short: bool)
    requires names == [TARGET, "host", "date"] + if short then [] else ["digest"]
    ensures Join(names, ' ') == "(request-target) host date" + if short then "" else " digest"
  {
    NamesText();
    if short {
      assert names == [TARGET, "host", "date"];
    } else {
      assert names == [TARGET, "host", "date", "digest"];
    }
  }

  /** The header that is sent. */
  lemma SignatureHeaderIs(m: Message, keyId: string, now: string, key: KeyPair)
    ensures Header(Signed(m, keyId, now, key), "Signature")
         == HeaderText(keyId, "(request-target) host date" + if Header(m, "Digest") == "" then "" else " digest",
                       Encode(key.sign(SignedString(m, now)), true))
  {
    CanonicalSignature();
    ListText(m, now);
    SignatureValueIs(keyId, SignedNames(Completed(m, now)), key.sign(SignedString(m, now)));
  }

  function HeaderText(keyId: string, list: string, sig64: string): string {
    "keyId=\"" + keyId + "\"" + (",algorithm=\"rsa-sha256\"" + (",headers=\"" + list + "\"" + (",signature=\"" + sig64 + "\"")))
  }

  lemma NamesText()
    ensures Join([TARGET, "host", "date"], ' ') == "(request-target) host date"
    ensures Join([TARGET, "host", "date", "digest"], ' ') == "(request-target) host date digest"
  {
    JoinStep("host", ["date"], ' ');
    JoinStep(TARGET, ["host", "date"], ' ');
    JoinStep("date", ["digest"], ' ');
    JoinStep("host", ["date", "digest"], ' ');
    JoinStep(TARGET, ["host", "date", "digest"], ' ');
    assert ["host"] + ["date"] == ["host", "date"] && [TARGET] + ["host", "date"] == [TARGET, "host", "date"];
    assert ["date"] + ["digest"] == ["date", "digest"] && ["host"] + ["date", "digest"] == ["host", "date", "digest"];
    assert [TARGET] + ["host", "date", "digest"] == [TARGET, "host", "date", "digest"];
  }

  lemma PartsJoined(a: string, b: string, c: string, d: string)
    ensures Join([a, b, c, d], ',') == a + ("," + b + ("," + c + ("," + d)))
  {
    JoinStep(c, [d], ',');
    JoinStep(b, [c, d], ',');
    JoinStep(a, [b, c, d], ',');
    assert [c] + [d] == [c, d] && [b] + [c, d] == [b, c, d] && [a] + [b, c, d] == [a, b, c, d];
    assert a + "," + (b + "," + (c + "," + d)) == a + ("," + b + ("," + c + ("," + d)));
  }

  lemma SignatureValueIs(keyId: string, names: seq<string>, sig: seq<Byte>)
    ensures SignatureValue(keyId, names, sig) == HeaderText(keyId, Join(names, ' '), Encode(sig, true))
  {
    var list, sig64 := Join(names, ' '), Encode(sig, true);
    var a, b := Part("keyId", keyId), Part("algorithm", "rsa-sha256");
    var c, d := Part("headers", list), Part("signature", sig64);
    PartsJoined(a, b, c, d);
    assert a == "keyId=\"" + keyId + "\"";
    assert "," + b == ",algorithm=\"rsa-sha256\"";
    assert "," + c == ",headers=\"" + list + "\"";
    assert "," + d == ",signature=\"" + sig64 + "\"";
  }

  // ---------------------------------------------------------------------------------------------
  // What is rebuilt for the names of any received list

  /** Section 3.2.6 of RFC 7230. */
  predicate OutsideTokens(c: char) {
    !('a' <= c <= 'z') && !('A' <= c <= 'Z') && !('0' <= c <= '9') && c !in "!#$%&'*+-.^_`|~"
  }

  /** The form in which header names are kept: capitals at the start and behind hyphens, small letters
      elsewhere; a name with other characters than those of a token is kept as it is. */
  ghost predicate IsCanonical(name: string, kept: string) {
    if exists i :: 0 <= i < |name| && OutsideTokens(name[i]) then kept == name
    else
      && |kept| == |name|
      && forall i :: 0 <= i < |name| ==>
           if i == 0 || name[i - 1] == '-' then
             kept[i] == (if 'a' <= name[i] <= 'z' then (name[i] as int - 32) as char else name[i])
           else kept[i] == (if 'A' <= name[i] <= 'Z' then (name[i] as int + 32) as char else name[i])
  }

  lemma CanonicalIs(name: string)
    ensures IsCanonical(name, Canonical(name))
  {
    if exists i :: 0 <= i < |name| && OutsideTokens(name[i]) {
      var i :| 0 <= i < |name| && OutsideTokens(name[i]);
      assert name[i] in name;
    } else {
      CapitalsAre(name);
    }
  }

  lemma CapitalsAre(name: string)
    ensures |Capitalize(name)| == |name|
    ensures forall i :: 0 <= i < |name| ==>
              if i == 0 || name[i - 1] == '-' then
                Capitalize(name)[i] == (if 'a' <= name[i] <= 'z' then (name[i] as int - 32) as char else name[i])
              else Capitalize(name)[i] == (if 'A' <= name[i] <= 'Z' then (name[i] as int + 32) as char else name[i])
  {
  }

  lemma ContentTypeIs()
    ensures Canonical("content-type") == "Content-Type"
  {
  }

  /** The target for "(request-target)", the Host header or else the received host for "host", and for any
      other name the name as it is written and the value of the header with this name. */
  lemma LineIs(m: Message, name: string, host: string) returns (v: string, kept: string)
    ensures SameButCase(v, m.verb) && IsCanonical(name, kept)
    ensures Line(m, name, host)
         == if name == "(request-target)" then "(request-target): " + (v + " " + m.uri)
            else if name == "host" then "host: " + if Header(m, "Host") == "" then host else Header(m, "Host")
            else name + ": " + Header(m, kept)
  {
    v := TargetIs(m);
    kept := Canonical(name);
    CanonicalIs(name);
    CanonicalHost();
  }

  /** One more name adds a line feed, unless it is the first, and its line. */
  lemma RebuiltOneMore(m: Message, names: seq<string>, name: string, host: string)
    ensures SigningString(m, [], host) == ""
    ensures SigningString(m, names + [name], host)
         == (if names == [] then "" else SigningString(m, names, host) + ['\n']) + Line(m, name, host)
  {
    assert Lines(m, [], host) == [];
    assert Lines(m, names + [name], host) == Lines(m, names, host) + [Line(m, name, host)];
    JoinOneMore(Lines(m, names, host), Line(m, name, host), '\n');
    assert "" + Line(m, name, host) == Line(m, name, host);
  }

  // ---------------------------------------------------------------------------------------------
  // What is read from any received header

  ghost predicate Cut(p: string, left: string, right: string) {
    '=' !in left && p == left + ['='] + right
  }

  /** The part names a parameter before its first "=", and its value behind that; white space around both and
      quotes around the value do not belong to them. */
  ghost predicate Assigns(part: string, name: string, value: string) {
    exists left, right ::
      && Cut(Utf8.TrimSpace(part), left, right)
      && name == Utf8.TrimSpace(left) && value == Trim(Utf8.TrimSpace(right), "\"")
  }

  lemma CutGives(p: string, left: string, right: string)
    requires Cut(p, left, right)
    ensures IndexOf(p, '=') == |left| < |p| && left == p[..|left|] && right == p[|left| + 1..]
  {
    IndexOfFirst(left, right, '=');
  }

  lemma Recut(p: string, k: nat)
    requires k < |p|
    ensures p == p[..k] + [p[k]] + p[k + 1..]
  {
  }

  lemma CutAt(p: string, k: nat)
    requires k == IndexOf(p, '=') < |p|
    ensures Cut(p, p[..k], p[k + 1..])
  {
    IndexOfIs(p, '=');
    Recut(p, k);
  }

  /** The parameter that a part assigns, if any. */
  function Assigned(part: string): Option<(string, string)> {
    var p := Utf8.TrimSpace(part);
    var k := IndexOf(p, '=');
    if k == |p| then None
    else Some((Utf8.TrimSpace(p[..k]), Trim(Utf8.TrimSpace(p[k + 1..]), "\"")))
  }

  lemma AddParamIs(params: map<string, string>, part: string)
    ensures AddParam(params, part)
         == match Assigned(part) case None => params case Some(a) => params[a.0 := a.1]
  {
  }

  lemma AssignedAssigns(part: string)
    requires Assigned(part).Some?
    ensures Assigns(part, Assigned(part).value.0, Assigned(part).value.1)
  {
    var p := Utf8.TrimSpace(part);
    CutAt(p, IndexOf(p, '='));
  }

  lemma AssignsExactly(part: string, name: string, value: string)
    ensures Assigns(part, name, value) <==> Assigned(part) == Some((name, value))
  {
    if Assigned(part).Some? {
      AssignedAssigns(part);
    }
    if Assigns(part, name, value) {
      var p := Utf8.TrimSpace(part);
      var left, right :| Cut(p, left, right) && name == Utf8.TrimSpace(left) && value == Trim(Utf8.TrimSpace(right), "\"");
      CutGives(p, left, right);
    }
  }

  ghost predicate NeverAssigns(parts: seq<string>, name: string) {
    forall j, other :: 0 <= j < |parts| ==> !Assigns(parts[j], name, other)
  }

  /** The last part that assigns a name decides. */
  ghost predicate LastAssigns(parts: seq<string>, name: string, value: string) {
    exists i :: 0 <= i < |parts| && Assigns(parts[i], name, value) && NeverAssigns(parts[i + 1..], name)
  }

  lemma NeverAssignsNext(parts: seq<string>, name: string)
    requires parts != []
    ensures NeverAssigns(parts, name)
            <==> (forall other :: !Assigns(parts[0], name, other)) && NeverAssigns(parts[1..], name)
  {
    assert forall j :: 1 <= j < |parts| ==> parts[j] == parts[1..][j - 1];
  }

  lemma LastAssignsNext(parts: seq<string>, name: string, value: string)
    requires parts != []
    ensures LastAssigns(parts, name, value)
            <==> LastAssigns(parts[1..], name, value)
                 || (Assigns(parts[0], name, value) && NeverAssigns(parts[1..], name))
  {
    var rest := parts[1..];
    assert forall j :: 1 <= j < |parts| ==> parts[j] == rest[j - 1] && parts[j + 1..] == rest[j..];
    if LastAssigns(rest, name, value) {
      var i :| 0 <= i < |rest| && Assigns(rest[i], name, value) && NeverAssigns(rest[i + 1..], name);
      assert parts[i + 1] == rest[i] && parts[i + 2..] == rest[i + 1..];
    }
  }

  ghost predicate Holds(params: map<string, string>, name: string, value: string) {
    name in params && params[name] == value
  }

  lemma HoldsNext(params: map<string, string>, part: string, name: string, value: string)
    ensures Holds(AddParam(params, part), name, value)
            <==> Assigns(part, name, value)
                 || (Holds(params, name, value) && forall other :: !Assigns(part, name, other))
  {
    AddParamIs(params, part);
    forall v ensures Assigns(part, name, v) <==> Assigned(part) == Some((name, v)) {
      AssignsExactly(part, name, v);
    }
    if Assigned(part).Some? && Assigned(part).value.0 == name {
      assert Assigns(part, name, Assigned(part).value.1);
    }
  }

  lemma {:induction false} AddParamsAre(params: map<string, string>, parts: seq<string>, name: string, value: string)
    ensures Holds(AddParams(params, parts), name, value)
            <==> LastAssigns(parts, name, value) || (Holds(params, name, value) && NeverAssigns(parts, name))
    decreases |parts|
  {
    if parts != [] {
      HoldsNext(params, parts[0], name, value);
      AddParamsAre(AddParam(params, parts[0]), parts[1..], name, value);
      NeverAssignsNext(parts, name);
      LastAssignsNext(parts, name, value);
    }
  }

  /** The parameters of any header. */
  lemma ParamsAre(header: string, name: string, value: string)
    ensures Holds(Params(header), name, value) <==> LastAssigns(Split(header, ','), name, value)
  {
    AddParamsAre(map[], Split(header, ','), name, value);
  }

  /** A request is accepted, with the string that was rebuilt, exactly under these conditions. */
  lemma AcceptedExactly(m: Message, key: Option<KeyPair>, text: string)
    ensures var p := Params(Header(m, "Signature"));
            var listed := Param(p, "headers");
            Verified(m, key) == Ok(text) <==>
              && Header(m, "Signature") != ""
              && Param(p, "algorithm") in {"", "rsa-sha256"}
              && Param(p, "signature") != "" && Decode(Param(p, "signature"), true).Some?
              && key.Some?
              && text == SigningString(m, Fields(if listed == "" then "date" else listed), m.host)
              && key.value.verify(text, Decode(Param(p, "signature"), true).value)
  {
    CanonicalSignature();
  }

  /** Any other request is refused with the first error that applies. */
  lemma RefusedExactly(m: Message, key: Option<KeyPair>)
    ensures Verified(m, key) == Err(MissingHeader) <==> Header(m, "Signature") == ""
    ensures Header(m, "Signature") != "" ==>
              Verified(m, key) == VerifiedParams(m, Params(Header(m, "Signature")), key)
  {
    CanonicalSignature();
  }

  lemma RefusedParams(m: Message, p: map<string, string>, key: Option<KeyPair>)
    ensures var v := VerifiedParams(m, p, key);
            && (v == Err(UnsupportedAlgorithm) <==>
                  Param(p, "algorithm") != "" && Param(p, "algorithm") != "rsa-sha256")
            && (v == Err(MissingSignature) <==>
                  (Param(p, "algorithm") == "" || Param(p, "algorithm") == "rsa-sha256") && Param(p, "signature") == "")
            && (v == Err(BadKey) || v == Err(InvalidSignature) ==> Decode(Param(p, "signature"), true).Some?)
            && (v == Err(InvalidSignature) ==> key.Some?) && (v == Err(BadKey) ==> key == None)
  {
  }
}
