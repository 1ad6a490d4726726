/** What a signature that was made by `Sign` says to `Verify`, on the same request or on another one. */
module SignThenVerify {
  import opened Wrappers
  import opened Base64
  import opened Text
  import opened Signatures
  import Utf8

  // ---------------------------------------------------------------------------------------------
  // Printing and parsing the header

  lemma {:induction false} IndexOfFirst(a: string, b: string, c: char)
    requires c !in a
    ensures IndexOf(a + [c] + b, c) == |a|
  {
    if a != "" {
      assert (a + [c] + b)[1..] == a[1..] + [c] + b;
      IndexOfFirst(a[1..], b, c);
    }
  }

  lemma TrimQuoted(value: string)
    requires NoOuter(value, "\"")
    ensures Trim(Quoted(value), "\"") == value
  {
    var q := Quoted(value);
    assert q[1..] == value + "\"";
    if value == "" {
      assert TrimStart("\"", "\"") == TrimStart("", "\"");
    } else {
      assert TrimStart(q, "\"") == TrimStart(value + "\"", "\"") == value + "\"";
      assert (value + "\"")[..|value|] == value;
      assert TrimEnd(value + "\"", "\"") == TrimEnd(value, "\"");
    }
  }

  lemma PartParses(params: map<string, string>, name: string, value: string)
    requires IsWord(name) && '=' !in name
    ensures AddParam(params, Part(name, value)) == params[name := Trim(Quoted(value), "\"")]
  {
    var part := Part(name, value);
    assert part[0] == name[0] && part[|part| - 1] == '\"';
    TrimKeeps(part);
    IndexOfFirst(name, Quoted(value), '=');
    assert part[..|name|] == name && part[|name| + 1..] == Quoted(value);
    TrimKeeps(name);
    TrimKeeps(Quoted(value));
  }

  ghost predicate SafeNames(names: seq<string>) {
    && Join(names, ' ') != "" && ',' !in Join(names, ' ') && NoOuter(Join(names, ' '), "\"")
    && forall w :: w in names ==> IsWord(w)
  }

  lemma {:induction false} EncodedIsSafe(sig: seq<Byte>)
    ensures ',' !in Encode(sig, true) && NoOuter(Encode(sig, true), "\"")
  {
    var s := Encode(sig, true);
    assert s != "" ==> s[0] in s && s[|s| - 1] in s;
  }

  lemma PartLacksComma(name: string, value: string)
    requires IsWord(name) && ',' !in name && ',' !in value
    ensures ',' !in Part(name, value)
  {
  }

  lemma SplitSignature(keyId: string, names: seq<string>, sig: seq<Byte>)
    requires ',' !in keyId && SafeNames(names)
    ensures Split(SignatureValue(keyId, names, sig), ',')
         == [Part("keyId", keyId), Part("algorithm", "rsa-sha256"),
             Part("headers", Join(names, ' ')), Part("signature", Encode(sig, true))]
  {
    EncodedIsSafe(sig);
    PartLacksComma("keyId", keyId);
    PartLacksComma("algorithm", "rsa-sha256");
    PartLacksComma("headers", Join(names, ' '));
    PartLacksComma("signature", Encode(sig, true));
    SplitJoin([Part("keyId", keyId), Part("algorithm", "rsa-sha256"),
               Part("headers", Join(names, ' ')), Part("signature", Encode(sig, true))], ',');
  }

  /** A key id without commas leaves the four parameters apart. */
  lemma ParamsOfSignature(keyId: string, names: seq<string>, sig: seq<Byte>)
    requires ',' !in keyId && SafeNames(names)
    ensures Params(SignatureValue(keyId, names, sig))
         == map["keyId" := Trim(Quoted(keyId), "\""), "algorithm" := "rsa-sha256",
                "headers" := Join(names, ' '), "signature" := Encode(sig, true)]
  {
    var list, sig64 := Join(names, ' '), Encode(sig, true);
    SplitSignature(keyId, names, sig);
    EncodedIsSafe(sig);
    TrimQuoted("rsa-sha256");
    TrimQuoted(list);
    TrimQuoted(sig64);
    AddFour("keyId", keyId, "algorithm", "rsa-sha256", "headers", list, "signature", sig64);
  }

  lemma AddNext(params: map<string, string>, name: string, value: string, rest: seq<string>)
    requires IsWord(name) && '=' !in name
    ensures AddParams(params, [Part(name, value)] + rest)
         == AddParams(params[name := Trim(Quoted(value), "\"")], rest)
  {
    PartParses(params, name, value);
    assert ([Part(name, value)] + rest)[1..] == rest;
  }

  lemma AddFour(n1: string, v1: string, n2: string, v2: string, n3: string, v3: string, n4: string, v4: string)
    requires forall n :: n in [n1, n2, n3, n4] ==> IsWord(n) && '=' !in n
    ensures AddParams(map[], [Part(n1, v1), Part(n2, v2), Part(n3, v3), Part(n4, v4)])
         == map[n1 := Trim(Quoted(v1), "\"")][n2 := Trim(Quoted(v2), "\"")]
              [n3 := Trim(Quoted(v3), "\"")][n4 := Trim(Quoted(v4), "\"")]
  {
    var r3 := [Part(n4, v4)];
    var r2 := [Part(n3, v3)] + r3;
    var r1 := [Part(n2, v2)] + r2;
    assert [Part(n1, v1), Part(n2, v2), Part(n3, v3), Part(n4, v4)] == [Part(n1, v1)] + r1;
    assert r3 == [Part(n4, v4)] + [];
    var m1 := map[n1 := Trim(Quoted(v1), "\"")];
    var m2 := m1[n2 := Trim(Quoted(v2), "\"")];
    var m3 := m2[n3 := Trim(Quoted(v3), "\"")];
    assert n1 in [n1, n2, n3, n4] && n2 in [n1, n2, n3, n4] && n3 in [n1, n2, n3, n4] && n4 in [n1, n2, n3, n4];
    AddNext(map[], n1, v1, r1);
    AddNext(m1, n2, v2, r2);
    AddNext(m2, n3, v3, r3);
    AddNext(m3, n4, v4, []);
  }

  ghost predicate CleanValues(params: map<string, string>) {
    forall k :: k in params ==> ',' !in params[k] && NoOuter(params[k], "\"")
  }

  lemma SuffixLacks(s: string, n: nat, c: char)
    requires n <= |s| && c !in s
    ensures c !in s[n..]
  {
  }

  lemma AddParamStaysClean(params: map<string, string>, part: string)
    requires CleanValues(params) && ',' !in part
    ensures CleanValues(AddParam(params, part))
  {
    var p := Utf8.TrimSpace(part);
    var idx := IndexOf(p, '=');
    Utf8.TrimSpaceHasSame(part);
    if idx < |p| {
      SuffixLacks(p, idx + 1, ',');
      ValueIsClean(p[idx + 1..]);
      AddCleanValue(params, Utf8.TrimSpace(p[..idx]), Trim(Utf8.TrimSpace(p[idx + 1..]), "\""));
    }
  }

  lemma AddCleanValue(params: map<string, string>, name: string, value: string)
    requires CleanValues(params) && ',' !in value && NoOuter(value, "\"")
    ensures CleanValues(params[name := value])
  {
  }

  lemma ValueIsClean(text: string)
    requires ',' !in text
    ensures var val := Trim(Utf8.TrimSpace(text), "\""); ',' !in val && NoOuter(val, "\"")
  {
    Utf8.TrimSpaceHasSame(text);
    TrimIs(Utf8.TrimSpace(text), "\"");
  }

  lemma {:induction false} AddParamsStayClean(params: map<string, string>, parts: seq<string>)
    requires CleanValues(params) && forall p :: p in parts ==> ',' !in p
    ensures CleanValues(AddParams(params, parts))
    decreases |parts|
  {
    if parts != [] {
      AddParamStaysClean(params, parts[0]);
      AddParamsStayClean(AddParam(params, parts[0]), parts[1..]);
    }
  }

  /** The printed key id is read back exactly when it has no comma and no quote at its ends; inner
      quotes and outer spaces do no harm. */
  lemma KeyIdRoundTrip(keyId: string, names: seq<string>, sig: seq<Byte>)
    requires SafeNames(names)
    ensures Param(Params(SignatureValue(keyId, names, sig)), "keyId") == keyId
            <==> ',' !in keyId && NoOuter(keyId, "\"")
  {
    var header := SignatureValue(keyId, names, sig);
    SplitHasNoSeparator(header, ',');
    AddParamsStayClean(map[], Split(header, ','));
    if ',' !in keyId && NoOuter(keyId, "\"") {
      ParamsOfSignature(keyId, names, sig);
      TrimQuoted(keyId);
    }
  }

  // ---------------------------------------------------------------------------------------------
  // What the signed names stand for

  lemma {:induction false} JoinLacks(words: seq<string>, sep: char, c: char)
    requires c != sep && forall w :: w in words ==> c !in w
    ensures c !in Join(words, sep)
  {
    if |words| > 1 {
      JoinLacks(words[1..], sep, c);
    }
  }

  lemma NamesAreWords()
    ensures forall w :: w in [TARGET, "host", "date", "digest"] ==> IsWord(w) && ',' !in w
  {
  }

  lemma {:induction false} JoinEnds(words: seq<string>, sep: char)
    requires words != [] && forall i :: 0 <= i < |words| ==> words[i] != ""
    ensures var s := Join(words, sep);
            s != "" && s[0] == words[0][0] && s[|s| - 1] == words[|words| - 1][|words[|words| - 1]| - 1]
  {
    if |words| > 1 {
      JoinEnds(words[1..], sep);
    }
  }

  lemma SignedNamesAreSafe(names: seq<string>)
    requires IsSignedList(names)
    ensures SafeNames(names)
    ensures Fields(Join(names, ' ')) == names
  {
    NamesAreWords();
    JoinLacks(names, ' ', ',');
    JoinEnds(names, ' ');
    FieldsOfJoined(names);
  }

  lemma SignedNamesAreList(m: Message)
    ensures IsSignedList(SignedNames(m))
  {
    assert [TARGET, "host", "date"] + ["digest"] == [TARGET, "host", "date", "digest"];
    assert [TARGET, "host", "date"] + [] == [TARGET, "host", "date"];
  }

  /** The values that a signature covers are the same in both messages, under their own fallbacks. */
  ghost predicate SameCovered(a: Message, fa: string, b: Message, fb: string, names: seq<string>) {
    && Target(a) == Target(b)
    && Host(a, fa) == Host(b, fb)
    && Get(a, "Date") == Get(b, "Date")
    && ("digest" in names ==> Get(a, "Digest") == Get(b, "Digest"))
  }

  ghost predicate NoLineBreaks(m: Message, fallback: string) {
    && '\n' !in Target(m) && '\n' !in Host(m, fallback)
    && '\n' !in Get(m, "Date") && '\n' !in Get(m, "Digest")
  }

  ghost predicate IsSignedList(names: seq<string>) {
    names == [TARGET, "host", "date"] || names == [TARGET, "host", "date", "digest"]
  }

  lemma CoveredLines(a: Message, fallback: string, names: seq<string>)
    requires IsSignedList(names)
    ensures var lines := Lines(a, names, fallback);
            && lines[0] == TARGET + ": " + Target(a)
            && lines[1] == "host: " + Host(a, fallback)
            && lines[2] == "date: " + Get(a, "Date")
            && (|names| == 4 ==> lines[3] == "digest: " + Get(a, "Digest"))
  {
    CanonicalNames();
    assert "date" != TARGET && "date" != "host" && "digest" != TARGET && "digest" != "host" && "host" != TARGET;
    assert "date" + ": " == "date: " && "digest" + ": " == "digest: ";
  }

  lemma PrefixCancels(prefix: string, a: string, b: string)
    ensures prefix + a == prefix + b <==> a == b
  {
    assert (prefix + a)[|prefix|..] == a && (prefix + b)[|prefix|..] == b;
  }

  lemma SameLinesSameCovered(a: Message, fa: string, b: Message, fb: string, names: seq<string>)
    requires IsSignedList(names)
    ensures Lines(a, names, fa) == Lines(b, names, fb) <==> SameCovered(a, fa, b, fb, names)
  {
    var la, lb := Lines(a, names, fa), Lines(b, names, fb);
    CoveredLines(a, fa, names);
    CoveredLines(b, fb, names);
    PrefixCancels(TARGET + ": ", Target(a), Target(b));
    PrefixCancels("host: ", Host(a, fa), Host(b, fb));
    PrefixCancels("date: ", Get(a, "Date"), Get(b, "Date"));
    PrefixCancels("digest: ", Get(a, "Digest"), Get(b, "Digest"));
    assert "digest" in names <==> |names| == 4 by {
      assert "digest" != TARGET && "digest" != "host" && "digest" != "date";
    }
  }

  lemma LinesLackBreaks(m: Message, fallback: string, names: seq<string>)
    requires IsSignedList(names) && NoLineBreaks(m, fallback)
    ensures forall line :: line in Lines(m, names, fallback) ==> '\n' !in line
  {
    CoveredLines(m, fallback, names);
  }

  /** The canonical string determines every value it covers. */
  lemma SigningStringIsInjective(a: Message, fa: string, b: Message, fb: string, names: seq<string>)
    requires IsSignedList(names) && NoLineBreaks(a, fa) && NoLineBreaks(b, fb)
    ensures SigningString(a, names, fa) == SigningString(b, names, fb) <==> SameCovered(a, fa, b, fb, names)
  {
    LinesLackBreaks(a, fa, names);
    LinesLackBreaks(b, fb, names);
    SplitJoin(Lines(a, names, fa), '\n');
    SplitJoin(Lines(b, names, fb), '\n');
    SameLinesSameCovered(a, fa, b, fb, names);
  }

  // ---------------------------------------------------------------------------------------------
  // Verification of a message that carries the signature of another

  lemma VerifiesWith(r: Message, params: map<string, string>, names: seq<string>, text: string, key: KeyPair)
    requires Sound(key) && Signs(key) && IsSignedList(names)
    requires Param(params, "algorithm") == "rsa-sha256" && Param(params, "headers") == Join(names, ' ')
    requires Param(params, "signature") == Encode(key.sign(text), true)
    ensures var own := SigningString(r, names, r.host);
            VerifiedParams(r, params, Some(key)) == if key.sign(own) == key.sign(text) then Ok(own) else Err(InvalidSignature)
  {
    var sig := key.sign(text);
    SignedNamesAreSafe(names);
    RoundTrip(sig, true);
    assert VerifiedNames(params) == names;
    var own := SigningString(r, names, r.host);
    assert key.verify(own, sig) <==> sig == key.sign(own) && sig != [];
  }

  /** The string that `Sign` signs. */
  function SignedString(m: Message, now: string): string {
    var c := Completed(m, now);
    SigningString(c, SignedNames(c), c.urlHost)
  }

  /** The string that `Verify` rebuilds from r under that signature. */
  function RebuiltString(m: Message, now: string, r: Message): string {
    SigningString(r, SignedNames(Completed(m, now)), r.host)
  }

  /** With this signature r is judged by its own canonical string over the names that were signed. */
  lemma JudgedByString(m: Message, keyId: string, now: string, key: KeyPair, r: Message)
    requires ',' !in keyId && Sound(key) && Signs(key)
    requires Get(r, "Signature") == Get(Signed(m, keyId, now, key), "Signature")
    ensures Verified(r, Some(key))
         == if key.sign(RebuiltString(m, now, r)) == key.sign(SignedString(m, now))
            then Ok(RebuiltString(m, now, r)) else Err(InvalidSignature)
  {
    var c := Completed(m, now);
    var names := SignedNames(c);
    var text := SignedString(m, now);
    var header := SignatureValue(keyId, names, key.sign(text));
    assert Get(r, "Signature") == header;
    SignedNamesAreList(c);
    SignedNamesAreSafe(names);
    ParamsOfSignature(keyId, names, key.sign(text));
    assert Part("keyId", keyId) != "";
    VerifiesWith(r, Params(header), names, text, key);
  }

  /** A request with this signature is accepted exactly when target, host, date and, if it was signed,
      digest are those that were signed, or the strings collide: nothing covered can be changed, and
      nothing else matters. */
  lemma AcceptedExactlyIfUntouched(m: Message, keyId: string, now: string, key: KeyPair, r: Message)
    requires ',' !in keyId && Sound(key) && Signs(key)
    requires Get(r, "Signature") == Get(Signed(m, keyId, now, key), "Signature")
    requires NoLineBreaks(Completed(m, now), m.urlHost) && NoLineBreaks(r, r.host)
    ensures var c := Completed(m, now);
            Verified(r, Some(key)).Ok? <==>
              || SameCovered(r, r.host, c, c.urlHost, SignedNames(c))
              || Collide(key, RebuiltString(m, now, r), SignedString(m, now))
  {
    var c := Completed(m, now);
    JudgedByString(m, keyId, now, key, r);
    SignedNamesAreList(c);
    SigningStringIsInjective(r, r.host, c, c.urlHost, SignedNames(c));
  }

  /** Covered values that are those that were signed are always accepted. */
  lemma UntouchedIsAccepted(m: Message, keyId: string, now: string, key: KeyPair, r: Message)
    requires ',' !in keyId && Sound(key) && Signs(key)
    requires Get(r, "Signature") == Get(Signed(m, keyId, now, key), "Signature")
    requires var c := Completed(m, now); SameCovered(r, r.host, c, c.urlHost, SignedNames(c))
    ensures Verified(r, Some(key)) == Ok(SignedString(m, now))
  {
    var c := Completed(m, now);
    JudgedByString(m, keyId, now, key, r);
    SignedNamesAreList(c);
    SameLinesSameCovered(r, r.host, c, c.urlHost, SignedNames(c));
  }

  lemma SignedKeepsCovered(m: Message, keyId: string, now: string, key: KeyPair)
    ensures var c, s := Completed(m, now), Signed(m, keyId, now, key);
            && Target(s) == Target(m) == Target(c) && s.host == m.host && s.urlHost == m.urlHost == c.urlHost
            && Get(s, "Host") == Get(c, "Host") && Get(s, "Date") == Get(c, "Date")
            && Get(s, "Digest") == Get(c, "Digest")
  {
    CanonicalNames();
  }

  /** On the request itself verification accepts what signing made, whenever the URL or the Host header
      names a host. */
  lemma SignedVerifies(m: Message, keyId: string, now: string, key: KeyPair)
    requires ',' !in keyId && Sound(key) && Signs(key)
    requires Get(Completed(m, now), "Host") != ""
    ensures Verified(Signed(m, keyId, now, key), Some(key)) == Ok(SignedString(m, now))
  {
    SignedKeepsCovered(m, keyId, now, key);
    UntouchedIsAccepted(m, keyId, now, key, Signed(m, keyId, now, key));
  }

  /** What the other side receives: the client writes its own host on the Host line, and the server
      moves it out of the header map. */
  function WireHost(m: Message): string {
    if m.host != "" then m.host else m.urlHost
  }

  function Transmitted(m: Message): Message {
    m.(urlHost := "", host := WireHost(m), header := m.header - {"Host"})
  }

  lemma TransmittedKeeps(m: Message)
    ensures var r := Transmitted(m);
            && Target(r) == Target(m) && Get(r, "Host") == "" && Get(r, "Date") == Get(m, "Date")
            && Get(r, "Digest") == Get(m, "Digest") && Get(r, "Signature") == Get(m, "Signature")
  {
    CanonicalNames();
  }

  lemma CoveredInTransport(m: Message, keyId: string, now: string, key: KeyPair)
    ensures var c, r := Completed(m, now), Transmitted(Signed(m, keyId, now, key));
            && Get(r, "Signature") == Get(Signed(m, keyId, now, key), "Signature")
            && Host(r, r.host) == WireHost(m)
            && (SameCovered(r, r.host, c, c.urlHost, SignedNames(c)) <==> Host(c, m.urlHost) == WireHost(m))
  {
    SignedKeepsCovered(m, keyId, now, key);
    TransmittedKeeps(Signed(m, keyId, now, key));
  }

  /** After transport a signed request verifies exactly when the host that was signed is the one that
      the client writes on the wire, or the strings collide. */
  lemma TransmittedVerifies(m: Message, keyId: string, now: string, key: KeyPair)
    requires ',' !in keyId && Sound(key) && Signs(key)
    requires NoLineBreaks(Completed(m, now), m.urlHost) && '\n' !in WireHost(m)
    ensures var r := Transmitted(Signed(m, keyId, now, key));
            Verified(r, Some(key)).Ok? <==>
              || Host(Completed(m, now), m.urlHost) == WireHost(m)
              || Collide(key, RebuiltString(m, now, r), SignedString(m, now))
  {
    var s := Signed(m, keyId, now, key);
    SignedKeepsCovered(m, keyId, now, key);
    TransmittedKeeps(s);
    CoveredInTransport(m, keyId, now, key);
    AcceptedExactlyIfUntouched(m, keyId, now, key, Transmitted(s));
  }

  /** The request that `Deliver` builds before it signs: the client knows the host of the URL, and the
      date, the host and the digest are set. */
  function Outgoing(uri: string, urlHost: string, date: string, digest: string): Message {
    Message("POST", uri, urlHost, urlHost,
            map["Content-Type" := "application/activity+json", "Date" := date, "Host" := urlHost, "Digest" := digest])
  }

  /** Every activity that is delivered verifies where it arrives. */
  lemma DeliveredVerifies(uri: string, urlHost: string, date: string, digest: string, keyId: string, now: string,
                          key: KeyPair)
    requires ',' !in keyId && Sound(key) && Signs(key)
    ensures var m := Outgoing(uri, urlHost, date, digest);
            Verified(Transmitted(Signed(m, keyId, now, key)), Some(key)) == Ok(SignedString(m, now))
  {
    var m := Outgoing(uri, urlHost, date, digest);
    CanonicalNames();
    assert Host(Completed(m, now), urlHost) == urlHost == WireHost(m);
    CoveredInTransport(m, keyId, now, key);
    UntouchedIsAccepted(m, keyId, now, key, Transmitted(Signed(m, keyId, now, key)));
  }
}
