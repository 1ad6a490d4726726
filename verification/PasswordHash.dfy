/**
  The stored form of a password: "$argon2id$v=19$m=...,t=...,p=...$salt$hash", written and read.

  Argon2id is a function of the password, the salt, the three cost parameters and the length of its result.
*/
module PasswordHash {
  import opened Wrappers
  import opened Base64
  import opened Text
  import Utf8

  type Salt = s: seq<Byte> | |s| == 32 witness seq(32, _ => 0)

  datatype Params = Params(memory: int, time: int, threads: int)

  datatype HashError = InvalidFormat | BadParams | BadSalt | BadHash

  const DEFAULT := Params(65536, 3, 4)
  const KEY_LENGTH := 32

  const UINT32 := 0x1_0000_0000
  const UINT8 := 0x100

  predicate InRange(p: Params) {
    0 <= p.memory < UINT32 && 0 <= p.time < UINT32 && 0 <= p.threads < UINT8
  }

  type Kdf = (string, seq<Byte>, Params, nat) -> seq<Byte>

  ghost predicate KeepsLength(kdf: Kdf) {
    forall password, salt, p, n :: |kdf(password, salt, p, n)| == n
  }

  // ---------------------------------------------------------------------------------------------
  // Numbers

  function DigitOf(d: nat): char
    requires d < 10
  {
    d as char + '0'
  }

  function Print(n: nat): (s: string)
    ensures s != ""
  {
    (if n < 10 then "" else Print(n / 10)) + [DigitOf(n % 10)]
  }

  predicate IsDigit(c: char) {
    '0' <= c <= '9'
  }

  ghost predicate AllDigits(s: string) {
    forall i :: 0 <= i < |s| ==> IsDigit(s[i])
  }

  function DigitsEnd(s: string): (k: nat)
    ensures k <= |s|
  {
    if s != "" && IsDigit(s[0]) then 1 + DigitsEnd(s[1..]) else 0
  }

  function NumberOf(s: string): nat
    requires AllDigits(s)
  {
    if s == "" then 0
    else
      assert IsDigit(s[|s| - 1]);
      NumberOf(s[..|s| - 1]) * 10 + (s[|s| - 1] as int - '0' as int)
  }

  lemma {:induction false} DigitsAreDigits(s: string)
    ensures forall i :: 0 <= i < DigitsEnd(s) ==> IsDigit(s[i])
    ensures DigitsEnd(s) < |s| ==> !IsDigit(s[DigitsEnd(s)])
  {
    if s != "" && IsDigit(s[0]) {
      DigitsAreDigits(s[1..]);
    }
  }

  /** White space before a number is skipped, but a line feed is an error. */
  function SkipSpace(s: string): Option<string>
    decreases |s|
  {
    if s == "" then Some("")
    else if s[0] == '\n' then None
    else if Utf8.IsSpace(Utf8.DecodeRune(s).rune) then SkipSpace(s[Utf8.DecodeRune(s).size..])
    else Some(s)
  }

  /** The unsigned number below `limit` at the start of s, and what follows it. */
  function ScanNumber(s: string, limit: nat): Option<(nat, string)> {
    match SkipSpace(s)
    case None => None
    case Some(t) =>
      var k := DigitsEnd(t);
      DigitsAreDigits(t);
      var n := NumberOf(t[..k]);
      if k == 0 || n >= limit then None else Some((n, t[k..]))
  }

  function ScanText(s: string, expected: string): Option<string> {
    if expected <= s then Some(s[|expected|..]) else None
  }

  function ScanField(s: string, name: string, limit: nat): Option<(nat, string)> {
    match ScanText(s, name)
    case None => None
    case Some(t) => ScanNumber(t, limit)
  }

  /** Scans "m=%d,t=%d,p=%d"; text after the last number is ignored. */
  function ScanParams(s: string): (p: Option<Params>)
    ensures p.Some? ==> InRange(p.value)
  {
    match ScanField(s, "m=", UINT32)
    case None => None
    case Some(m) =>
      match ScanField(m.1, ",t=", UINT32)
      case None => None
      case Some(t) =>
        match ScanField(t.1, ",p=", UINT8)
        case None => None
        case Some(p) => Some(Params(m.0, t.0, p.0))
  }

  lemma {:induction false} PrintIsDigits(n: nat)
    ensures AllDigits(Print(n))
  {
    if n >= 10 {
      PrintIsDigits(n / 10);
    }
  }

  lemma {:induction false} PrintIsNumber(n: nat)
    ensures AllDigits(Print(n)) && NumberOf(Print(n)) == n
  {
    PrintIsDigits(n);
    if n >= 10 {
      PrintIsNumber(n / 10);
      assert Print(n)[..|Print(n)| - 1] == Print(n / 10);
    } else {
      assert Print(n)[..0] == "";
    }
  }

  lemma {:induction false} DigitsEndOf(a: string, b: string)
    requires AllDigits(a)
    requires b != "" ==> !IsDigit(b[0])
    ensures DigitsEnd(a + b) == |a|
  {
    if a == "" {
      assert a + b == b;
    } else {
      assert (a + b)[1..] == a[1..] + b;
      DigitsEndOf(a[1..], b);
    }
  }

  lemma DigitIsNoSpace(t: string)
    requires t != "" && IsDigit(t[0])
    ensures SkipSpace(t) == Some(t)
  {
    var c := t[0];
    assert '0' as int <= c as int <= '9' as int;
    assert Utf8.DecodeRune(t).rune == c as int;
  }

  lemma ScanPrinted(name: string, n: nat, rest: string, limit: nat)
    requires n < limit && (rest != "" ==> !IsDigit(rest[0]))
    ensures ScanField(name + Print(n) + rest, name, limit) == Some((n, rest))
  {
    var t := Print(n) + rest;
    PrintIsNumber(n);
    DigitsEndOf(Print(n), rest);
    assert name + Print(n) + rest == name + t;
    assert (name + t)[|name|..] == t;
    assert t[0] == Print(n)[0];
    DigitIsNoSpace(t);
    assert t[..|Print(n)|] == Print(n) && t[|Print(n)|..] == rest;
  }

  // ---------------------------------------------------------------------------------------------
  // The format

  function PrintParams(p: Params): string
    requires InRange(p)
  {
    "m=" + Print(p.memory) + (",t=" + Print(p.time) + (",p=" + Print(p.threads)))
  }

  lemma ScanParamsUndoesPrint(p: Params)
    requires InRange(p)
    ensures ScanParams(PrintParams(p)) == Some(p)
  {
    var third := ",p=" + Print(p.threads);
    var second := ",t=" + Print(p.time) + third;
    ScanPrinted("m=", p.memory, second, UINT32);
    ScanPrinted(",t=", p.time, third, UINT32);
    assert third == ",p=" + Print(p.threads) + "";
    ScanPrinted(",p=", p.threads, "", UINT8);
  }

  function Format(p: Params, salt: seq<Byte>, hash: seq<Byte>): string
    requires InRange(p)
  {
    "$argon2id$v=19$" + PrintParams(p) + "$" + Encode(salt, false) + "$" + Encode(hash, false)
  }

  datatype Stored = Stored(params: Params, salt: seq<Byte>, hash: seq<Byte>)

  /** What a stored hash says; the version is not looked at. */
  function ReadHash(s: string): Result<Stored, HashError> {
    ReadParts(Split(s, '$'))
  }

  function ReadParts(parts: seq<string>): Result<Stored, HashError> {
    if |parts| != 6 || parts[1] != "argon2id" then Err(InvalidFormat)
    else if ScanParams(parts[3]).None? then Err(BadParams)
    else if Decode(parts[4], false).None? then Err(BadSalt)
    else if Decode(parts[5], false).None? then Err(BadHash)
    else Ok(Stored(ScanParams(parts[3]).value, Decode(parts[4], false).value, Decode(parts[5], false).value))
  }

  lemma PrintLacksDollar(n: nat)
    ensures '$' !in Print(n)
  {
    PrintIsDigits(n);
  }

  lemma EncodedLacksDollar(bytes: seq<Byte>)
    ensures '$' !in Encode(bytes, false)
  {
  }

  lemma ParamsLackDollar(p: Params)
    requires InRange(p)
    ensures '$' !in PrintParams(p)
  {
    PrintLacksDollar(p.memory);
    PrintLacksDollar(p.time);
    PrintLacksDollar(p.threads);
    assert '$' !in ",p=" + Print(p.threads);
    assert '$' !in ",t=" + Print(p.time);
    assert '$' !in "m=" + Print(p.memory);
  }

  function Parts(p: Params, salt: seq<Byte>, hash: seq<Byte>): seq<string>
    requires InRange(p)
  {
    ["", "argon2id", "v=19", PrintParams(p), Encode(salt, false), Encode(hash, false)]
  }

  lemma SplitFormat(p: Params, salt: seq<Byte>, hash: seq<Byte>)
    requires InRange(p)
    ensures Split(Format(p, salt, hash), '$') == Parts(p, salt, hash)
  {
    var text, s4, s5 := PrintParams(p), Encode(salt, false), Encode(hash, false);
    ParamsLackDollar(p);
    EncodedLacksDollar(salt);
    EncodedLacksDollar(hash);
    JoinSix("", "argon2id", "v=19", text, s4, s5, '$');
    var tail := text + "$" + (s4 + "$" + s5);
    assert "" + "$" + ("argon2id" + "$" + ("v=19" + "$" + tail)) == "$argon2id$v=19$" + tail;
    Regroup("$argon2id$v=19$", text, s4, s5);
    SplitJoin(Parts(p, salt, hash), '$');
  }

  lemma Regroup(a: string, b: string, c: string, d: string)
    ensures a + (b + "$" + (c + "$" + d)) == a + b + "$" + c + "$" + d
  {
  }

  /** Reading undoes writing, for all parameters, salts and hashes. */
  lemma ReadUndoesFormat(p: Params, salt: seq<Byte>, hash: seq<Byte>)
    requires InRange(p)
    ensures ReadHash(Format(p, salt, hash)) == Ok(Stored(p, salt, hash))
  {
    SplitFormat(p, salt, hash);
    ScanParamsUndoesPrint(p);
    RoundTrip(salt, false);
    RoundTrip(hash, false);
    PartsAreRead("argon2id", PrintParams(p), Encode(salt, false), Encode(hash, false));
  }

  lemma PartsAreRead(scheme: string, params: string, salt: string, hash: string)
    requires scheme == "argon2id"
    requires ScanParams(params).Some? && Decode(salt, false).Some? && Decode(hash, false).Some?
    ensures ReadParts(["", scheme, "v=19", params, salt, hash])
         == Ok(Stored(ScanParams(params).value, Decode(salt, false).value, Decode(hash, false).value))
  {
  }

  lemma JoinSix(a: string, b: string, c: string, d: string, e: string, f: string, sep: char)
    ensures Join([a, b, c, d, e, f], sep)
         == a + [sep] + (b + [sep] + (c + [sep] + (d + [sep] + (e + [sep] + f))))
  {
    JoinStep(e, [f], sep);
    JoinStep(d, [e, f], sep);
    JoinStep(c, [d, e, f], sep);
    JoinStep(b, [c, d, e, f], sep);
    JoinStep(a, [b, c, d, e, f], sep);
    assert [a] + [b, c, d, e, f] == [a, b, c, d, e, f] && [b] + [c, d, e, f] == [b, c, d, e, f];
    assert [c] + [d, e, f] == [c, d, e, f] && [d] + [e, f] == [d, e, f] && [e] + [f] == [e, f];
  }

  // ---------------------------------------------------------------------------------------------
  // Hashing and verifying

  /** `salt` is what the random source delivers. */
  function HashPassword(kdf: Kdf, password: string, salt: Salt): string {
    Format(DEFAULT, salt, kdf(password, salt, DEFAULT, KEY_LENGTH))
  }

  function Xor(x: nat, y: nat): nat
    decreases x + y
  {
    if x == 0 && y == 0 then 0 else (x % 2 + y % 2) % 2 + 2 * Xor(x / 2, y / 2)
  }

  function Or(x: nat, y: nat): nat
    decreases x + y
  {
    if x == 0 && y == 0 then 0 else (if x % 2 + y % 2 == 0 then 0 else 1) + 2 * Or(x / 2, y / 2)
  }

  lemma {:induction false} XorIsZero(x: nat, y: nat)
    ensures Xor(x, y) == 0 <==> x == y
    decreases x + y
  {
    if x != 0 || y != 0 {
      XorIsZero(x / 2, y / 2);
    }
  }

  lemma {:induction false} OrIsZero(x: nat, y: nat)
    ensures Or(x, y) == 0 <==> x == 0 && y == 0
    decreases x + y
  {
    if x != 0 || y != 0 {
      OrIsZero(x / 2, y / 2);
    }
  }

  /** The accumulated difference is zero exactly if the sequences are equal. */
  method Differ(a: seq<Byte>, b: seq<Byte>) returns (diff: nat)
    requires |a| == |b|
    ensures diff == 0 <==> a == b
  {
    diff := 0;
    for i := 0 to |a|
      invariant diff == 0 <==> a[..i] == b[..i]
    {
      var x := Xor(a[i], b[i]);
      XorIsZero(a[i], b[i]);
      OrIsZero(diff, x);
      assert a[..i + 1] == a[..i] + [a[i]] && b[..i + 1] == b[..i] + [b[i]];
      diff := Or(diff, x);
    }
    assert a[..|a|] == a && b[..|a|] == b;
  }

  /** A password is accepted exactly if it hashes, with the stored salt and parameters, to the stored bytes. */
  method VerifyPassword(kdf: Kdf, password: string, hash: string) returns (r: Result<bool, HashError>)
    ensures r == match ReadHash(hash)
                 case Err(e) => Err(e)
                 case Ok(s) => Ok(kdf(password, s.salt, s.params, |s.hash|) == s.hash)
  {
    var parts := Split(hash, '$');
    if |parts| != 6 || parts[1] != "argon2id" {
      return Err(InvalidFormat);
    }
    var params := ScanParams(parts[3]);
    if params.None? {
      return Err(BadParams);
    }
    var salt := Decode(parts[4], false);
    if salt.None? {
      return Err(BadSalt);
    }
    var stored := Decode(parts[5], false);
    if stored.None? {
      return Err(BadHash);
    }
    var computed := kdf(password, salt.value, params.value, |stored.value|);
    if |computed| != |stored.value| {
      return Ok(false);
    }
    var diff := Differ(computed, stored.value);
    return Ok(diff == 0);
  }

  /** Against the hash of one password another is accepted exactly if Argon2id maps both to the same key
      under that salt; in particular the password itself is always accepted. */
  method HashThenVerify(kdf: Kdf, password: string, salt: Salt, attempt: string) returns (r: Result<bool, HashError>)
    requires KeepsLength(kdf)
    ensures r == Ok(kdf(attempt, salt, DEFAULT, KEY_LENGTH) == kdf(password, salt, DEFAULT, KEY_LENGTH))
  {
    ReadUndoesFormat(DEFAULT, salt, kdf(password, salt, DEFAULT, KEY_LENGTH));
    r := VerifyPassword(kdf, attempt, HashPassword(kdf, password, salt));
  }
}
