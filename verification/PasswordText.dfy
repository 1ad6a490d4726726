/** The stored form of a password letter by letter: what is written, and exactly what is read. */
module PasswordText {
  import opened Wrappers
  import opened Base64
  import opened Text
  import opened PasswordHash
  import Utf8

  lemma NumbersAre()
    ensures Print(65536) == "65536" && Print(3) == "3" && Print(4) == "4"
  {
    assert Print(6) == "6" && Print(65) == "65" && Print(655) == "655" && Print(6553) == "6553";
  }

  lemma DefaultParamsAre()
    ensures PrintParams(DEFAULT) == "m=65536,t=3,p=4"
  {
    NumbersAre();
    DefaultParamsJoin(Print(65536), Print(3), Print(4));
  }

  lemma DefaultParamsJoin(m: string, t: string, c: string)
    requires m == "65536" && t == "3" && c == "4"
    ensures "m=" + m + (",t=" + t + (",p=" + c)) == "m=65536,t=3,p=4"
  {
    assert ",t=" + t + (",p=" + c) == ",t=3,p=4";
  }

  /** What is stored for a password. */
  lemma HashIs(kdf: Kdf, password: string, salt: Salt)
    ensures HashPassword(kdf, password, salt)
         == "$argon2id$v=19$m=65536,t=3,p=4$" + Encode(salt, false) + "$"
            + Encode(kdf(password, salt, Params(65536, 3, 4), 32), false)
  {
    DefaultParamsAre();
    HeadIs(PrintParams(DEFAULT));
  }

  lemma HeadIs(params: string)
    requires params == "m=65536,t=3,p=4"
    ensures "$argon2id$v=19$" + params + "$" == "$argon2id$v=19$m=65536,t=3,p=4$"
  {
  }

  // ---------------------------------------------------------------------------------------------
  // Which texts are read

  /** White space, but no line feed. */
  ghost predicate Blank(s: string)
    decreases |s|
  {
    s != "" ==> s[0] != '\n' && Utf8.IsSpace(Utf8.DecodeRune(s).rune) && Blank(s[Utf8.DecodeRune(s).size..])
  }

  /** Digits with this value, after white space. */
  ghost predicate IsNumber(s: string, n: int) {
    exists blank, digits :: s == blank + digits && Blank(blank) && digits != "" && AllDigits(digits) && NumberOf(digits) == n
  }

  lemma {:induction false} SkipSpaceOver(blank: string, t: string)
    requires Blank(blank) && t != "" && IsDigit(t[0])
    ensures SkipSpace(blank + t) == Some(t)
    decreases |blank|
  {
    if blank == "" {
      assert blank + t == t;
      DigitIsNoSpace(t);
    } else {
      var d := Utf8.DecodeRune(blank);
      SpaceInFront(blank, t);
      assert (blank + t)[d.size..] == blank[d.size..] + t;
      SkipSpaceOver(blank[d.size..], t);
    }
  }

  lemma SpaceInFront(blank: string, t: string)
    requires blank != "" && Utf8.IsSpace(Utf8.DecodeRune(blank).rune)
    ensures Utf8.DecodeRune(blank + t) == Utf8.DecodeRune(blank)
  {
  }

  lemma {:induction false} SkipSpaceIs(s: string) returns (blank: string)
    requires SkipSpace(s).Some?
    ensures Blank(blank) && s == blank + SkipSpace(s).value
    decreases |s|
  {
    if s != "" && Utf8.IsSpace(Utf8.DecodeRune(s).rune) {
      var d := Utf8.DecodeRune(s).size;
      var more := SkipSpaceIs(s[d..]);
      blank := s[..d] + more;
      SpaceAlone(s, more);
      Rejoin(s, d, more, SkipSpace(s).value);
    } else {
      blank := "";
    }
  }

  lemma Rejoin(s: string, d: nat, more: string, rest: string)
    requires d <= |s| && s[d..] == more + rest
    ensures s == s[..d] + more + rest
  {
    assert s == s[..d] + s[d..];
  }

  lemma SpaceAlone(s: string, more: string)
    requires s != "" && s[0] != '\n' && Utf8.IsSpace(Utf8.DecodeRune(s).rune) && Blank(more)
    ensures Blank(s[..Utf8.DecodeRune(s).size] + more)
  {
    var d := Utf8.DecodeRune(s).size;
    var r := s[..d];
    PrefixDecodes(s, d);
    SpaceInFront(r, more);
    assert (r + more)[d..] == more;
  }

  /** A field is read exactly from its name, a number below the limit, and a rest that does not go on with a
      digit. */
  lemma ScanFieldExactly(s: string, name: string, limit: nat, n: nat, rest: string)
    ensures ScanField(s, name, limit) == Some((n, rest))
            <==> n < limit && (rest != "" ==> !IsDigit(rest[0]))
                 && exists number :: IsNumber(number, n) && s == name + number + rest
  {
    if ScanField(s, name, limit) == Some((n, rest)) {
      var number := ScannedNumber(s, name, limit, n, rest);
    }
    forall number | IsNumber(number, n) && s == name + number + rest && n < limit && (rest != "" ==> !IsDigit(rest[0]))
      ensures ScanField(s, name, limit) == Some((n, rest))
    {
      NumberIsScanned(s, name, limit, n, number, rest);
    }
  }

  lemma Regroup(name: string, blank: string, digits: string, rest: string)
    ensures name + (blank + (digits + rest)) == name + (blank + digits) + rest
  {
  }

  lemma ScannedDigits(u: string, n: nat, rest: string) returns (digits: string)
    requires DigitsEnd(u) > 0 && rest == u[DigitsEnd(u)..]
    requires AllDigits(u[..DigitsEnd(u)]) && n == NumberOf(u[..DigitsEnd(u)])
    ensures u == digits + rest && digits != "" && AllDigits(digits) && NumberOf(digits) == n
    ensures rest != "" ==> !IsDigit(rest[0])
  {
    DigitsAreDigits(u);
    digits := u[..DigitsEnd(u)];
  }

  lemma ScannedNumber(s: string, name: string, limit: nat, n: nat, rest: string) returns (number: string)
    requires ScanField(s, name, limit) == Some((n, rest))
    ensures n < limit && (rest != "" ==> !IsDigit(rest[0])) && IsNumber(number, n) && s == name + number + rest
  {
    var t := s[|name|..];
    var u := SkipSpace(t).value;
    DigitsAreDigits(u);
    var blank := SkipSpaceIs(t);
    var digits := ScannedDigits(u, n, rest);
    number := blank + digits;
    Regroup(name, blank, digits, rest);
  }

  lemma NumberIsScanned(s: string, name: string, limit: nat, n: nat, number: string, rest: string)
    requires IsNumber(number, n) && s == name + number + rest && n < limit && (rest != "" ==> !IsDigit(rest[0]))
    ensures ScanField(s, name, limit) == Some((n, rest))
  {
    var blank, digits :| number == blank + digits && Blank(blank) && digits != "" && AllDigits(digits)
                         && NumberOf(digits) == n;
    var t := digits + rest;
    assert s == name + (blank + t);
    assert s[|name|..] == blank + t;
    assert t[0] == digits[0];
    SkipSpaceOver(blank, t);
    DigitsEndOf(digits, rest);
    assert t[..|digits|] == digits && t[|digits|..] == rest;
  }

  /** The parameters are read exactly from three numbers behind their names, each in the range of its type; any
      text may follow that does not go on with a digit. */
  ghost predicate ParamsText(s: string, p: Params) {
    exists m, t, c, rest :: IsParamsText(s, p, m, t, c, rest)
  }

  ghost predicate IsParamsText(s: string, p: Params, m: string, t: string, c: string, rest: string) {
    && IsNumber(m, p.memory) && IsNumber(t, p.time) && IsNumber(c, p.threads)
    && s == "m=" + m + (",t=" + t + (",p=" + c + rest))
    && (rest != "" ==> !IsDigit(rest[0]))
  }

  lemma ScanParamsSteps(s: string, p: Params) returns (f: string, g: string, h: string)
    requires ScanParams(s) == Some(p)
    ensures p.memory >= 0 && p.time >= 0 && p.threads >= 0
    ensures ScanField(s, "m=", UINT32) == Some((p.memory, f))
    ensures ScanField(f, ",t=", UINT32) == Some((p.time, g))
    ensures ScanField(g, ",p=", UINT8) == Some((p.threads, h))
  {
    f := ScanField(s, "m=", UINT32).value.1;
    g := ScanField(f, ",t=", UINT32).value.1;
    h := ScanField(g, ",p=", UINT8).value.1;
  }

  lemma ScanParamsIs(s: string, m: nat, f: string, t: nat, g: string, c: nat, h: string)
    requires ScanField(s, "m=", UINT32) == Some((m, f))
    requires ScanField(f, ",t=", UINT32) == Some((t, g))
    requires ScanField(g, ",p=", UINT8) == Some((c, h))
    ensures ScanParams(s) == Some(Params(m, t, c))
  {
  }

  lemma ParamsJoined(s: string, p: Params, m: string, f: string, t: string, g: string, c: string, rest: string)
    requires IsNumber(m, p.memory) && IsNumber(t, p.time) && IsNumber(c, p.threads)
    requires rest != "" ==> !IsDigit(rest[0])
    requires s == "m=" + m + f && f == ",t=" + t + g && g == ",p=" + c + rest
    ensures IsParamsText(s, p, m, t, c, rest)
  {
  }

  lemma ScannedParams(s: string, p: Params)
    requires ScanParams(s) == Some(p)
    ensures 0 <= p.memory < 0x1_0000_0000 && 0 <= p.time < 0x1_0000_0000 && 0 <= p.threads < 256 && ParamsText(s, p)
  {
    var f, g, rest := ScanParamsSteps(s, p);
    var m := ScannedNumber(s, "m=", UINT32, p.memory, f);
    var t := ScannedNumber(f, ",t=", UINT32, p.time, g);
    var c := ScannedNumber(g, ",p=", UINT8, p.threads, rest);
    ParamsJoined(s, p, m, f, t, g, c, rest);
  }

  lemma ScanParamsExactly(s: string, p: Params)
    ensures ScanParams(s) == Some(p)
            <==> 0 <= p.memory < 0x1_0000_0000 && 0 <= p.time < 0x1_0000_0000 && 0 <= p.threads < 256
                 && ParamsText(s, p)
  {
    if ScanParams(s) == Some(p) {
      ScannedParams(s, p);
    }
    if 0 <= p.memory < UINT32 && 0 <= p.time < UINT32 && 0 <= p.threads < UINT8 && ParamsText(s, p) {
      var m, t, c, rest :| IsParamsText(s, p, m, t, c, rest);
      var g := ",p=" + c + rest;
      var f := ",t=" + t + g;
      NumberIsScanned(s, "m=", UINT32, p.memory, m, f);
      NumberIsScanned(f, ",t=", UINT32, p.time, t, g);
      NumberIsScanned(g, ",p=", UINT8, p.threads, c, rest);
      ScanParamsIs(s, p.memory, f, p.time, g, p.threads, rest);
    }
  }

  /** Joining undoes splitting. */
  lemma {:induction false} JoinSplit(s: string, sep: char)
    ensures Join(Split(s, sep), sep) == s
  {
    if s != "" {
      JoinSplit(s[1..], sep);
      var rest := Split(s[1..], sep);
      if s[0] == sep {
        JoinStep("", rest, sep);
        assert s == "" + [sep] + s[1..];
      } else {
        FirstLetter(s[0], rest, sep);
        assert s == [s[0]] + s[1..];
      }
    }
  }

  lemma FirstLetter(c: char, parts: seq<string>, sep: char)
    requires parts != []
    ensures Join([[c] + parts[0]] + parts[1..], sep) == [c] + Join(parts, sep)
  {
    if |parts| > 1 {
      JoinStep([c] + parts[0], parts[1..], sep);
      JoinStep(parts[0], parts[1..], sep);
      assert parts == [parts[0]] + parts[1..];
      assert [c] + parts[0] + [sep] + Join(parts[1..], sep) == [c] + (parts[0] + [sep] + Join(parts[1..], sep));
    } else {
      assert parts == [parts[0]] && [[c] + parts[0]] + parts[1..] == [[c] + parts[0]];
    }
  }

  /** Six parts between "$", of which the second is the scheme, the fourth the parameters, and the last two are
      base64. The first and the third are not looked at. */
  ghost predicate IsStored(s: string, stored: Stored, parts: seq<string>) {
    && |parts| == 6 && (forall p :: p in parts ==> '$' !in p) && s == Join(parts, '$')
    && parts[1] == "argon2id"
    && ScanParams(parts[3]) == Some(stored.params)
    && Decode(parts[4], false) == Some(stored.salt) && Decode(parts[5], false) == Some(stored.hash)
  }

  lemma ReadExactly(s: string, stored: Stored)
    ensures ReadHash(s) == Ok(stored) <==> exists parts :: IsStored(s, stored, parts)
  {
    SplitHasNoSeparator(s, '$');
    JoinSplit(s, '$');
    if ReadHash(s) == Ok(stored) {
      assert IsStored(s, stored, Split(s, '$'));
    }
    forall parts | IsStored(s, stored, parts) ensures ReadHash(s) == Ok(stored) {
      SplitJoin(parts, '$');
    }
  }
}
