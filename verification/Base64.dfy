/** Standard base64, with padding and without. */
module Base64 {
  import opened Wrappers

  type Byte = b: int | 0 <= b < 256

  predicate InAlphabet(c: char) {
    'A' <= c <= 'Z' || 'a' <= c <= 'z' || '0' <= c <= '9' || c == '+' || c == '/'
  }

  function Digit(v: int): (c: char)
    requires 0 <= v < 64
    ensures InAlphabet(c) && Value(c) == v
  {
    if v < 26 then 'A' + v as char
    else if v < 52 then 'a' + (v - 26) as char
    else if v < 62 then '0' + (v - 52) as char
    else if v == 62 then '+' else '/'
  }

  function Value(c: char): (v: int)
    requires InAlphabet(c)
    ensures 0 <= v < 64
  {
    if 'A' <= c <= 'Z' then c as int - 'A' as int
    else if 'a' <= c <= 'z' then c as int - 'a' as int + 26
    else if '0' <= c <= '9' then c as int - '0' as int + 52
    else if c == '+' then 62 else 63
  }

  function Encode(bytes: seq<Byte>, padded: bool): (s: string)
    ensures forall c :: c in s ==> InAlphabet(c) || (padded && c == '=')
    ensures bytes != [] ==> s != ""
  {
    if bytes == [] then ""
    else if |bytes| == 1 then
      [Digit(bytes[0] / 4), Digit(bytes[0] % 4 * 16)] + if padded then "==" else ""
    else if |bytes| == 2 then
      [Digit(bytes[0] / 4), Digit(bytes[0] % 4 * 16 + bytes[1] / 16), Digit(bytes[1] % 16 * 4)]
      + if padded then "=" else ""
    else
      [Digit(bytes[0] / 4), Digit(bytes[0] % 4 * 16 + bytes[1] / 16),
       Digit(bytes[1] % 16 * 4 + bytes[2] / 64), Digit(bytes[2] % 64)]
      + Encode(bytes[3..], padded)
  }

  /** Decoding skips line breaks. */
  function WithoutBreaks(s: string): string {
    if s == "" then ""
    else (if s[0] == '\r' || s[0] == '\n' then "" else [s[0]]) + WithoutBreaks(s[1..])
  }

  function Bytes1(a: char, b: char): seq<Byte>
    requires InAlphabet(a) && InAlphabet(b)
  {
    [Value(a) * 4 + Value(b) / 16]
  }

  function Bytes2(a: char, b: char, c: char): seq<Byte>
    requires InAlphabet(a) && InAlphabet(b) && InAlphabet(c)
  {
    [Value(a) * 4 + Value(b) / 16, Value(b) % 16 * 16 + Value(c) / 4]
  }

  function Bytes3(a: char, b: char, c: char, d: char): seq<Byte>
    requires InAlphabet(a) && InAlphabet(b) && InAlphabet(c) && InAlphabet(d)
  {
    [Value(a) * 4 + Value(b) / 16, Value(b) % 16 * 16 + Value(c) / 4, Value(c) % 4 * 64 + Value(d)]
  }

  function DecodeQuanta(s: string, padded: bool): Option<seq<Byte>> {
    if s == "" then Some([])
    else if |s| >= 4 && InAlphabet(s[0]) && InAlphabet(s[1]) && InAlphabet(s[2]) && InAlphabet(s[3]) then
      match DecodeQuanta(s[4..], padded)
      case Some(rest) => Some(Bytes3(s[0], s[1], s[2], s[3]) + rest)
      case None => None
    else if |s| != (if padded then 4 else |s|) || |s| < 2 || !InAlphabet(s[0]) || !InAlphabet(s[1]) then None
    else if |s| == 2 || (padded && s[2..] == "==") then Some(Bytes1(s[0], s[1]))
    else if InAlphabet(s[2]) && (if padded then s[3] == '=' else |s| == 3) then Some(Bytes2(s[0], s[1], s[2]))
    else None
  }

  function Decode(s: string, padded: bool): Option<seq<Byte>> {
    DecodeQuanta(WithoutBreaks(s), padded)
  }

  /** Line feeds and carriage returns are skipped wherever they stand, and nothing else. */
  lemma {:induction false} BreaksAreSkipped(a: string, c: char, b: string)
    ensures WithoutBreaks(a + [c] + b)
         == WithoutBreaks(a) + (if c == '\r' || c == '\n' then "" else [c]) + WithoutBreaks(b)
  {
    if a == "" {
      assert a + [c] + b == [c] + b;
    } else {
      BreaksAreSkipped(a[1..], c, b);
      StepOver(a + [c] + b, a, a[1..] + [c] + b);
      Regroup(if a[0] == '\r' || a[0] == '\n' then "" else [a[0]], WithoutBreaks(a[1..]),
              if c == '\r' || c == '\n' then "" else [c], WithoutBreaks(b));
    }
  }

  lemma StepOver(s: string, a: string, rest: string)
    requires a != "" && s == [a[0]] + rest
    ensures WithoutBreaks(s) == (if a[0] == '\r' || a[0] == '\n' then "" else [a[0]]) + WithoutBreaks(rest)
  {
    assert s[1..] == rest;
  }

  lemma Regroup(h: string, x: string, y: string, z: string)
    ensures h + (x + y + z) == h + x + y + z
  {
  }

  lemma {:induction false} NoBreaks(s: string)
    requires forall c :: c in s ==> InAlphabet(c) || c == '='
    ensures WithoutBreaks(s) == s
  {
    if s != "" {
      assert s[0] in s;
      NoBreaks(s[1..]);
    }
  }

  lemma ThreeDigits(x: Byte, y: Byte)
    ensures Bytes2(Digit(x / 4), Digit(x % 4 * 16 + y / 16), Digit(y % 16 * 4)) == [x, y]
  {
    var b, c := x % 4 * 16 + y / 16, y % 16 * 4;
    assert b / 16 == x % 4 && b % 16 == y / 16;
    assert c / 4 == y % 16;
  }

  lemma DecodeThree(a: char, b: char, c: char, padded: bool)
    requires InAlphabet(a) && InAlphabet(b) && InAlphabet(c)
    ensures DecodeQuanta([a, b, c] + if padded then "=" else "", padded) == Some(Bytes2(a, b, c))
  {
    if padded {
      var s := [a, b, c, '='];
      assert [a, b, c] + "=" == s;
      assert s[2..][0] == c;
    } else {
      assert [a, b, c] + "" == [a, b, c];
    }
  }

  lemma TwoBytes(x: Byte, y: Byte, padded: bool)
    ensures DecodeQuanta(Encode([x, y], padded), padded) == Some([x, y])
  {
    ThreeDigits(x, y);
    DecodeThree(Digit(x / 4), Digit(x % 4 * 16 + y / 16), Digit(y % 16 * 4), padded);
  }

  lemma OneByte(x: Byte, padded: bool)
    ensures DecodeQuanta(Encode([x], padded), padded) == Some([x])
  {
    var a, b := Digit(x / 4), Digit(x % 4 * 16);
    assert Bytes1(a, b) == [x];
    if padded {
      var s := [a, b, '=', '='];
      assert Encode([x], true) == s;
      assert s[2..] == "==";
    } else {
      assert Encode([x], false) == [a, b];
    }
  }

  lemma ThreeBytes(x: Byte, y: Byte, z: Byte)
    ensures Bytes3(Digit(x / 4), Digit(x % 4 * 16 + y / 16), Digit(y % 16 * 4 + z / 64), Digit(z % 64)) == [x, y, z]
  {
    var b, c := x % 4 * 16 + y / 16, y % 16 * 4 + z / 64;
    assert b / 16 == x % 4 && b % 16 == y / 16;
    assert c / 4 == y % 16 && c % 4 == z / 64;
    assert x / 4 * 4 + b / 16 == x;
    assert b % 16 * 16 + c / 4 == y;
    assert c % 4 * 64 + z % 64 == z;
  }

  lemma FirstQuantum(bytes: seq<Byte>, padded: bool)
    requires |bytes| >= 3 && DecodeQuanta(Encode(bytes[3..], padded), padded) == Some(bytes[3..])
    ensures DecodeQuanta(Encode(bytes, padded), padded) == Some(bytes)
  {
    var x, y, z := bytes[0], bytes[1], bytes[2];
    var quantum := [Digit(x / 4), Digit(x % 4 * 16 + y / 16), Digit(y % 16 * 4 + z / 64), Digit(z % 64)];
    assert Encode(bytes, padded) == quantum + Encode(bytes[3..], padded);
    ThreeBytes(x, y, z);
    assert bytes == [x, y, z] + bytes[3..];
  }

  lemma {:induction false} QuantaRoundTrip(bytes: seq<Byte>, padded: bool)
    ensures DecodeQuanta(Encode(bytes, padded), padded) == Some(bytes)
  {
    if |bytes| == 0 {
    } else if |bytes| == 1 {
      OneByte(bytes[0], padded);
      assert bytes == [bytes[0]];
    } else if |bytes| == 2 {
      TwoBytes(bytes[0], bytes[1], padded);
      assert bytes == [bytes[0], bytes[1]];
    } else {
      QuantaRoundTrip(bytes[3..], padded);
      FirstQuantum(bytes, padded);
    }
  }

  /** Decoding undoes encoding, in both variants. */
  lemma RoundTrip(bytes: seq<Byte>, padded: bool)
    ensures Decode(Encode(bytes, padded), padded) == Some(bytes)
  {
    QuantaRoundTrip(bytes, padded);
    NoBreaks(Encode(bytes, padded));
  }

  // ---------------------------------------------------------------------------------------------
  // The encoding digit by digit, after section 4 of RFC 4648

  /** The alphabet: capitals, small letters and digits in their order, "+" and "/". */
  lemma AlphabetIs()
    ensures Digit(0) == 'A' && Digit(25) == 'Z' && Digit(26) == 'a' && Digit(51) == 'z'
    ensures Digit(52) == '0' && Digit(61) == '9' && Digit(62) == '+' && Digit(63) == '/'
    ensures forall v :: 0 <= v < 63 && v !in {25, 51, 61, 62} ==> Digit(v + 1) as int == Digit(v) as int + 1
    ensures forall c :: InAlphabet(c) ==> Digit(Value(c)) == c
  {
  }

  /** Three bytes are four digits of six bits each. */
  lemma QuantumIs(x: Byte, y: Byte, z: Byte, rest: seq<Byte>, padded: bool)
    ensures var s := Encode([x, y, z] + rest, padded);
            && |s| >= 4 && s[4..] == Encode(rest, padded)
            && InAlphabet(s[0]) && InAlphabet(s[1]) && InAlphabet(s[2]) && InAlphabet(s[3])
            && ((Value(s[0]) * 64 + Value(s[1])) * 64 + Value(s[2])) * 64 + Value(s[3]) == (x * 256 + y) * 256 + z
  {
    assert ([x, y, z] + rest)[3..] == rest;
  }

  /** Two last bytes are three digits, filled up with two zero bits. */
  lemma LastTwoAre(x: Byte, y: Byte, padded: bool)
    ensures var s := Encode([x, y], padded);
            && |s| == (if padded then 4 else 3) && (padded ==> s[3] == '=')
            && InAlphabet(s[0]) && InAlphabet(s[1]) && InAlphabet(s[2])
            && (Value(s[0]) * 64 + Value(s[1])) * 64 + Value(s[2]) == (x * 256 + y) * 4
  {
  }

  /** One last byte is two digits, filled up with four zero bits. */
  lemma LastOneIs(x: Byte, padded: bool)
    ensures var s := Encode([x], padded);
            && |s| == (if padded then 4 else 2) && (padded ==> s[2..] == "==")
            && InAlphabet(s[0]) && InAlphabet(s[1])
            && Value(s[0]) * 64 + Value(s[1]) == x * 16
  {
  }

  /** The digits of the text hold the bits of these bytes, in the same order; the unused bits of a last digit
      may be any. */
  ghost predicate Spells(s: string, bytes: seq<Byte>, padded: bool) {
    if bytes == [] then s == ""
    else if |bytes| == 1 then
      && |s| == (if padded then 4 else 2) && InAlphabet(s[0]) && InAlphabet(s[1])
      && (padded ==> s[2] == '=' && s[3] == '=')
      && (Value(s[0]) * 64 + Value(s[1])) / 16 == bytes[0] as int
    else if |bytes| == 2 then
      && |s| == (if padded then 4 else 3) && InAlphabet(s[0]) && InAlphabet(s[1]) && InAlphabet(s[2])
      && (padded ==> s[3] == '=')
      && ((Value(s[0]) * 64 + Value(s[1])) * 64 + Value(s[2])) / 4 == bytes[0] as int * 256 + bytes[1] as int
    else
      && |s| >= 4 && InAlphabet(s[0]) && InAlphabet(s[1]) && InAlphabet(s[2]) && InAlphabet(s[3])
      && ((Value(s[0]) * 64 + Value(s[1])) * 64 + Value(s[2])) * 64 + Value(s[3])
         == (bytes[0] as int * 256 + bytes[1] as int) * 256 + bytes[2] as int
      && Spells(s[4..], bytes[3..], padded)
  }

  /** Bytes are decoded from exactly the texts that spell them. */
  lemma {:induction false} DecodedExactly(s: string, bytes: seq<Byte>, padded: bool)
    ensures DecodeQuanta(s, padded) == Some(bytes) <==> Spells(s, bytes, padded)
    decreases |s|
  {
    if |s| >= 4 && InAlphabet(s[0]) && InAlphabet(s[1]) && InAlphabet(s[2]) && InAlphabet(s[3]) {
      if |bytes| >= 3 {
        DecodedExactly(s[4..], bytes[3..], padded);
        FrontDecoded(s, bytes, padded);
      }
    } else {
      TailDecoded(s, bytes, padded);
    }
  }

  lemma FrontDecoded(s: string, bytes: seq<Byte>, padded: bool)
    requires |s| >= 4 && InAlphabet(s[0]) && InAlphabet(s[1]) && InAlphabet(s[2]) && InAlphabet(s[3]) && |bytes| >= 3
    ensures DecodeQuanta(s, padded) == Some(bytes)
            <==> DecodeQuanta(s[4..], padded) == Some(bytes[3..])
                 && ((Value(s[0]) * 64 + Value(s[1])) * 64 + Value(s[2])) * 64 + Value(s[3])
                    == (bytes[0] as int * 256 + bytes[1] as int) * 256 + bytes[2] as int
  {
    FourDigits(Value(s[0]), Value(s[1]), Value(s[2]), Value(s[3]), bytes[0], bytes[1], bytes[2]);
    var rest := DecodeQuanta(s[4..], padded);
    if rest.Some? {
      FrontIs(Bytes3(s[0], s[1], s[2], s[3]), rest.value, bytes);
    }
  }

  lemma FrontIs(three: seq<Byte>, rest: seq<Byte>, bytes: seq<Byte>)
    requires |three| == 3 && |bytes| >= 3
    ensures three + rest == bytes
            <==> three[0] == bytes[0] && three[1] == bytes[1] && three[2] == bytes[2] && rest == bytes[3..]
  {
    assert (three + rest)[3..] == rest;
    assert bytes == [bytes[0], bytes[1], bytes[2]] + bytes[3..];
  }

  lemma FourDigits(a: int, b: int, c: int, d: int, x: Byte, y: Byte, z: Byte)
    requires 0 <= a < 64 && 0 <= b < 64 && 0 <= c < 64 && 0 <= d < 64
    ensures ((a * 64 + b) * 64 + c) * 64 + d == (x * 256 + y) * 256 + z
            <==> x == a * 4 + b / 16 && y == b % 16 * 16 + c / 4 && z == c % 4 * 64 + d
  {
    FourParts(a, b / 16, b % 16, c / 4, c % 4, d, x, y, z);
  }

  lemma FourParts(a: int, b: int, b': int, c: int, c': int, d: int, x: Byte, y: Byte, z: Byte)
    requires 0 <= a < 64 && 0 <= b < 4 && 0 <= b' < 16 && 0 <= c < 16 && 0 <= c' < 4 && 0 <= d < 64
    ensures ((a * 64 + (b * 16 + b')) * 64 + (c * 4 + c')) * 64 + d == (x * 256 + y) * 256 + z
            <==> x == a * 4 + b && y == b' * 16 + c && z == c' * 64 + d
  {
  }

  lemma ThreeOrTwoDigits(a: int, b: int, c: int, x: Byte, y: Byte)
    requires 0 <= a < 64 && 0 <= b < 64 && 0 <= c < 64
    ensures ((a * 64 + b) * 64 + c) / 4 == x as int * 256 + y as int <==> x == a * 4 + b / 16 && y == b % 16 * 16 + c / 4
    ensures (a * 64 + b) / 16 == a * 4 + b / 16
  {
    assert b == b / 16 * 16 + b % 16 && c == c / 4 * 4 + c % 4;
  }

  lemma TailDecoded(s: string, bytes: seq<Byte>, padded: bool)
    requires |s| < 4 || !InAlphabet(s[0]) || !InAlphabet(s[1]) || !InAlphabet(s[2]) || !InAlphabet(s[3])
    ensures DecodeQuanta(s, padded) == Some(bytes) <==> Spells(s, bytes, padded)
  {
    assert |s| == 4 ==> (s[2..] == "==" <==> s[2] == '=' && s[3] == '=') by {
      assert |s| == 4 ==> s[2..] == [s[2], s[3]];
    }
    if |bytes| == 1 {
      assert bytes == [bytes[0]];
    } else if |bytes| == 2 {
      assert bytes == [bytes[0], bytes[1]];
    }
    if |s| >= 2 && InAlphabet(s[0]) && InAlphabet(s[1]) {
      var c := if |s| >= 3 && InAlphabet(s[2]) then Value(s[2]) else 0;
      ThreeOrTwoDigits(Value(s[0]), Value(s[1]), c, if |bytes| >= 1 then bytes[0] else 0, if |bytes| >= 2 then bytes[1] else 0);
    }
  }
}
