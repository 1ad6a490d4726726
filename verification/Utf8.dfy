/** Runes at the two ends of a byte string. Bytes are written as characters below 256. */
module Utf8 {

  type Bytes = string

  const RUNE_ERROR := 0xFFFD

  datatype Decoded = Decoded(rune: int, size: nat)

  predicate Between(c: char, lo: int, hi: int) {
    lo <= c as int <= hi
  }

  predicate IsTail(c: char) {
    Between(c, 0x80, 0xBF)
  }

  /** The first rune of s; an invalid encoding counts as one byte. */
  function DecodeRune(s: Bytes): (d: Decoded)
    requires s != ""
    ensures 1 <= d.size <= |s|
    ensures s[0] as int < 0x80 ==> d == Decoded(s[0] as int, 1)
  {
    var b := s[0] as int;
    if b < 0x80 then Decoded(b, 1)
    else if 0xC2 <= b <= 0xDF then
      if |s| >= 2 && IsTail(s[1]) then Decoded((b - 0xC0) * 64 + Tail(s[1]), 2) else Decoded(RUNE_ERROR, 1)
    else if 0xE0 <= b <= 0xEF then
      if |s| >= 3 && Between(s[1], if b == 0xE0 then 0xA0 else 0x80, if b == 0xED then 0x9F else 0xBF) && IsTail(s[2])
      then Decoded((b - 0xE0) * 4096 + Tail(s[1]) * 64 + Tail(s[2]), 3)
      else Decoded(RUNE_ERROR, 1)
    else if 0xF0 <= b <= 0xF4 then
      if |s| >= 4 && Between(s[1], if b == 0xF0 then 0x90 else 0x80, if b == 0xF4 then 0x8F else 0xBF)
         && IsTail(s[2]) && IsTail(s[3])
      then Decoded((b - 0xF0) * 262144 + Tail(s[1]) * 4096 + Tail(s[2]) * 64 + Tail(s[3]), 4)
      else Decoded(RUNE_ERROR, 1)
    else Decoded(RUNE_ERROR, 1)
  }

  function Tail(c: char): int {
    c as int - 0x80
  }

  /** Index of the last byte that starts a rune, looking back at most four bytes. */
  function LastStart(s: Bytes, k: nat, low: nat): (start: nat)
    requires low <= k < |s|
    ensures low <= start <= k
  {
    if !IsTail(s[k]) || k == low then k else LastStart(s, k - 1, low)
  }

  /** The last rune of s. */
  function DecodeLastRune(s: Bytes): (d: Decoded)
    requires s != ""
    ensures 1 <= d.size <= |s|
    ensures s[|s| - 1] as int < 0x80 ==> d == Decoded(s[|s| - 1] as int, 1)
  {
    var start := LastStart(s, |s| - 1, if |s| > 4 then |s| - 4 else 0);
    var d := DecodeRune(s[start..]);
    if start + d.size == |s| then d else Decoded(RUNE_ERROR, 1)
  }

  // ---------------------------------------------------------------------------------------------
  // Decoding and encoding, after section 3 of RFC 3629

  predicate IsScalar(rune: int) {
    0 <= rune < 0xD800 || 0xE000 <= rune < 0x110000
  }

  function EncodeRune(rune: int): (s: Bytes)
    requires IsScalar(rune)
    ensures 1 <= |s| <= 4
  {
    if rune < 0x80 then [rune as char]
    else if rune < 0x800 then [(0xC0 + rune / 64) as char, (0x80 + rune % 64) as char]
    else if rune < 0x10000 then
      [(0xE0 + rune / 4096) as char, (0x80 + rune / 64 % 64) as char, (0x80 + rune % 64) as char]
    else
      [(0xF0 + rune / 262144) as char, (0x80 + rune / 4096 % 64) as char, (0x80 + rune / 64 % 64) as char,
       (0x80 + rune % 64) as char]
  }

  lemma Sixties(rune: nat)
    ensures rune == rune / 64 * 64 + rune % 64
    ensures rune == rune / 4096 * 4096 + rune / 64 % 64 * 64 + rune % 64
    ensures rune == rune / 262144 * 262144 + rune / 4096 % 64 * 4096 + rune / 64 % 64 * 64 + rune % 64
  {
    assert rune / 64 / 64 == rune / 4096 && rune / 4096 / 64 == rune / 262144;
    assert rune / 64 == rune / 4096 * 64 + rune / 64 % 64;
    assert rune / 4096 == rune / 262144 * 64 + rune / 4096 % 64;
  }

  lemma DecodeTwo(a: int, b: int, rest: Bytes)
    requires 2 <= a < 32 && 0 <= b < 64
    ensures DecodeRune([(0xC0 + a) as char, (0x80 + b) as char] + rest) == Decoded(a * 64 + b, 2)
  {
  }

  lemma DecodeThree(a: int, b: int, c: int, rest: Bytes)
    requires 0 <= a < 16 && 0 <= b < 64 && 0 <= c < 64
    requires a == 0 ==> b >= 0x20
    requires a == 0xD ==> b < 0x20
    ensures DecodeRune([(0xE0 + a) as char, (0x80 + b) as char, (0x80 + c) as char] + rest)
         == Decoded(a * 4096 + b * 64 + c, 3)
  {
  }

  lemma DecodeFour(a: int, b: int, c: int, d: int, rest: Bytes)
    requires 0 <= a < 5 && 0 <= b < 64 && 0 <= c < 64 && 0 <= d < 64
    requires a == 0 ==> b >= 0x10
    requires a == 4 ==> b < 0x10
    ensures DecodeRune([(0xF0 + a) as char, (0x80 + b) as char, (0x80 + c) as char, (0x80 + d) as char] + rest)
         == Decoded(a * 262144 + b * 4096 + c * 64 + d, 4)
  {
  }

  /** Decoding reads every encoded rune, whatever follows. */
  lemma DecodeUndoesEncode(rune: int, rest: Bytes)
    requires IsScalar(rune)
    ensures DecodeRune(EncodeRune(rune) + rest) == Decoded(rune, |EncodeRune(rune)|)
  {
    Sixties(rune);
    if rune < 0x80 {
    } else if rune < 0x800 {
      DecodeTwo(rune / 64, rune % 64, rest);
    } else if rune < 0x10000 {
      DecodeThree(rune / 4096, rune / 64 % 64, rune % 64, rest);
    } else {
      DecodeFour(rune / 262144, rune / 4096 % 64, rune / 64 % 64, rune % 64, rest);
    }
  }

  lemma EncodeTwo(a: int, b: int)
    requires 2 <= a < 32 && 0 <= b < 64
    ensures IsScalar(a * 64 + b) && EncodeRune(a * 64 + b) == [(0xC0 + a) as char, (0x80 + b) as char]
  {
    var r := a * 64 + b;
    assert r / 64 == a && r % 64 == b;
  }

  lemma EncodeThree(a: int, b: int, c: int)
    requires 0 <= a < 16 && 0 <= b < 64 && 0 <= c < 64
    requires a == 0 ==> b >= 0x20
    requires a == 0xD ==> b < 0x20
    ensures var r := a * 4096 + b * 64 + c;
            IsScalar(r) && EncodeRune(r) == [(0xE0 + a) as char, (0x80 + b) as char, (0x80 + c) as char]
  {
    var r := a * 4096 + b * 64 + c;
    assert r / 4096 == a && r / 64 == a * 64 + b && r % 64 == c;
  }

  lemma EncodeFour(a: int, b: int, c: int, d: int)
    requires 0 <= a < 5 && 0 <= b < 64 && 0 <= c < 64 && 0 <= d < 64
    requires a == 0 ==> b >= 0x10
    requires a == 4 ==> b < 0x10
    ensures var r := a * 262144 + b * 4096 + c * 64 + d;
            IsScalar(r)
            && EncodeRune(r) == [(0xF0 + a) as char, (0x80 + b) as char, (0x80 + c) as char, (0x80 + d) as char]
  {
    var r := a * 262144 + b * 4096 + c * 64 + d;
    assert r / 262144 == a && r / 4096 == a * 64 + b && r / 64 == (a * 64 + b) * 64 + c && r % 64 == d;
  }

  /** What is not the encoding of a rune counts as one wrong byte. */
  lemma DecodeIsSound(s: Bytes)
    requires s != ""
    ensures var d := DecodeRune(s);
            d != Decoded(0xFFFD, 1) ==> IsScalar(d.rune) && EncodeRune(d.rune) == s[..d.size]
  {
    var d, b := DecodeRune(s), s[0] as int;
    if d.size == 2 {
      EncodeTwo(b - 0xC0, Tail(s[1]));
    } else if d.size == 3 {
      EncodeThree(b - 0xE0, Tail(s[1]), Tail(s[2]));
    } else if d.size == 4 {
      EncodeFour(b - 0xF0, Tail(s[1]), Tail(s[2]), Tail(s[3]));
    }
  }

  lemma LastStartOf(s: Bytes, rune: int)
    requires IsScalar(rune)
    ensures var t := s + EncodeRune(rune);
            LastStart(t, |t| - 1, if |t| > 4 then |t| - 4 else 0) == |s|
  {
    var e := EncodeRune(rune);
    var t := s + e;
    var low := if |t| > 4 then |t| - 4 else 0;
    assert !IsTail(t[|s|]) && t[|s|] == e[0];
    assert forall i :: 1 <= i < |e| ==> t[|s| + i] == e[i] && IsTail(e[i]);
    LastStartIs(t, |t| - 1, low, |s|);
  }

  lemma {:induction false} LastStartIs(s: Bytes, k: nat, low: nat, start: nat)
    requires low <= start <= k < |s| && !IsTail(s[start])
    requires forall i :: start < i <= k ==> IsTail(s[i])
    ensures LastStart(s, k, low) == start
  {
    if start < k {
      LastStartIs(s, k - 1, low, start);
    }
  }

  /** The last rune of a text is the one that was appended, whatever stands before. */
  lemma DecodeLastUndoesEncode(s: Bytes, rune: int)
    requires IsScalar(rune)
    ensures DecodeLastRune(s + EncodeRune(rune)) == Decoded(rune, |EncodeRune(rune)|)
  {
    var t := s + EncodeRune(rune);
    LastStartOf(s, rune);
    assert t[|s|..] == EncodeRune(rune) + "";
    DecodeUndoesEncode(rune, "");
  }

  /** White space as Unicode defines it. */
  predicate IsSpace(rune: int) {
    || 0x09 <= rune <= 0x0D || rune == 0x20 || rune == 0x85 || rune == 0xA0 || rune == 0x1680
    || 0x2000 <= rune <= 0x200A || rune == 0x2028 || rune == 0x2029 || rune == 0x202F || rune == 0x205F
    || rune == 0x3000
  }

  /** The property White_Space of Unicode. */
  lemma SpacesAre(rune: int)
    ensures IsSpace(rune) <==> rune in {0x09, 0x0A, 0x0B, 0x0C, 0x0D, 0x20, 0x85, 0xA0, 0x1680, 0x2000, 0x2001, 0x2002,
                                        0x2003, 0x2004, 0x2005, 0x2006, 0x2007, 0x2008, 0x2009, 0x200A, 0x2028, 0x2029,
                                        0x202F, 0x205F, 0x3000}
  {
  }

  function TrimLeft(s: Bytes): (t: Bytes)
    ensures |t| <= |s|
  {
    if s != "" && IsSpace(DecodeRune(s).rune) then TrimLeft(s[DecodeRune(s).size..]) else s
  }

  function TrimRight(s: Bytes): (t: Bytes)
    ensures |t| <= |s|
  {
    if s != "" && IsSpace(DecodeLastRune(s).rune) then TrimRight(s[..|s| - DecodeLastRune(s).size]) else s
  }

  /** The part of s between its outer white space. */
  function TrimSpace(s: Bytes): Bytes {
    TrimRight(TrimLeft(s))
  }

  /** Exactly one rune, and it is white space. */
  ghost predicate IsSpaceRune(r: Bytes) {
    r != "" && DecodeRune(r).size == |r| && IsSpace(DecodeRune(r).rune)
  }

  function Flat(parts: seq<Bytes>): Bytes {
    if parts == [] then "" else parts[0] + Flat(parts[1..])
  }

  ghost predicate OnlySpaces(s: Bytes) {
    exists runes :: SpaceRunes(s, runes)
  }

  ghost predicate SpaceRunes(s: Bytes, runes: seq<Bytes>) {
    (forall i :: 0 <= i < |runes| ==> IsSpaceRune(runes[i])) && s == Flat(runes)
  }

  lemma FirstSpaceAlone(s: Bytes)
    requires s != "" && IsSpace(DecodeRune(s).rune)
    ensures IsSpaceRune(s[..DecodeRune(s).size])
  {
    assert DecodeRune(s[..DecodeRune(s).size]) == DecodeRune(s);
  }

  lemma LastSpaceAlone(s: Bytes)
    requires s != "" && IsSpace(DecodeLastRune(s).rune)
    ensures IsSpaceRune(s[|s| - DecodeLastRune(s).size..])
  {
    var start := LastStart(s, |s| - 1, if |s| > 4 then |s| - 4 else 0);
    assert DecodeLastRune(s) == DecodeRune(s[start..]);
  }

  lemma {:induction false} FlatOneMore(parts: seq<Bytes>, last: Bytes)
    ensures Flat(parts + [last]) == Flat(parts) + last
  {
    if parts == [] {
      assert [last][1..] == [];
      assert last + "" == last == "" + last;
      assert parts + [last] == [last];
    } else {
      FlatOneMore(parts[1..], last);
      assert (parts + [last])[1..] == parts[1..] + [last];
      assert parts[0] + (Flat(parts[1..]) + last) == parts[0] + Flat(parts[1..]) + last;
    }
  }

  lemma {:induction false} TrimLeftIs(s: Bytes) returns (cut: Bytes, runes: seq<Bytes>)
    ensures s == cut + TrimLeft(s) && SpaceRunes(cut, runes)
    ensures TrimLeft(s) != "" ==> !IsSpace(DecodeRune(TrimLeft(s)).rune)
  {
    if s != "" && IsSpace(DecodeRune(s).rune) {
      var d := DecodeRune(s).size;
      var first, rest := s[..d], s[d..];
      var more;
      more, runes := TrimLeftIs(rest);
      FirstSpaceAlone(s);
      cut := first + more;
      assert ([first] + runes)[1..] == runes;
      runes := [first] + runes;
      Rejoin(s, d, first, rest, more, TrimLeft(rest));
    } else {
      cut, runes := "", [];
    }
  }

  lemma Rejoin(s: Bytes, d: nat, first: Bytes, rest: Bytes, more: Bytes, left: Bytes)
    requires d <= |s| && first == s[..d] && rest == s[d..] && rest == more + left
    ensures s == first + more + left
  {
  }

  lemma RejoinEnd(s: Bytes, k: nat, left: Bytes, more: Bytes, last: Bytes)
    requires k <= |s| && s[..k] == left + more && s[k..] == last
    ensures s == left + (more + last)
  {
  }

  lemma OneMoreRune(cut: Bytes, runes: seq<Bytes>, last: Bytes)
    requires SpaceRunes(cut, runes) && IsSpaceRune(last)
    ensures SpaceRunes(cut + last, runes + [last])
  {
    FlatOneMore(runes, last);
  }

  lemma {:induction false} TrimRightIs(s: Bytes) returns (cut: Bytes, runes: seq<Bytes>)
    ensures s == TrimRight(s) + cut && SpaceRunes(cut, runes)
    ensures TrimRight(s) != "" ==> !IsSpace(DecodeLastRune(TrimRight(s)).rune)
  {
    if s != "" && IsSpace(DecodeLastRune(s).rune) {
      var k := |s| - DecodeLastRune(s).size;
      var rest, last := s[..k], s[k..];
      var more;
      more, runes := TrimRightIs(rest);
      LastSpaceAlone(s);
      OneMoreRune(more, runes, last);
      RejoinEnd(s, k, TrimRight(rest), more, last);
      cut, runes := more + last, runes + [last];
    } else {
      cut, runes := "", [];
    }
  }

  lemma FirstRuneStays(t: Bytes, u: Bytes)
    requires t != "" && t <= u && !IsSpace(DecodeRune(u).rune)
    ensures !IsSpace(DecodeRune(t).rune)
  {
  }

  ghost predicate Padded(s: Bytes, pre: Bytes, t: Bytes, post: Bytes) {
    OnlySpaces(pre) && OnlySpaces(post) && s == pre + t + post
  }

  lemma PaddedFrom(s: Bytes, pre: Bytes, before: seq<Bytes>, u: Bytes, t: Bytes, post: Bytes, after: seq<Bytes>)
    requires SpaceRunes(pre, before) && SpaceRunes(post, after) && s == pre + u && u == t + post
    ensures Padded(s, pre, t, post)
  {
  }

  lemma TrimSpaceCuts(s: Bytes) returns (pre: Bytes, post: Bytes)
    ensures Padded(s, pre, TrimSpace(s), post)
  {
    var u := TrimLeft(s);
    var before, after;
    pre, before := TrimLeftIs(s);
    post, after := TrimRightIs(u);
    PaddedFrom(s, pre, before, u, TrimRight(u), post, after);
  }

  lemma TrimSpaceHasSame(s: Bytes)
    ensures forall c :: c in TrimSpace(s) ==> c in s
  {
    var pre, post := TrimSpaceCuts(s);
  }

  /** Trimming cuts white space only, and leaves none at the ends. */
  lemma TrimSpaceIs(s: Bytes)
    ensures exists pre, post :: Padded(s, pre, TrimSpace(s), post)
    ensures var t := TrimSpace(s);
            t != "" ==> !IsSpace(DecodeRune(t).rune) && !IsSpace(DecodeLastRune(t).rune)
  {
    var pre, post := TrimSpaceCuts(s);
    var cut, runes := TrimLeftIs(s);
    cut, runes := TrimRightIs(TrimLeft(s));
    if TrimSpace(s) != "" {
      FirstRuneStays(TrimSpace(s), TrimLeft(s));
    }
  }
}
