/** Splitting, joining and trimming of byte strings. */
module Text {
  import opened Utf8

  function Split(s: string, sep: char): (parts: seq<string>)
    ensures parts != []
  {
    if s == "" then [""]
    else if s[0] == sep then [""] + Split(s[1..], sep)
    else var rest := Split(s[1..], sep); [[s[0]] + rest[0]] + rest[1..]
  }

  lemma {:induction false} SplitHasNoSeparator(s: string, sep: char)
    ensures forall p :: p in Split(s, sep) ==> sep !in p
  {
    if s != "" {
      SplitHasNoSeparator(s[1..], sep);
    }
  }

  function Join(parts: seq<string>, sep: char): string {
    if parts == [] then ""
    else if |parts| == 1 then parts[0]
    else parts[0] + [sep] + Join(parts[1..], sep)
  }

  lemma JoinStep(a: string, rest: seq<string>, sep: char)
    requires rest != []
    ensures Join([a] + rest, sep) == a + [sep] + Join(rest, sep)
  {
    assert ([a] + rest)[1..] == rest;
  }

  lemma {:induction false} SplitFirst(a: string, b: string, sep: char)
    requires sep !in a
    ensures Split(a, sep) == [a]
    ensures Split(a + [sep] + b, sep) == [a] + Split(b, sep)
  {
    if a == "" {
      assert a + [sep] + b == [sep] + b;
      assert (a + [sep] + b)[1..] == b;
    } else {
      SplitFirst(a[1..], b, sep);
      assert (a + [sep] + b)[1..] == a[1..] + [sep] + b;
      assert [a[0]] + a[1..] == a;
    }
  }

  /** Splitting undoes joining. */
  lemma {:induction false} SplitJoin(parts: seq<string>, sep: char)
    requires parts != [] && forall p :: p in parts ==> sep !in p
    ensures Split(Join(parts, sep), sep) == parts
  {
    SplitFirst(parts[0], "", sep);
    if |parts| > 1 {
      SplitJoin(parts[1..], sep);
      SplitFirst(parts[0], Join(parts[1..], sep), sep);
    }
  }

  /** The words between runs of white space. */
  function FieldsFrom(s: string, current: string): seq<string>
    decreases |s|
  {
    if s == "" then (if current == "" then [] else [current])
    else
      var d := DecodeRune(s);
      if IsSpace(d.rune) then (if current == "" then [] else [current]) + FieldsFrom(s[d.size..], "")
      else FieldsFrom(s[d.size..], current + s[..d.size])
  }

  function Fields(s: string): seq<string> {
    FieldsFrom(s, "")
  }

  /** No rune of the text is white space. */
  ghost predicate NoSpace(s: string)
    decreases |s|
  {
    s != "" ==> !IsSpace(DecodeRune(s).rune) && NoSpace(s[DecodeRune(s).size..])
  }

  /** Where the first white space of a text starts. */
  function WordEnd(s: string): (n: nat)
    ensures n <= |s|
    decreases |s|
  {
    if s == "" || IsSpace(DecodeRune(s).rune) then 0
    else DecodeRune(s).size + WordEnd(s[DecodeRune(s).size..])
  }

  lemma PrefixDecodes(s: string, n: nat)
    requires s != "" && DecodeRune(s).size <= n <= |s|
    ensures DecodeRune(s[..n]) == DecodeRune(s)
  {
  }

  lemma PieceOfPiece(s: string, d: nat, n: nat)
    requires d <= n <= |s|
    ensures s[..n][d..] == s[d..][..n - d] && s[d..][n - d..] == s[n..]
  {
  }

  lemma {:induction false} WordHasNoSpace(s: string)
    ensures NoSpace(s[..WordEnd(s)])
    decreases |s|
  {
    var n := WordEnd(s);
    if n > 0 {
      var d := DecodeRune(s).size;
      var w := s[..n];
      WordHasNoSpace(s[d..]);
      PrefixDecodes(s, n);
      PieceOfPiece(s, d, n);
      assert w != "" && !IsSpace(DecodeRune(w).rune) && w[d..] == s[d..][..n - d];
    }
  }

  lemma {:induction false} FieldsSkip(s: string, current: string)
    ensures FieldsFrom(s, current) == FieldsFrom(s[WordEnd(s)..], current + s[..WordEnd(s)])
    decreases |s|
  {
    var n := WordEnd(s);
    if n == 0 {
      assert current + s[..0] == current && s[0..] == s;
    } else {
      var d := DecodeRune(s).size;
      FieldsSkip(s[d..], current + s[..d]);
      SkipRejoins(s, current, d, n);
    }
  }

  lemma SkipRejoins(s: string, current: string, d: nat, n: nat)
    requires d <= n <= |s|
    ensures current + s[..d] + s[d..][..n - d] == current + s[..n] && s[d..][n - d..] == s[n..]
  {
    PieceOfPiece(s, d, n);
    assert s[..n] == s[..d] + s[d..][..n - d];
  }

  lemma FieldsAtGap(tail: string, current: string)
    requires tail != "" && IsSpace(DecodeRune(tail).rune)
    ensures FieldsFrom(tail, current)
         == (if current == "" then [] else [current]) + Fields(tail[DecodeRune(tail).size..])
  {
  }

  lemma FieldsOfWord(s: string)
    requires WordEnd(s) == |s|
    ensures Fields(s) == if s == "" then [] else [s]
  {
    FieldsSkip(s, "");
    assert s[..|s|] == s && s[|s|..] == "" && "" + s == s;
  }

  lemma FieldsFirst(s: string, tail: string, rest: string)
    requires WordEnd(s) < |s| && tail == s[WordEnd(s)..] && rest == tail[DecodeRune(tail).size..]
    ensures Fields(s) == (if WordEnd(s) == 0 then [] else [s[..WordEnd(s)]]) + Fields(rest)
  {
    var w := s[..WordEnd(s)];
    FieldsSkip(s, "");
    WordEndIs(s);
    FieldsAtGap(tail, w);
    assert "" + w == w;
  }

  /** The words with the gaps around them. */
  function Spliced(words: seq<string>, gaps: seq<string>): string
    requires |gaps| == |words| + 1
  {
    if words == [] then gaps[0] else gaps[0] + words[0] + Spliced(words[1..], gaps[1..])
  }

  /** The text is these words between gaps of white space; no word is empty or holds white space, and no two
      words touch. */
  ghost predicate Separates(s: string, words: seq<string>, gaps: seq<string>) {
    && |gaps| == |words| + 1 && s == Spliced(words, gaps)
    && (forall i :: 0 <= i < |words| ==> words[i] != "" && NoSpace(words[i]))
    && (forall i :: 0 <= i < |gaps| ==> OnlySpaces(gaps[i]))
    && forall i :: 1 <= i < |words| ==> gaps[i] != ""
  }

  /** The fields of a text are exactly the words between its runs of white space. */
  lemma {:induction false} FieldsAre(s: string) returns (gaps: seq<string>)
    ensures Separates(s, Fields(s), gaps)
    decreases |s|
  {
    if WordEnd(s) == |s| {
      FieldsOfWord(s);
      gaps := OneWord(s);
    } else {
      var tail := s[WordEnd(s)..];
      var rest := tail[DecodeRune(tail).size..];
      var more := FieldsAre(rest);
      FieldsFirst(s, tail, rest);
      gaps := GapInFront(s, tail, rest, Fields(rest), more);
    }
  }

  lemma OneWord(s: string) returns (gaps: seq<string>)
    requires WordEnd(s) == |s|
    ensures Separates(s, if s == "" then [] else [s], gaps)
  {
    WordHasNoSpace(s);
    NothingIsSpaces();
    assert s[..|s|] == s;
    gaps := if s == "" then [""] else ["", ""];
    WholeWord(s, gaps);
  }

  lemma GapInFront(s: string, tail: string, rest: string, words: seq<string>, more: seq<string>)
    returns (gaps: seq<string>)
    requires WordEnd(s) < |s| && tail == s[WordEnd(s)..] && rest == tail[DecodeRune(tail).size..]
    requires Separates(rest, words, more)
    ensures Separates(s, (if WordEnd(s) == 0 then [] else [s[..WordEnd(s)]]) + words, gaps)
  {
    var w, r := s[..WordEnd(s)], tail[..DecodeRune(tail).size];
    WordEndIs(s);
    FirstSpaceAlone(tail);
    WordHasNoSpace(s);
    CutTwice(s, WordEnd(s), DecodeRune(tail).size);
    gaps := WordAndGap(w, r, rest, words, more);
  }

  lemma CutTwice(s: string, n: nat, d: nat)
    requires n + d <= |s|
    ensures s == s[..n] + (s[n..][..d] + s[n..][d..])
  {
    assert s[n..] == s[n..][..d] + s[n..][d..];
  }

  /** A word, which may be empty, and a rune of white space in front of a separated text. */
  lemma WordAndGap(w: string, r: string, rest: string, words: seq<string>, more: seq<string>)
    returns (gaps: seq<string>)
    requires NoSpace(w) && IsSpaceRune(r) && Separates(rest, words, more)
    ensures Separates(w + (r + rest), (if w == "" then [] else [w]) + words, gaps)
  {
    RuneIsSpaces(r);
    SpacesInFront(r, rest, words, more);
    gaps := [r + more[0]] + more[1..];
    if w == "" {
      assert w + (r + rest) == r + rest && [] + words == words;
    } else {
      NothingIsSpaces();
      WordInFront(w, r + rest, words, gaps);
      gaps := [""] + gaps;
    }
  }

  lemma NothingIsSpaces()
    ensures OnlySpaces("")
  {
    assert SpaceRunes("", []);
  }

  lemma RuneIsSpaces(r: string)
    requires IsSpaceRune(r)
    ensures OnlySpaces(r)
  {
    assert [r][1..] == [] && Flat([r]) == r + "" == r;
    assert SpaceRunes(r, [r]);
  }

  lemma WholeWord(s: string, gaps: seq<string>)
    requires NoSpace(s) && OnlySpaces("") && gaps == if s == "" then [""] else ["", ""]
    ensures Separates(s, if s == "" then [] else [s], gaps)
  {
    if s != "" {
      assert Spliced([s], gaps) == "" + s + Spliced([s][1..], gaps[1..]);
    }
  }

  lemma {:induction false} WordEndIs(s: string)
    requires WordEnd(s) < |s|
    ensures IsSpace(DecodeRune(s[WordEnd(s)..]).rune)
    decreases |s|
  {
    if WordEnd(s) > 0 {
      var d := DecodeRune(s).size;
      WordEndIs(s[d..]);
      assert s[d..][WordEnd(s) - d..] == s[WordEnd(s)..];
    } else {
      assert s[0..] == s;
    }
  }

  /** White space in front widens the first gap. */
  lemma SpacesInFront(r: string, s: string, words: seq<string>, gaps: seq<string>)
    requires OnlySpaces(r) && Separates(s, words, gaps)
    ensures Separates(r + s, words, [r + gaps[0]] + gaps[1..])
  {
    var wider := [r + gaps[0]] + gaps[1..];
    SpacesJoin(r, gaps[0]);
    assert wider[1..] == gaps[1..];
    if words != [] {
      assert r + (gaps[0] + words[0] + Spliced(words[1..], gaps[1..]))
          == r + gaps[0] + words[0] + Spliced(words[1..], gaps[1..]);
    }
  }

  lemma SpacesJoin(a: string, b: string)
    requires OnlySpaces(a) && OnlySpaces(b)
    ensures OnlySpaces(a + b)
  {
    var p :| SpaceRunes(a, p);
    var q :| SpaceRunes(b, q);
    FlatConcat(p, q);
    assert SpaceRunes(a + b, p + q);
  }

  lemma {:induction false} FlatConcat(a: seq<string>, b: seq<string>)
    ensures Flat(a + b) == Flat(a) + Flat(b)
    decreases |a|
  {
    if a == [] {
      assert a + b == b && "" + Flat(b) == Flat(b);
    } else {
      FlatConcat(a[1..], b);
      assert (a + b)[1..] == a[1..] + b;
      assert a[0] + (Flat(a[1..]) + Flat(b)) == a[0] + Flat(a[1..]) + Flat(b);
    }
  }

  /** A word in front of a text that starts with white space. */
  lemma WordInFront(w: string, s: string, words: seq<string>, gaps: seq<string>)
    requires w != "" && NoSpace(w) && Separates(s, words, gaps) && gaps[0] != "" && OnlySpaces("")
    ensures Separates(w + s, [w] + words, [""] + gaps)
  {
    assert ([w] + words)[1..] == words && ([""] + gaps)[1..] == gaps;
    assert Spliced([w] + words, [""] + gaps) == "" + w + Spliced(words, gaps);
  }

  /** ASCII and not white space. */
  predicate Plain(c: char) {
    c < '\U{80}' && !IsSpace(c as int)
  }

  ghost predicate IsWord(w: string) {
    w != "" && forall i :: 0 <= i < |w| ==> Plain(w[i])
  }

  lemma {:induction false} FieldsWord(w: string, rest: string, current: string)
    requires forall i :: 0 <= i < |w| ==> Plain(w[i])
    ensures FieldsFrom(w + rest, current) == FieldsFrom(rest, current + w)
    decreases |w|
  {
    if w == "" {
      assert w + rest == rest && current + w == current;
    } else {
      assert (w + rest)[1..] == w[1..] + rest;
      assert (w + rest)[..1] == [w[0]];
      FieldsWord(w[1..], rest, current + [w[0]]);
      assert current + [w[0]] + w[1..] == current + w;
    }
  }

  /** Words joined by single spaces come back. */
  lemma {:induction false} FieldsOfJoined(words: seq<string>)
    requires forall w :: w in words ==> IsWord(w)
    ensures Fields(Join(words, ' ')) == words
  {
    if words != [] {
      var w := words[0];
      assert w in words;
      assert "" + w == w;
      if |words| == 1 {
        FieldsWord(w, "", "");
        assert w + "" == w;
      } else {
        var rest := Join(words[1..], ' ');
        FieldsOfJoined(words[1..]);
        assert w + [' '] + rest == w + ([' '] + rest);
        FieldsWord(w, [' '] + rest, "");
        assert ([' '] + rest)[1..] == rest;
        assert [w] + words[1..] == words;
      }
    }
  }

  /** Text that starts and ends with plain characters has nothing to trim. */
  lemma TrimKeeps(s: string)
    requires s != "" && Plain(s[0]) && Plain(s[|s| - 1])
    ensures TrimSpace(s) == s
  {
  }

  function TrimStart(s: string, cutset: string): (t: string)
    ensures |t| <= |s|
  {
    if s != "" && s[0] in cutset then TrimStart(s[1..], cutset) else s
  }

  function TrimEnd(s: string, cutset: string): (t: string)
    ensures |t| <= |s|
  {
    if s != "" && s[|s| - 1] in cutset then TrimEnd(s[..|s| - 1], cutset) else s
  }

  /** The text without the given ASCII characters at its two ends. */
  function Trim(s: string, cutset: string): string {
    TrimEnd(TrimStart(s, cutset), cutset)
  }

  ghost predicate NoOuter(t: string, cutset: string) {
    t != "" ==> t[0] !in cutset && t[|t| - 1] !in cutset
  }

  lemma {:induction false} TrimStartIs(s: string, cutset: string)
    ensures TrimStart(s, cutset) == s[|s| - |TrimStart(s, cutset)|..]
    ensures TrimStart(s, cutset) != "" ==> TrimStart(s, cutset)[0] !in cutset
  {
    if s != "" && s[0] in cutset {
      TrimStartIs(s[1..], cutset);
    }
  }

  lemma {:induction false} TrimEndIs(s: string, cutset: string)
    ensures TrimEnd(s, cutset) == s[..|TrimEnd(s, cutset)|]
    ensures TrimEnd(s, cutset) != "" ==> TrimEnd(s, cutset)[|TrimEnd(s, cutset)| - 1] !in cutset
  {
    if s != "" && s[|s| - 1] in cutset {
      TrimEndIs(s[..|s| - 1], cutset);
    }
  }

  /** What is left of s has no outer character to cut, and is all of s if s had none. */
  lemma TrimIs(s: string, cutset: string)
    ensures NoOuter(Trim(s, cutset), cutset)
    ensures NoOuter(s, cutset) ==> Trim(s, cutset) == s
    ensures forall c :: c in Trim(s, cutset) ==> c in s
  {
    TrimStartIs(s, cutset);
    TrimEndIs(TrimStart(s, cutset), cutset);
  }

  ghost predicate OnlyOf(s: string, cutset: string) {
    forall c :: c in s ==> c in cutset
  }

  lemma {:induction false} TrimStartPeels(pre: string, core: string, cutset: string)
    requires OnlyOf(pre, cutset) && core != "" && core[0] !in cutset
    ensures TrimStart(pre + core, cutset) == core
  {
    if pre == "" {
      assert pre + core == core;
    } else {
      assert pre[0] in pre && (pre + core)[1..] == pre[1..] + core;
      TrimStartPeels(pre[1..], core, cutset);
    }
  }

  lemma {:induction false} TrimEndPeels(core: string, post: string, cutset: string)
    requires OnlyOf(post, cutset) && core != "" && core[|core| - 1] !in cutset
    ensures TrimEnd(core + post, cutset) == core
    decreases |post|
  {
    if post == "" {
      assert core + post == core;
    } else {
      var shorter := post[..|post| - 1];
      assert post[|post| - 1] in post && (core + post)[..|core + post| - 1] == core + shorter;
      TrimEndPeels(core, shorter, cutset);
    }
  }

  /** Trimming peels off exactly what is made of the characters to cut. */
  lemma TrimPeels(pre: string, core: string, post: string, cutset: string)
    requires OnlyOf(pre, cutset) && OnlyOf(post, cutset) && core != "" && NoOuter(core, cutset)
    ensures Trim(pre + core + post, cutset) == core
  {
    assert pre + core + post == pre + (core + post);
    TrimStartPeels(pre, core + post, cutset);
    TrimEndPeels(core, post, cutset);
  }

  lemma {:induction false} TrimStartCuts(s: string, cutset: string)
    ensures OnlyOf(s[..|s| - |TrimStart(s, cutset)|], cutset)
  {
    if s != "" && s[0] in cutset {
      TrimStartCuts(s[1..], cutset);
      var n := |s| - |TrimStart(s, cutset)|;
      assert s[..n] == [s[0]] + s[1..][..n - 1];
    }
  }

  lemma {:induction false} TrimEndCuts(s: string, cutset: string)
    ensures OnlyOf(s[|TrimEnd(s, cutset)|..], cutset)
  {
    if s != "" && s[|s| - 1] in cutset {
      var shorter := s[..|s| - 1];
      TrimEndCuts(shorter, cutset);
      var n := |TrimEnd(s, cutset)|;
      assert s[n..] == shorter[n..] + [s[|s| - 1]];
    }
  }

  /** What trimming cuts off is made of the characters to cut. */
  lemma TrimCuts(s: string, cutset: string) returns (pre: string, post: string)
    ensures OnlyOf(pre, cutset) && OnlyOf(post, cutset) && s == pre + Trim(s, cutset) + post
  {
    var u := TrimStart(s, cutset);
    TrimStartIs(s, cutset);
    TrimStartCuts(s, cutset);
    TrimEndIs(u, cutset);
    TrimEndCuts(u, cutset);
    var n := |Trim(s, cutset)|;
    pre, post := s[..|s| - |u|], u[n..];
    assert u == u[..n] + u[n..];
    assert s == s[..|s| - |u|] + u;
  }

  ghost predicate Surrounded(s: string, pre: string, t: string, post: string, cutset: string) {
    OnlyOf(pre, cutset) && OnlyOf(post, cutset) && s == pre + t + post
  }

  /** What remains of s is t exactly if t has none of the characters to cut at its ends, and s is t between
      some of them. */
  lemma TrimExactly(s: string, cutset: string, t: string)
    requires t != ""
    ensures Trim(s, cutset) == t
            <==> NoOuter(t, cutset) && exists pre, post :: Surrounded(s, pre, t, post, cutset)
  {
    if Trim(s, cutset) == t {
      TrimIs(s, cutset);
      var pre, post := TrimCuts(s, cutset);
      assert Surrounded(s, pre, t, post, cutset);
    }
    if NoOuter(t, cutset) {
      forall pre, post | Surrounded(s, pre, t, post, cutset) ensures Trim(s, cutset) == t {
        TrimPeels(pre, t, post, cutset);
      }
    }
  }

  /** Index of the first c, or |s|. */
  function IndexOf(s: string, c: char): (k: nat)
    ensures k <= |s|
  {
    if s == "" || s[0] == c then 0 else 1 + IndexOf(s[1..], c)
  }

  lemma {:induction false} IndexOfIs(s: string, c: char)
    ensures var k := IndexOf(s, c); c !in s[..k] && (k < |s| ==> s[k] == c)
  {
    if s != "" && s[0] != c {
      IndexOfIs(s[1..], c);
      assert s[..IndexOf(s, c)] == [s[0]] + s[1..][..IndexOf(s[1..], c)];
    }
  }
}
