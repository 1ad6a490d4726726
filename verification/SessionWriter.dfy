/** The writer that gives command output the line endings of a raw terminal. */
module SessionWriter {

  /** Replaces the leftmost occurrences of `pattern` that do not overlap. */
  function ReplaceAll(s: string, pattern: string, subst: string): string
    requires pattern != ""
    decreases |s|
  {
    if |s| < |pattern| then s
    else if s[..|pattern|] == pattern then subst + ReplaceAll(s[|pattern|..], pattern, subst)
    else [s[0]] + ReplaceAll(s[1..], pattern, subst)
  }

  function Convert(p: string): string {
    ReplaceAll(ReplaceAll(p, "\n", "\r\n"), "\r\r\n", "\r\n")
  }

  class Writer {
    var sent: string

    constructor ()
      ensures sent == ""
    {
      sent := "";
    }

    /** The session underneath takes `taken` bytes of what it is given, or fails. */
    method Write(p: string, taken: nat, fails: bool) returns (n: nat, ok: bool)
      requires taken <= |Convert(p)|
      modifies this
      ensures sent == old(sent) + Convert(p)[..taken]
      ensures ok == !fails
      ensures n == if fails then 0 else if taken > |p| then |p| else taken
      ensures taken == |Convert(p)| && !fails ==> n == |p|
    {
      var converted := ReplaceAll(p, "\n", "\r\n");
      converted := ReplaceAll(converted, "\r\r\n", "\r\n");
      sent := sent + converted[..taken];
      ConvertIsNormal(p);
      NeverShorter(p, false);
      if fails {
        return 0, false;
      }
      if taken > |p| {
        return |p|, true;
      }
      return taken, true;
    }
  }

  // ---------------------------------------------------------------------------------------------
  // The single pass: a CR before each LF that does not have one

  /** `afterCR` says whether the character before p is a CR. */
  function Normal(p: string, afterCR: bool): string
    decreases |p|
  {
    if p == "" then ""
    else (if p[0] == '\n' && !afterCR then "\r\n" else [p[0]]) + Normal(p[1..], p[0] == '\r')
  }

  /** Every LF follows a CR. */
  ghost predicate AllPaired(p: string, afterCR: bool) {
    forall i :: 0 <= i < |p| ==> PairedAt(p, afterCR, i)
  }

  ghost predicate PairedAt(p: string, afterCR: bool, i: nat)
    requires i < |p|
  {
    p[i] == '\n' ==> if i == 0 then afterCR else p[i - 1] == '\r'
  }

  function First(p: string): string {
    ReplaceAll(p, "\n", "\r\n")
  }

  function Second(p: string): string {
    ReplaceAll(p, "\r\r\n", "\r\n")
  }

  lemma FirstStep(p: string)
    requires p != ""
    ensures First(p) == (if p[0] == '\n' then "\r\n" else [p[0]]) + First(p[1..])
    ensures First(p)[0] == if p[0] == '\n' then '\r' else p[0]
  {
    assert p[..1] == [p[0]];
  }

  lemma SecondKeepsFront(c: char, rest: string)
    requires c != '\r' || !("\r\n" <= rest)
    ensures Second([c] + rest) == [c] + Second(rest)
  {
    var p := [c] + rest;
    assert p[1..] == rest;
    assert |p| >= 3 ==> p[..3][0] == c && p[..3][1..] == rest[..2];
    assert "\r\r\n"[0] == '\r' && "\r\r\n"[1..] == "\r\n";
    assert |p| >= 3 ==> rest[..2] <= rest;
    if |rest| == 0 {
      assert Second(rest) == "";
    }
    if |p| < 3 {
      assert Second(p) == p && Second(rest) == rest;
    }
  }

  lemma {:induction false} ConvertIsNormal(p: string)
    ensures Convert(p) == Normal(p, false)
    decreases |p|
  {
    if p == "" {
    } else if p[0] == '\n' {
      LoneFeedFront(p);
      ConvertIsNormal(p[1..]);
    } else if p[0] == '\r' && |p| > 1 && p[1] == '\n' {
      PairFront(p);
      ConvertIsNormal(p[2..]);
      assert Normal(p, false) == "\r" + Normal(p[1..], true) == "\r" + ("\n" + Normal(p[1..][1..], false));
      assert p[1..][1..] == p[2..];
    } else {
      OrdinaryFront(p);
      ConvertIsNormal(p[1..]);
    }
  }

  lemma LoneFeedFront(p: string)
    requires p != "" && p[0] == '\n'
    ensures Convert(p) == "\r\n" + Convert(p[1..])
  {
    var rest := First(p[1..]);
    FirstStep(p);
    assert First(p) == ['\r'] + (['\n'] + rest);
    SecondKeepsFront('\r', ['\n'] + rest);
    SecondKeepsFront('\n', rest);
  }

  lemma PairFront(p: string)
    requires |p| > 1 && p[0] == '\r' && p[1] == '\n'
    ensures Convert(p) == "\r\n" + Convert(p[2..])
  {
    var tail := p[1..];
    FirstStep(p);
    FirstStep(tail);
    assert tail[1..] == p[2..];
    assert First(p) == "\r\r\n" + First(p[2..]);
  }

  lemma OrdinaryFront(p: string)
    requires p != "" && p[0] != '\n' && (p[0] == '\r' ==> |p| == 1 || p[1] != '\n')
    ensures Convert(p) == [p[0]] + Convert(p[1..])
  {
    var tail := p[1..];
    FirstStep(p);
    if tail != "" {
      FirstStep(tail);
      if tail[1..] != "" {
        FirstStep(tail[1..]);
      }
    }
    assert p[0] == '\r' && |First(tail)| >= 2 ==> First(tail)[1] == First(tail[1..])[0];
    SecondKeepsFront(p[0], First(tail));
  }

  lemma {:induction false} NeverShorter(p: string, afterCR: bool)
    ensures |Normal(p, afterCR)| >= |p|
    decreases |p|
  {
    if p != "" {
      NeverShorter(p[1..], p[0] == '\r');
    }
  }

  lemma {:induction false} NormalIsPaired(p: string, afterCR: bool)
    ensures AllPaired(Normal(p, afterCR), afterCR)
    decreases |p|
  {
    if p != "" {
      NormalIsPaired(p[1..], p[0] == '\r');
      var rest := Normal(p[1..], p[0] == '\r');
      var front := if p[0] == '\n' && !afterCR then "\r\n" else [p[0]];
      forall i | 0 <= i < |front + rest| ensures PairedAt(front + rest, afterCR, i) {
        if i >= |front| {
          assert PairedAt(rest, p[0] == '\r', i - |front|);
        }
      }
    }
  }

  lemma {:induction false} PairedIsKept(p: string, afterCR: bool)
    requires AllPaired(p, afterCR)
    ensures Normal(p, afterCR) == p
    decreases |p|
  {
    if p != "" {
      var rest, cr := p[1..], p[0] == '\r';
      forall i | 0 <= i < |rest| ensures PairedAt(rest, cr, i) {
        assert PairedAt(p, afterCR, i + 1);
      }
      PairedIsKept(rest, cr);
      assert PairedAt(p, afterCR, 0);
      assert [p[0]] + rest == p;
    }
  }

  /** What the two replacements do to any text: they equal the single pass, leave every LF paired,
      change nothing exactly when the LFs were paired, and a second application changes nothing. */
  lemma ConvertPairsLineFeeds(p: string)
    ensures Convert(p) == Normal(p, false)
    ensures AllPaired(Convert(p), false)
    ensures Convert(p) == p <==> AllPaired(p, false)
    ensures Convert(Convert(p)) == Convert(p)
    ensures |Convert(p)| >= |p|
  {
    ConvertIsNormal(p);
    NormalIsPaired(p, false);
    if AllPaired(p, false) {
      PairedIsKept(p, false);
    }
    ConvertIsNormal(Convert(p));
    PairedIsKept(Convert(p), false);
    NeverShorter(p, false);
  }

  lemma {:induction false} NormalConcat(p: string, q: string, afterCR: bool)
    ensures Normal(p + q, afterCR)
         == Normal(p, afterCR) + Normal(q, if p == "" then afterCR else p[|p| - 1] == '\r')
    decreases |p|
  {
    if p == "" {
      assert p + q == q;
    } else {
      assert (p + q)[1..] == p[1..] + q;
      NormalConcat(p[1..], q, p[0] == '\r');
    }
  }

  /** Cutting a text into two writes makes no difference, unless the cut separates a CR from its LF. */
  lemma CutInTwoWrites(p: string, q: string)
    ensures Convert(p + q) == Convert(p) + Convert(q)
            <==> !(p != "" && p[|p| - 1] == '\r' && q != "" && q[0] == '\n')
  {
    ConvertIsNormal(p + q);
    ConvertIsNormal(p);
    ConvertIsNormal(q);
    NormalConcat(p, q, false);
    var both := Normal(p + q, false);
    if p != "" && p[|p| - 1] == '\r' && q != "" && q[0] == '\n' {
      assert |Normal(q, true)| < |Normal(q, false)|;
    }
  }
}
