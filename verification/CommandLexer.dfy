/** Splitting a command line at spaces, with double quotes that may hold spaces. */
module CommandLexer {

  /** The three variables of the scanning loop. */
  datatype Scan = Scan(parts: seq<string>, current: string, inQuotes: bool)

  function Flush(parts: seq<string>, current: string): seq<string> {
    if current == "" then parts else parts + [current]
  }

  function Next(s: Scan, c: char): Scan {
    if c == '"' then s.(inQuotes := !s.inQuotes)
    else if c == ' ' && !s.inQuotes then Scan(Flush(s.parts, s.current), "", false)
    else s.(current := s.current + [c])
  }

  function ScanAll(s: Scan, input: string): Scan
    decreases |input|
  {
    if input == "" then s else ScanAll(Next(s, input[0]), input[1..])
  }

  const START := Scan([], "", false)

  function Finish(s: Scan): seq<string> {
    Flush(s.parts, s.current)
  }

  function Parse(input: string): seq<string> {
    Finish(ScanAll(START, input))
  }

  lemma {:induction false} ScanConcat(s: Scan, a: string, b: string)
    ensures ScanAll(s, a + b) == ScanAll(ScanAll(s, a), b)
    decreases |a|
  {
    if a == "" {
      assert a + b == b;
    } else {
      assert (a + b)[0] == a[0] && (a + b)[1..] == a[1..] + b;
      ScanConcat(Next(s, a[0]), a[1..], b);
    }
  }

  method ParseCommand(input: string) returns (parts: seq<string>)
    ensures parts == Parse(input)
  {
    parts := [];
    var current := "";
    var inQuotes := false;
    for i := 0 to |input|
      invariant ScanAll(Scan(parts, current, inQuotes), input[i..]) == ScanAll(START, input)
    {
      assert input[i..][0] == input[i] && input[i..][1..] == input[i + 1..];
      var c := input[i];
      if c == '"' {
        inQuotes := !inQuotes;
      } else if c == ' ' && !inQuotes {
        if |current| > 0 {
          parts := parts + [current];
          current := "";
        }
      } else {
        current := current + [c];
      }
    }
    if |current| > 0 {
      parts := parts + [current];
    }
  }

  // ---------------------------------------------------------------------------------------------
  // An independent definition: drop the quotes, cut at the spaces that stand outside of quotes,
  // and forget the empty pieces

  function Quotes(s: string): nat {
    if s == "" then 0 else Quotes(s[..|s| - 1]) + if s[|s| - 1] == '"' then 1 else 0
  }

  predicate Separates(input: string, i: nat)
    requires i < |input|
  {
    input[i] == ' ' && Quotes(input[..i]) % 2 == 0
  }

  /** What is kept of input[from..to]: everything but quotes and separating spaces. */
  function Kept(input: string, from: nat, to: nat): string
    requires from <= to <= |input|
  {
    if from == to then ""
    else Kept(input, from, to - 1)
         + (if input[to - 1] == '"' || Separates(input, to - 1) then "" else [input[to - 1]])
  }

  /** The piece that ends before `to` starts after the last separating space. */
  function PieceStart(input: string, to: nat): (from: nat)
    requires to <= |input|
    ensures from <= to
    ensures forall i :: from <= i < to ==> !Separates(input, i)
    ensures from > 0 ==> Separates(input, from - 1)
  {
    if to == 0 || Separates(input, to - 1) then to else PieceStart(input, to - 1)
  }

  /** The non-empty pieces that are complete before `to`. */
  function Pieces(input: string, to: nat): seq<string>
    requires to <= |input|
  {
    if to == 0 then []
    else if Separates(input, to - 1) then
      Flush(Pieces(input, to - 1), Kept(input, PieceStart(input, to - 1), to - 1))
    else Pieces(input, to - 1)
  }

  lemma ScanOneMore(input: string, to: nat)
    requires 0 < to <= |input|
    ensures ScanAll(START, input[..to]) == Next(ScanAll(START, input[..to - 1]), input[to - 1])
    ensures Quotes(input[..to]) == Quotes(input[..to - 1]) + if input[to - 1] == '"' then 1 else 0
  {
    var s := ScanAll(START, input[..to - 1]);
    assert input[..to] == input[..to - 1] + [input[to - 1]];
    ScanConcat(START, input[..to - 1], [input[to - 1]]);
    assert input[..to][..to - 1] == input[..to - 1];
    assert ScanAll(s, [input[to - 1]]) == Next(s, input[to - 1]);
  }

  /** The scan after the pieces before `to`. */
  function PiecesSoFar(input: string, to: nat): Scan
    requires to <= |input|
  {
    Scan(Pieces(input, to), Kept(input, PieceStart(input, to), to), Quotes(input[..to]) % 2 == 1)
  }

  lemma {:induction false} ScanIsPieces(input: string, to: nat)
    requires to <= |input|
    ensures ScanAll(START, input[..to]) == PiecesSoFar(input, to)
  {
    if to > 0 {
      ScanIsPieces(input, to - 1);
      ScanOneMore(input, to);
    }
  }

  /** The scan computes the pieces between separating spaces. */
  lemma ParseIsPieces(input: string)
    ensures Parse(input) == Flush(Pieces(input, |input|), Kept(input, PieceStart(input, |input|), |input|))
  {
    ScanIsPieces(input, |input|);
    assert input[..|input|] == input;
  }

  // ---------------------------------------------------------------------------------------------
  // Conservation

  function Concat(parts: seq<string>): string {
    if parts == [] then "" else Concat(parts[..|parts| - 1]) + parts[|parts| - 1]
  }

  ghost predicate IsToken(token: string) {
    token != "" && '"' !in token
  }

  ghost predicate Conserves(s: Scan, kept: string) {
    && Concat(s.parts) + s.current == kept
    && (forall p :: p in s.parts ==> IsToken(p)) && '"' !in s.current
  }

  lemma {:induction false} ScanConserves(input: string, to: nat)
    requires to <= |input|
    ensures Conserves(ScanAll(START, input[..to]), Kept(input, 0, to))
    ensures ScanAll(START, input[..to]).inQuotes == (Quotes(input[..to]) % 2 == 1)
  {
    if to > 0 {
      ScanConserves(input, to - 1);
      ScanOneMore(input, to);
    }
  }

  /** No token is empty or holds a quote, and together the tokens are the input without its quotes
      and separating spaces. */
  lemma ParseConserves(input: string)
    ensures forall token :: token in Parse(input) ==> IsToken(token)
    ensures Concat(Parse(input)) == Kept(input, 0, |input|)
  {
    ScanConserves(input, |input|);
    assert input[..|input|] == input;
    var s := ScanAll(START, input);
    if s.current != "" {
      assert (s.parts + [s.current])[..|s.parts|] == s.parts;
    }
  }

  /** A quote left open parses as if it were closed at the end. */
  lemma UnclosedQuote(input: string)
    ensures Parse(input + "\"") == Parse(input)
  {
    ScanConcat(START, input, "\"");
    assert ScanAll(ScanAll(START, input), "\"") == Next(ScanAll(START, input), '"');
  }

  // ---------------------------------------------------------------------------------------------
  // Concatenation and round trip

  lemma {:induction false} ScanPrefix(parts: seq<string>, s: Scan, input: string)
    ensures ScanAll(Scan(parts + s.parts, s.current, s.inQuotes), input)
         == var t := ScanAll(s, input); Scan(parts + t.parts, t.current, t.inQuotes)
    decreases |input|
  {
    if input != "" {
      var t := Next(s, input[0]);
      assert Next(Scan(parts + s.parts, s.current, s.inQuotes), input[0])
          == Scan(parts + t.parts, t.current, t.inQuotes) by {
        assert (parts + s.parts) + [s.current] == parts + (s.parts + [s.current]);
      }
      ScanPrefix(parts, t, input[1..]);
    }
  }

  /** A space outside of quotes splits the parse in two. */
  lemma ParseConcat(a: string, b: string)
    requires Quotes(a) % 2 == 0
    ensures Parse(a + " " + b) == Parse(a) + Parse(b)
  {
    var s := ScanAll(START, a);
    assert a[..|a|] == a;
    ScanConserves(a, |a|);
    assert !s.inQuotes;
    ScanConcat(START, a + " ", b);
    ScanConcat(START, a, " ");
    assert ScanAll(s, " ") == Next(s, ' ') == Scan(Parse(a), "", false);
    assert Parse(a) + [] == Parse(a);
    ScanPrefix(Parse(a), START, b);
    var t := ScanAll(START, b);
    assert (Parse(a) + t.parts) + [t.current] == Parse(a) + (t.parts + [t.current]);
  }

  function Quoted(arg: string): string {
    "\"" + arg + "\""
  }

  function QuotedLine(args: seq<string>): string {
    if args == [] then ""
    else if |args| == 1 then Quoted(args[0])
    else Quoted(args[0]) + " " + QuotedLine(args[1..])
  }

  lemma {:induction false} ScanInsideQuotes(parts: seq<string>, current: string, arg: string)
    requires '"' !in arg
    ensures ScanAll(Scan(parts, current, true), arg) == Scan(parts, current + arg, true)
    decreases |arg|
  {
    if arg != "" {
      ScanInsideQuotes(parts, current + [arg[0]], arg[1..]);
      assert current + [arg[0]] + arg[1..] == current + arg;
    }
  }

  lemma ParseQuoted(arg: string)
    requires IsToken(arg)
    ensures Parse(Quoted(arg)) == [arg]
    ensures Quotes(Quoted(arg)) % 2 == 0
  {
    ScanConcat(START, "\"" + arg, "\"");
    ScanConcat(START, "\"", arg);
    ScanInsideQuotes([], "", arg);
    var open := ScanAll(START, "\"");
    assert open == Scan([], "", true);
    var last := ScanAll(open, arg);
    assert last == Scan([], arg, true) by {
      assert "" + arg == arg;
    }
    assert ScanAll(last, "\"") == Next(last, '"');
    ScanConserves(Quoted(arg), |Quoted(arg)|);
    assert Quoted(arg)[..|Quoted(arg)|] == Quoted(arg);
  }

  /** Quoting and joining arguments is undone by parsing. */
  lemma {:induction false} ParseRoundTrip(args: seq<string>)
    requires forall arg :: arg in args ==> IsToken(arg)
    ensures Parse(QuotedLine(args)) == args
  {
    if args != [] {
      ParseQuoted(args[0]);
      if |args| > 1 {
        ParseConcat(Quoted(args[0]), QuotedLine(args[1..]));
        ParseRoundTrip(args[1..]);
        assert [args[0]] + args[1..] == args;
      }
    }
  }
}
