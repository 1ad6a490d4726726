/** The row of the terminal on which the cursor stands, and what output bytes do to it. */
module Terminal {

  /** Control sequences (ESC, `[`, parameters, a final letter) take no room on the row. */
  datatype Mode = Text | Escape | Control

  /** Cells to the right of `cells` are blank. */
  datatype Screen = Screen(cells: string, col: nat, mode: Mode)

  const BLANK := Screen("", 0, Text)

  function Spaces(n: nat): (s: string)
    ensures |s| == n && forall i :: 0 <= i < n ==> s[i] == ' '
  {
    seq(n, i => ' ')
  }

  predicate Printable(c: char) {
    ' ' <= c < '\U{7f}'
  }

  function Put(s: Screen, c: char): Screen {
    match s.mode
    case Escape => s.(mode := if c == '[' then Control else Text)
    case Control => s.(mode := if '@' <= c <= '~' then Text else Control)
    case Text =>
      if c == '\U{1b}' then s.(mode := Escape)
      else if c == '\U{08}' then s.(col := if s.col > 0 then s.col - 1 else 0)
      else if c == '\r' then s.(col := 0)
      else if c == '\n' then s.(cells := "")
      else if c < ' ' || c == '\U{7f}' then s
      else if s.col < |s.cells| then s.(cells := s.cells[s.col := c], col := s.col + 1)
      else s.(cells := s.cells + Spaces(s.col - |s.cells|) + [c], col := s.col + 1)
  }

  function Show(s: Screen, output: string): Screen
    decreases |output|
  {
    if output == "" then s else Show(Put(s, output[0]), output[1..])
  }

  lemma {:induction false} ShowConcat(s: Screen, a: string, b: string)
    ensures Show(s, a + b) == Show(Show(s, a), b)
    decreases |a|
  {
    if a == "" {
      assert a + b == b;
    } else {
      assert (a + b)[0] == a[0] && (a + b)[1..] == a[1..] + b;
      ShowConcat(Put(s, a[0]), a[1..], b);
    }
  }

  function CellAt(s: Screen, i: nat): char {
    if i < |s.cells| then s.cells[i] else ' '
  }

  /** The row reads `text`, the cursor stands right after it, and everything to the right is blank. */
  ghost predicate Reads(s: Screen, text: string) {
    && s.mode == Text && s.col == |text|
    && (forall i :: 0 <= i < |text| ==> CellAt(s, i) == text[i])
    && (forall i :: |text| <= i < |s.cells| ==> s.cells[i] == ' ')
  }

  lemma {:induction false} PrintText(s: Screen, shown: string, more: string)
    requires Reads(s, shown) && forall c :: c in more ==> Printable(c)
    ensures Reads(Show(s, more), shown + more)
    decreases |more|
  {
    if more == "" {
      assert shown + more == shown;
    } else {
      assert more[0] in more;
      PrintText(Put(s, more[0]), shown + [more[0]], more[1..]);
      assert shown + [more[0]] + more[1..] == shown + more;
    }
  }

  /** Back, blank, back: the last character is gone. */
  lemma EraseOne(s: Screen, shown: string)
    requires Reads(s, shown) && shown != ""
    ensures Reads(Show(s, "\U{08} \U{08}"), shown[..|shown| - 1])
  {
    var out := "\U{08} \U{08}";
    var s1 := Put(s, out[0]);
    var s2 := Put(s1, out[1]);
    var s3 := Put(s2, out[2]);
    assert out[1..][0] == ' ' && out[1..][1..] == [out[2]];
    assert Show(s, out) == s3;
  }

  lemma NewRow(s: Screen, shown: string)
    requires Reads(s, shown)
    ensures Show(s, "\r\n") == BLANK
  {
    var s1 := Put(s, '\r');
    var s2 := Put(s1, '\n');
    assert "\r\n"[1..] == "\n";
    assert Show(s1, "\n") == s2;
  }

  /** A colour or style sequence such as ESC [ 3 6 m. */
  ghost predicate IsStyle(seqn: string) {
    && |seqn| >= 3 && seqn[0] == '\U{1b}' && seqn[1] == '[' && seqn[|seqn| - 1] == 'm'
    && forall i :: 2 <= i < |seqn| - 1 ==> !('@' <= seqn[i] <= '~')
  }

  lemma {:induction false} ControlTail(s: Screen, tail: string)
    requires s.mode == Control && tail != "" && tail[|tail| - 1] == 'm'
    requires forall i :: 0 <= i < |tail| - 1 ==> !('@' <= tail[i] <= '~')
    ensures Show(s, tail) == s.(mode := Text)
    decreases |tail|
  {
    if |tail| > 1 {
      ControlTail(Put(s, tail[0]), tail[1..]);
    } else {
      assert Show(Put(s, tail[0]), tail[1..]) == Put(s, tail[0]);
    }
  }

  lemma StyleTakesNoRoom(s: Screen, shown: string, seqn: string)
    requires Reads(s, shown) && IsStyle(seqn)
    ensures Reads(Show(s, seqn), shown)
  {
    var s2 := s.(mode := Control);
    assert seqn == seqn[..2] + seqn[2..];
    ShowConcat(s, seqn[..2], seqn[2..]);
    assert seqn[..2][1..] == [seqn[1]];
    assert Show(Put(s, seqn[0]), [seqn[1]]) == Put(Put(s, seqn[0]), seqn[1]) == s2;
    ControlTail(s2, seqn[2..]);
  }
}
