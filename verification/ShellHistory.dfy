/** What the history of a shell session holds, and what the arrow keys show. */
module ShellHistory {
  import opened Utf8
  import opened LineEditor

  /** The list with every run of equal neighbours reduced to one. */
  function WithoutRepeats(inputs: seq<Bytes>): seq<Bytes> {
    if |inputs| <= 1 then inputs
    else if inputs[0] == inputs[1] then WithoutRepeats(inputs[1..])
    else [inputs[0]] + WithoutRepeats(inputs[1..])
  }

  function LastOf(inputs: seq<Bytes>, n: nat): seq<Bytes> {
    if |inputs| <= n then inputs else inputs[|inputs| - n..]
  }

  lemma {:induction false} RepeatsOneMore(inputs: seq<Bytes>, input: Bytes)
    ensures WithoutRepeats(inputs + [input])
         == if inputs != [] && inputs[|inputs| - 1] == input then WithoutRepeats(inputs)
            else WithoutRepeats(inputs) + [input]
    ensures inputs != [] ==>
              WithoutRepeats(inputs) != []
              && WithoutRepeats(inputs)[|WithoutRepeats(inputs)| - 1] == inputs[|inputs| - 1]
    decreases |inputs|
  {
    if |inputs| >= 2 {
      RepeatsOneMore(inputs[1..], input);
      assert (inputs + [input])[1..] == inputs[1..] + [input];
    } else if |inputs| == 1 {
      assert (inputs + [input])[1..] == [input];
    } else {
      assert inputs + [input] == [input];
    }
  }

  ghost predicate Tracks(s: Session) {
    && s.editor.history == LastOf(WithoutRepeats(s.inputs), 100)
    && (forall input :: input in s.inputs ==> input != "")
  }

  lemma ConcludeTracks(s: Session, input: Bytes, prompt: Bytes, reply: nat -> Bytes)
    requires Tracks(s)
    ensures Tracks(Concluded(s, input, prompt, reply))
  {
    RepeatsOneMore(s.inputs, input);
    if input != "" {
      RememberKeepsLast(WithoutRepeats(s.inputs), input);
    }
  }

  lemma RememberKeepsLast(kept: seq<Bytes>, input: Bytes)
    ensures Remember(LastOf(kept, HISTORY_SIZE), input)
         == LastOf(if kept != [] && kept[|kept| - 1] == input then kept else kept + [input], HISTORY_SIZE)
  {
    if |kept| > HISTORY_SIZE {
      assert (kept[|kept| - HISTORY_SIZE..] + [input])[1..] == (kept + [input])[|kept| + 1 - HISTORY_SIZE..];
    }
  }

  /** After any bytes at all the history is the last hundred of the non-empty trimmed inputs, without
      immediate repetitions, and the recall index points into it or is -1. */
  lemma {:induction false} HistoryIs(greeting: Bytes, input: Bytes, prompt: Bytes, reply: nat -> Bytes)
    ensures var s := FeedAll(FirstPrompt(greeting, prompt), input, prompt, reply);
            && s.editor.history == LastOf(WithoutRepeats(s.inputs), 100)
            && -1 <= s.editor.idx < |s.editor.history|
            && forall line :: line in s.inputs ==> line != ""
    decreases |input|
  {
    if input != "" {
      var s := FeedAll(FirstPrompt(greeting, prompt), input[..|input| - 1], prompt, reply);
      HistoryIs(greeting, input[..|input| - 1], prompt, reply);
      if s.open {
        var step := Key(s.editor, input[|input| - 1]);
        KeyKeepsValid(s.editor, input[|input| - 1]);
        var t := s.(editor := step.editor, out := s.out + step.echo);
        ConcludeTracks(t, TrimSpace(t.editor.line), prompt, reply);
      }
    }
  }

  // ---------------------------------------------------------------------------------------------
  // Arrow keys

  const UP := [ESC, '[', 'A']
  const DOWN := [ESC, '[', 'B']

  function Press(e: Editor, keys: Bytes): (f: Editor)
    requires Valid(e)
    ensures Valid(f)
    decreases |keys|
  {
    if keys == "" then e
    else
      KeyKeepsValid(e, keys[0]);
      Press(Key(e, keys[0]).editor, keys[1..])
  }

  function Repeat(keys: Bytes, n: nat): Bytes {
    if n == 0 then "" else Repeat(keys, n - 1) + keys
  }

  lemma {:induction false} PressConcat(e: Editor, a: Bytes, b: Bytes)
    requires Valid(e)
    ensures Press(e, a + b) == Press(Press(e, a), b)
    decreases |a|
  {
    if a == "" {
      assert a + b == b;
    } else {
      assert (a + b)[0] == a[0] && (a + b)[1..] == a[1..] + b;
      KeyKeepsValid(e, a[0]);
      PressConcat(Key(e, a[0]).editor, a[1..], b);
    }
  }

  lemma ArrowKey(e: Editor, letter: char)
    requires Valid(e) && !e.escaped && e.escBuf == ""
    ensures Press(e, [ESC, '[', letter]) == Arrow(e, letter).editor
  {
    var e1 := Key(e, ESC).editor;
    var e2 := Key(e1, '[').editor;
    assert e2 == e.(escaped := true, escBuf := "[");
    assert ([ESC, '[', letter])[1..] == ['[', letter];
    assert (['[', letter])[1..] == [letter];
    assert Press(e2, [letter]) == Press(Key(e2, letter).editor, "");
  }

  /** The editor that shows the entry m steps back, or the empty line for m == 0. */
  function Showing(history: seq<Bytes>, m: nat): Editor
    requires m <= |history|
  {
    Editor(if m == 0 then "" else history[|history| - m], history, m - 1, false, "")
  }

  function Min(a: nat, b: nat): nat {
    if a < b then a else b
  }

  lemma {:induction false} Ups(history: seq<Bytes>, u: nat)
    requires |history| <= HISTORY_SIZE
    ensures Press(Showing(history, 0), Repeat(UP, u)) == Showing(history, Min(u, |history|))
  {
    if u > 0 {
      Ups(history, u - 1);
      PressConcat(Showing(history, 0), Repeat(UP, u - 1), UP);
      ArrowKey(Showing(history, Min(u - 1, |history|)), 'A');
    }
  }

  lemma {:induction false} Downs(history: seq<Bytes>, m: nat, d: nat)
    requires m <= |history| <= HISTORY_SIZE
    ensures Press(Showing(history, m), Repeat(DOWN, d)) == Showing(history, if d < m then m - d else 0)
  {
    if d > 0 {
      Downs(history, m, d - 1);
      PressConcat(Showing(history, m), Repeat(DOWN, d - 1), DOWN);
      ArrowKey(Showing(history, if d - 1 < m then m - (d - 1) else 0), 'B');
    }
  }

  /** From a fresh prompt u times up and d times down leave the entry min(u, length) - d steps back;
      as many downs as ups lead back to the empty line. */
  lemma UpsThenDowns(history: seq<Bytes>, u: nat, d: nat)
    requires |history| <= HISTORY_SIZE
    ensures var m := Min(u, |history|);
            Press(Showing(history, 0), Repeat(UP, u) + Repeat(DOWN, d))
            == Showing(history, if d < m then m - d else 0)
  {
    Ups(history, u);
    Downs(history, Min(u, |history|), d);
    PressConcat(Showing(history, 0), Repeat(UP, u), Repeat(DOWN, d));
  }
}
