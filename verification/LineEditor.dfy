/** The interactive shell: a byte-driven line editor with history and an echo stream. */
module LineEditor {
  import opened Wrappers
  import opened Utf8
  import CommandLexer

  const HISTORY_SIZE := 100

  const ESC := '\U{1b}'
  const DEL := '\U{7f}'
  const BACKSPACE := '\U{08}'
  const CTRL_C := '\U{03}'
  const CTRL_D := '\U{04}'
  const CTRL_U := '\U{15}'

  const CYAN := "\U{1b}[36m"
  const BOLD := "\U{1b}[1m"
  const RESET := "\U{1b}[0m"
  const ERASE := "\U{08} \U{08}"
  const GOODBYE := CYAN + "Goodbye!" + RESET + "\r\n"

  datatype Editor = Editor(line: Bytes, history: seq<Bytes>, idx: int, escaped: bool, escBuf: Bytes)

  /** What the inner reading loop does next. */
  datatype Signal = More | Submit | Quit

  datatype Step = Step(editor: Editor, echo: Bytes, signal: Signal)

  /** Erases n cells. */
  function Erase(n: nat): Bytes {
    if n == 0 then "" else ERASE + Erase(n - 1)
  }

  ghost predicate Valid(e: Editor) {
    && -1 <= e.idx < |e.history|
    && |e.history| <= HISTORY_SIZE
    && (e.escaped ==> |e.escBuf| <= 2 && (|e.escBuf| == 2 ==> e.escBuf[0] != '['))
  }

  /** The entry that is `idx` steps back from the latest. */
  function Recalled(history: seq<Bytes>, idx: int): Bytes
    requires 0 <= idx < |history|
  {
    history[|history| - 1 - idx]
  }

  function Recall(e: Editor, idx: int): Step
    requires 0 <= idx < |e.history|
  {
    var entry := Recalled(e.history, idx);
    Step(e.(line := entry, idx := idx), Erase(|e.line|) + entry, More)
  }

  function Arrow(e: Editor, letter: char): Step
    requires -1 <= e.idx < |e.history|
  {
    if letter == 'A' && |e.history| > 0 then
      Recall(e, if e.idx < |e.history| - 1 then e.idx + 1 else e.idx)
    else if letter == 'B' && e.idx > 0 then
      Recall(e, e.idx - 1)
    else if letter == 'B' && e.idx == 0 then
      Step(e.(line := "", idx := -1), Erase(|e.line|), More)
    else Step(e, "", More)
  }

  function EscapeByte(e: Editor, b: char): Step
    requires Valid(e)
  {
    var escBuf := e.escBuf + [b];
    if |escBuf| == 2 && escBuf[0] == '[' then
      var step := Arrow(e, b);
      step.(editor := step.editor.(escaped := false, escBuf := ""))
    else if |escBuf| >= 3 then Step(e.(escaped := false, escBuf := ""), "", More)
    else Step(e.(escBuf := escBuf), "", More)
  }

  function PlainByte(e: Editor, b: char): Step {
    if b == ESC then Step(e.(escaped := true, escBuf := ""), "", More)
    else if b == '\r' || b == '\n' then Step(e, "\r\n", Submit)
    else if b == DEL || b == BACKSPACE then
      if e.line == "" then Step(e, "", More)
      else Step(e.(line := e.line[..|e.line| - DecodeLastRune(e.line).size]), ERASE, More)
    else if b == CTRL_C then Step(e.(line := "", idx := -1), "^C\r\n", Submit)
    else if b == CTRL_D then
      if e.line == "" then Step(e, "\r\n" + GOODBYE, Quit) else Step(e, "", More)
    else if b == CTRL_U then Step(e.(line := ""), Erase(|e.line|), More)
    else if b >= ' ' then Step(e.(line := e.line + [b]), [b], More)
    else Step(e, "", More)
  }

  function Key(e: Editor, b: char): Step
    requires Valid(e)
  {
    if e.escaped then EscapeByte(e, b) else PlainByte(e, b)
  }

  lemma KeyKeepsValid(e: Editor, b: char)
    requires Valid(e)
    ensures Valid(Key(e, b).editor) && Key(e, b).editor.history == e.history
    ensures Key(e, b).signal != More ==> !Key(e, b).editor.escaped
  {
  }

  /** A non-empty input is remembered unless it repeats the latest entry; the oldest entry goes first. */
  function Remember(history: seq<Bytes>, input: Bytes): seq<Bytes> {
    if history != [] && history[|history| - 1] == input then history
    else
      var longer := history + [input];
      if |longer| > HISTORY_SIZE then longer[1..] else longer
  }

  /** The editor at the next prompt, after a line with this trimmed input was submitted. */
  function NextPrompt(e: Editor, input: Bytes): Editor {
    Editor("", if input == "" then e.history else Remember(e.history, input), -1, false, "")
  }

  // ---------------------------------------------------------------------------------------------
  // A session: editor, output so far, non-empty inputs and dispatched commands so far

  datatype Session = Session(editor: Editor, out: Bytes, inputs: seq<Bytes>,
                             dispatched: seq<seq<Bytes>>, open: bool)

  function FirstPrompt(greeting: Bytes, prompt: Bytes): Session {
    Session(Editor("", [], -1, false, ""), greeting + prompt, [], [], true)
  }

  predicate Leaves(input: Bytes) {
    input == "exit" || input == "quit"
  }

  /** The command that a trimmed input hands to the dispatcher, if any. */
  function Commands(input: Bytes): seq<seq<Bytes>> {
    if input == "" || Leaves(input) || CommandLexer.Parse(input) == [] then [] else [CommandLexer.Parse(input)]
  }

  /** Output after a submitted line; `reply(k)` is what the k-th dispatched command prints. */
  function Answer(input: Bytes, k: nat, prompt: Bytes, reply: nat -> Bytes): Bytes {
    if Leaves(input) then GOODBYE
    else (if Commands(input) == [] then "" else reply(k)) + prompt
  }

  function Concluded(s: Session, input: Bytes, prompt: Bytes, reply: nat -> Bytes): Session {
    Session(NextPrompt(s.editor, input),
            s.out + Answer(input, |s.dispatched|, prompt, reply),
            if input == "" then s.inputs else s.inputs + [input],
            s.dispatched + Commands(input),
            !Leaves(input))
  }

  function Submitted(s: Session, prompt: Bytes, reply: nat -> Bytes): Session {
    Concluded(s, TrimSpace(s.editor.line), prompt, reply)
  }

  lemma NextPromptIsValid(e: Editor, input: Bytes)
    requires Valid(e)
    ensures Valid(NextPrompt(e, input))
  {
  }

  function Feed(s: Session, b: char, prompt: Bytes, reply: nat -> Bytes): Session
    requires Valid(s.editor)
  {
    if !s.open then s
    else
      var step := Key(s.editor, b);
      var t := s.(editor := step.editor, out := s.out + step.echo);
      match step.signal
      case More => t
      case Quit => t.(open := false)
      case Submit => Submitted(t, prompt, reply)
  }

  lemma FeedKeepsValid(s: Session, b: char, prompt: Bytes, reply: nat -> Bytes)
    requires Valid(s.editor)
    ensures Valid(Feed(s, b, prompt, reply).editor)
  {
    KeyKeepsValid(s.editor, b);
    var e := Key(s.editor, b).editor;
    NextPromptIsValid(e, TrimSpace(e.line));
  }

  function FeedAll(s: Session, input: Bytes, prompt: Bytes, reply: nat -> Bytes): (t: Session)
    requires Valid(s.editor)
    ensures Valid(t.editor)
  {
    if input == "" then s
    else
      FeedKeepsValid(FeedAll(s, input[..|input| - 1], prompt, reply), input[|input| - 1], prompt, reply);
      Feed(FeedAll(s, input[..|input| - 1], prompt, reply), input[|input| - 1], prompt, reply)
  }

  // ---------------------------------------------------------------------------------------------

  class Shell {
    var line: Bytes
    var history: seq<Bytes>
    var historyIdx: int
    var escaped: bool
    var escBuf: Bytes
    var out: Bytes
    var dispatched: seq<seq<Bytes>>
    var open: bool
    ghost var inputs: seq<Bytes>

    constructor (greeting: Bytes)
      ensures State() == FirstPrompt(greeting, "")
      ensures State() == Session(Editor("", [], -1, false, ""), greeting, [], [], true)
    {
      line, history, historyIdx, escaped, escBuf := "", [], -1, false, "";
      out, dispatched, open, inputs := greeting, [], true, [];
      new;
      assert greeting + "" == greeting;
    }

    ghost function State(): Session
      reads this
    {
      Session(Editor(line, history, historyIdx, escaped, escBuf), out, inputs, dispatched, open)
    }

    method ClearLine()
      modifies this`out
      ensures out == old(out) + Erase(|line|)
    {
      var i := 0;
      assert out + Erase(0) == out;
      while i < |line|
        invariant 0 <= i <= |line|
        invariant out + Erase(|line| - i) == old(out) + Erase(|line|)
        modifies this`out
      {
        assert out + ERASE + Erase(|line| - i - 1) == out + (ERASE + Erase(|line| - i - 1));
        out := out + ERASE;
        i := i + 1;
      }
    }

    method RecallEntry(idx: int)
      requires 0 <= idx < |history|
      modifies this`line, this`historyIdx, this`out
      ensures State() == old(State().(editor := Recall(State().editor, idx).editor,
                                      out := out + Recall(State().editor, idx).echo))
    {
      historyIdx := idx;
      ClearLine();
      line := history[|history| - 1 - historyIdx];
      out := out + line;
    }

    method ReadEscaped(b: char)
      requires Valid(State().editor) && escaped
      modifies this
      ensures State() == old(State().(editor := Key(State().editor, b).editor,
                                      out := out + Key(State().editor, b).echo))
    {
      escBuf := escBuf + [b];
      if |escBuf| == 2 && escBuf[0] == '[' {
        if escBuf[1] == 'A' {
          if |history| > 0 {
            RecallEntry(if historyIdx < |history| - 1 then historyIdx + 1 else historyIdx);
          }
        } else if escBuf[1] == 'B' {
          if historyIdx > 0 {
            RecallEntry(historyIdx - 1);
          } else if historyIdx == 0 {
            historyIdx := -1;
            ClearLine();
            line := "";
          }
        }
        escaped := false;
        escBuf := "";
        return;
      }
      if |escBuf| >= 3 {
        escaped := false;
        escBuf := "";
      }
    }

    method ReadPlain(b: char) returns (signal: Signal)
      requires Valid(State().editor) && !escaped
      modifies this
      ensures State() == old(State().(editor := Key(State().editor, b).editor,
                                      out := out + Key(State().editor, b).echo))
      ensures signal == old(Key(State().editor, b).signal)
    {
      signal := More;
      if b == ESC {
        escaped := true;
        escBuf := "";
      } else if b == '\r' || b == '\n' {
        out := out + "\r\n";
        signal := Submit;
      } else if b == DEL || b == BACKSPACE {
        if |line| > 0 {
          line := line[..|line| - DecodeLastRune(line).size];
          out := out + ERASE;
        }
      } else if b == CTRL_C {
        out := out + "^C\r\n";
        line := "";
        historyIdx := -1;
        signal := Submit;
      } else if b == CTRL_D {
        if |line| == 0 {
          out := out + ("\r\n" + GOODBYE);
          signal := Quit;
        }
      } else if b == CTRL_U {
        ClearLine();
        line := "";
      } else if b >= ' ' {
        line := line + [b];
        out := out + [b];
      }
    }

    /** Adds a non-empty input to the history, without repeating the latest entry. */
    method AddToHistory(input: Bytes)
      modifies this`history
      ensures history == Remember(old(history), input)
    {
      if |history| == 0 || history[|history| - 1] != input {
        history := history + [input];
        if |history| > HISTORY_SIZE {
          history := history[1..];
        }
      }
    }

    /** Prints the answer to a trimmed input and the next prompt. */
    method Execute(input: Bytes, prompt: Bytes, reply: nat -> Bytes)
      requires open
      modifies this`out, this`dispatched, this`open
      ensures out == old(out) + Answer(input, old(|dispatched|), prompt, reply)
      ensures dispatched == old(dispatched) + Commands(input)
      ensures open == !Leaves(input)
    {
      if input == "exit" || input == "quit" {
        out := out + GOODBYE;
        open := false;
        return;
      }
      var answer := "";
      if input != "" {
        var parts := CommandLexer.ParseCommand(input);
        if |parts| > 0 {
          answer := reply(|dispatched|);
          dispatched := dispatched + [parts];
        }
      }
      out := out + (answer + prompt);
    }

    method Conclude(input: Bytes, prompt: Bytes, reply: nat -> Bytes)
      requires open
      modifies this
      ensures State() == Concluded(old(State()), input, prompt, reply)
    {
      line, historyIdx, escaped, escBuf := "", -1, false, "";
      if input != "" {
        AddToHistory(input);
        inputs := inputs + [input];
      }
      Execute(input, prompt, reply);
    }

    method FinishLine(prompt: Bytes, reply: nat -> Bytes)
      requires open
      modifies this
      ensures State() == Submitted(old(State()), prompt, reply)
    {
      Conclude(TrimSpace(line), prompt, reply);
    }

    /** Reads until the session closes or the input ends. */
    method Handle(input: Bytes, prompt: Bytes, reply: nat -> Bytes)
      requires Valid(State().editor) && open
      modifies this
      ensures var s := FeedAll(old(State().(out := out + prompt)), input, prompt, reply);
              State() == if s.open then s.(out := s.out + "\r\n" + GOODBYE) else s
    {
      out := out + prompt;
      ghost var start := State();
      var i := 0;
      while i < |input| && open
        invariant 0 <= i <= |input|
        invariant Valid(State().editor)
        invariant State() == FeedAll(start, input[..i], prompt, reply)
        decreases |input| - i
      {
        assert input[..i + 1][..i] == input[..i];
        ReadByte(input[i], prompt, reply);
        i := i + 1;
      }
      if open {
        assert input[..i] == input;
        out := out + "\r\n" + GOODBYE;
      } else {
        ClosedStaysClosed(start, input, i, prompt, reply);
      }
    }

    method ReadByte(b: char, prompt: Bytes, reply: nat -> Bytes)
      requires Valid(State().editor) && open
      modifies this
      ensures State() == Feed(old(State()), b, prompt, reply)
      ensures Valid(State().editor)
    {
      KeyKeepsValid(State().editor, b);
      FeedKeepsValid(State(), b, prompt, reply);
      if escaped {
        ReadEscaped(b);
        return;
      }
      var signal := ReadPlain(b);
      if signal == Submit {
        FinishLine(prompt, reply);
      } else if signal == Quit {
        open := false;
      }
    }
  }

  lemma {:induction false} ClosedStaysClosed(s: Session, input: Bytes, k: nat, prompt: Bytes, reply: nat -> Bytes)
    requires Valid(s.editor) && k <= |input| && !FeedAll(s, input[..k], prompt, reply).open
    ensures FeedAll(s, input, prompt, reply) == FeedAll(s, input[..k], prompt, reply)
    decreases |input|
  {
    if k < |input| {
      var shorter := input[..|input| - 1];
      assert shorter[..k] == input[..k];
      ClosedStaysClosed(s, shorter, k, prompt, reply);
    } else {
      assert input[..k] == input;
    }
  }
}
