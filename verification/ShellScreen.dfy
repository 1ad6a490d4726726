/**
  The row that the user sees always reads as the line that the editor holds.

  The hypothesis is ASCII input: a clear erases one cell for each byte of the line.
*/
module ShellScreen {
  import opened Utf8
  import opened LineEditor
  import opened Terminal

  ghost predicate AllPrintable(s: Bytes) {
    forall c :: c in s ==> Printable(c)
  }

  ghost predicate Ascii(s: Bytes) {
    forall i :: 0 <= i < |s| ==> s[i] < '\U{80}'
  }

  ghost predicate Clean(e: Editor) {
    && Valid(e) && AllPrintable(e.line)
    && forall entry :: entry in e.history ==> AllPrintable(entry)
  }

  lemma {:induction false} EraseLine(s: Screen, shown: Bytes, line: Bytes)
    requires Reads(s, shown + line)
    ensures Reads(Show(s, Erase(|line|)), shown)
    decreases |line|
  {
    if line == "" {
      assert shown + line == shown;
    } else {
      EraseOne(s, shown + line);
      var shorter := line[..|line| - 1];
      assert (shown + line)[..|shown + line| - 1] == shown + shorter;
      EraseLine(Show(s, ERASE), shown, shorter);
      ShowConcat(s, ERASE, Erase(|line| - 1));
    }
  }

  lemma RecallShows(s: Screen, shown: Bytes, e: Editor, idx: int)
    requires Clean(e) && 0 <= idx < |e.history| && Reads(s, shown + e.line)
    ensures var step := Recall(e, idx);
            Reads(Show(s, step.echo), shown + step.editor.line) && Clean(step.editor)
  {
    var entry := Recalled(e.history, idx);
    assert entry in e.history;
    EraseLine(s, shown, e.line);
    ShowConcat(s, Erase(|e.line|), entry);
    PrintText(Show(s, Erase(|e.line|)), shown, entry);
  }

  lemma EscapeByteShows(s: Screen, shown: Bytes, e: Editor, b: char)
    requires Clean(e) && e.escaped && Reads(s, shown + e.line)
    ensures var step := Key(e, b);
            Reads(Show(s, step.echo), shown + step.editor.line) && Clean(step.editor)
  {
    var escBuf := e.escBuf + [b];
    if |escBuf| == 2 && escBuf[0] == '[' {
      if b == 'A' && |e.history| > 0 {
        RecallShows(s, shown, e, if e.idx < |e.history| - 1 then e.idx + 1 else e.idx);
      } else if b == 'B' && e.idx > 0 {
        RecallShows(s, shown, e, e.idx - 1);
      } else if b == 'B' && e.idx == 0 {
        EraseLine(s, shown, e.line);
        assert shown + "" == shown;
      }
    }
  }

  lemma TypedShows(s: Screen, shown: Bytes, e: Editor, b: char)
    requires Clean(e) && !e.escaped && Reads(s, shown + e.line) && Printable(b)
    ensures var step := Key(e, b);
            Reads(Show(s, step.echo), shown + step.editor.line) && Clean(step.editor)
  {
    PrintText(s, shown + e.line, [b]);
    assert shown + e.line + [b] == shown + (e.line + [b]);
  }

  lemma ErasedShows(s: Screen, shown: Bytes, e: Editor, b: char)
    requires Clean(e) && !e.escaped && Reads(s, shown + e.line) && (b == DEL || b == BACKSPACE || b == CTRL_U)
    ensures var step := Key(e, b);
            Reads(Show(s, step.echo), shown + step.editor.line) && Clean(step.editor)
  {
    if b == CTRL_U {
      EraseLine(s, shown, e.line);
      assert shown + "" == shown;
    } else if e.line != "" {
      assert e.line[|e.line| - 1] in e.line;
      EraseOne(s, shown + e.line);
      assert (shown + e.line)[..|shown + e.line| - 1] == shown + e.line[..|e.line| - 1];
    }
  }

  lemma SubmitShows(s: Screen, shown: Bytes, e: Editor, b: char)
    requires Clean(e) && Reads(s, shown + e.line) && Key(e, b).signal == Submit
    ensures Show(s, Key(e, b).echo) == BLANK && Clean(Key(e, b).editor)
  {
    if b == CTRL_C {
      PrintText(s, shown + e.line, "^C");
      ShowConcat(s, "^C", "\r\n");
      assert "^C" + "\r\n" == "^C\r\n";
      NewRow(Show(s, "^C"), shown + e.line + "^C");
    } else {
      NewRow(s, shown + e.line);
    }
  }

  lemma KeyShows(s: Screen, shown: Bytes, e: Editor, b: char)
    requires Clean(e) && Reads(s, shown + e.line) && b < '\U{80}'
    ensures var step := Key(e, b);
            && Clean(step.editor)
            && (step.signal == More ==> Reads(Show(s, step.echo), shown + step.editor.line))
            && (step.signal == Submit ==> Show(s, step.echo) == BLANK)
  {
    if e.escaped {
      EscapeByteShows(s, shown, e, b);
    } else if Key(e, b).signal == Submit {
      SubmitShows(s, shown, e, b);
    } else if b == DEL || b == BACKSPACE || b == CTRL_U {
      ErasedShows(s, shown, e, b);
    } else if Printable(b) {
      TypedShows(s, shown, e, b);
    }
  }

  // ---------------------------------------------------------------------------------------------
  // The prompt

  function Prompt(username: Bytes, domain: Bytes): Bytes {
    CYAN + BOLD + "CLIverse" + RESET + " | " + CYAN + ("@" + username + "@" + domain) + RESET + " > "
  }

  function VisiblePrompt(username: Bytes, domain: Bytes): Bytes {
    "CLIverse" + " | " + ("@" + username + "@" + domain) + " > "
  }

  lemma StyledShows(s: Screen, before: Bytes, shown: Bytes, style: Bytes)
    requires Reads(Show(s, before), shown) && IsStyle(style)
    ensures Reads(Show(s, before + style), shown)
  {
    ShowConcat(s, before, style);
    StyleTakesNoRoom(Show(s, before), shown, style);
  }

  lemma TextShows(s: Screen, before: Bytes, shown: Bytes, text: Bytes)
    requires Reads(Show(s, before), shown) && AllPrintable(text)
    ensures Reads(Show(s, before + text), shown + text)
  {
    ShowConcat(s, before, text);
    PrintText(Show(s, before), shown, text);
  }

  lemma PromptShows(s: Screen, base: Bytes, username: Bytes, domain: Bytes)
    requires Reads(s, base) && AllPrintable(username) && AllPrintable(domain)
    ensures Reads(Show(s, Prompt(username, domain)), base + VisiblePrompt(username, domain))
  {
    var name := "@" + username + "@" + domain;
    assert IsStyle(CYAN) && IsStyle(BOLD) && IsStyle(RESET);
    StyleTakesNoRoom(s, base, CYAN);
    StyledShows(s, CYAN, base, BOLD);
    TextShows(s, CYAN + BOLD, base, "CLIverse");
    StyledShows(s, CYAN + BOLD + "CLIverse", base + "CLIverse", RESET);
    TextShows(s, CYAN + BOLD + "CLIverse" + RESET, base + "CLIverse", " | ");
    StyledShows(s, CYAN + BOLD + "CLIverse" + RESET + " | ", base + "CLIverse" + " | ", CYAN);
    TextShows(s, CYAN + BOLD + "CLIverse" + RESET + " | " + CYAN, base + "CLIverse" + " | ", name);
    StyledShows(s, CYAN + BOLD + "CLIverse" + RESET + " | " + CYAN + name, base + "CLIverse" + " | " + name, RESET);
    TextShows(s, CYAN + BOLD + "CLIverse" + RESET + " | " + CYAN + name + RESET,
              base + "CLIverse" + " | " + name, " > ");
    assert base + "CLIverse" + " | " + name + " > " == base + VisiblePrompt(username, domain);
  }

  // ---------------------------------------------------------------------------------------------
  // Whole sessions

  /** What a text that is printed on a blank row leaves on its last row, up to the cursor. */
  function LastRow(text: Bytes): Bytes {
    var screen := Show(BLANK, text);
    seq(screen.col, i requires i >= 0 => CellAt(screen, i))
  }

  /** Text that leaves the cursor at the end of a row with nothing to its right. */
  ghost predicate Tidy(text: Bytes) {
    Reads(Show(BLANK, text), LastRow(text))
  }

  /** Text that ends its last row. */
  ghost predicate EndsRow(text: Bytes) {
    Reads(Show(BLANK, text), "")
  }

  /** The row reads as what stood in front of the prompt, the prompt, and the edited line. */
  ghost predicate InView(s: Session, before: Bytes, username: Bytes, domain: Bytes) {
    Reads(Show(BLANK, s.out), before + VisiblePrompt(username, domain) + s.editor.line)
  }

  /** What the submission of the line at hand prints before the next prompt. */
  function ReplyText(s: Session, reply: nat -> Bytes): Bytes {
    if Commands(TrimSpace(s.editor.line)) == [] then "" else reply(|s.dispatched|)
  }

  /** What stands in front of the prompt: what the greeting, or the reply to the line submitted last,
      has left on the row. */
  function BeforePrompt(greeting: Bytes, input: Bytes, prompt: Bytes, reply: nat -> Bytes): Bytes {
    if input == "" then LastRow(greeting)
    else
      var s := FeedAll(FirstPrompt(greeting, prompt), input[..|input| - 1], prompt, reply);
      var step := Key(s.editor, input[|input| - 1]);
      if s.open && step.signal == Submit then LastRow(ReplyText(s.(editor := step.editor), reply))
      else BeforePrompt(greeting, input[..|input| - 1], prompt, reply)
  }

  lemma InViewAfter(s: Session, text: Bytes, username: Bytes, domain: Bytes)
    requires AllPrintable(username) && AllPrintable(domain) && Tidy(text)
    requires Show(BLANK, s.out) == Show(Show(BLANK, text), Prompt(username, domain)) && s.editor.line == ""
    ensures InView(s, LastRow(text), username, domain)
  {
    PromptShows(Show(BLANK, text), LastRow(text), username, domain);
    var shown := LastRow(text) + VisiblePrompt(username, domain);
    assert shown + "" == shown;
  }

  lemma SubmitStaysInView(s: Session, t: Session, username: Bytes, domain: Bytes, reply: nat -> Bytes)
    requires AllPrintable(username) && AllPrintable(domain) && forall k :: Tidy(reply(k))
    requires Show(BLANK, s.out) == BLANK && t == Submitted(s, Prompt(username, domain), reply) && t.open
    ensures InView(t, LastRow(ReplyText(s, reply)), username, domain)
  {
    var text := ReplyText(s, reply);
    ShowConcat(BLANK, s.out, text + Prompt(username, domain));
    ShowConcat(BLANK, text, Prompt(username, domain));
    InViewAfter(t, text, username, domain);
  }

  lemma TrimStaysPrintable(line: Bytes)
    requires AllPrintable(line)
    ensures AllPrintable(TrimSpace(line))
  {
    TrimSpaceHasSame(line);
  }

  lemma SubmitStaysClean(s: Session, prompt: Bytes, reply: nat -> Bytes)
    requires Clean(s.editor)
    ensures Clean(Submitted(s, prompt, reply).editor)
  {
    TrimStaysPrintable(s.editor.line);
  }

  ghost predicate Faithful(s: Session, before: Bytes, username: Bytes, domain: Bytes) {
    s.open ==> Clean(s.editor) && InView(s, before, username, domain)
  }

  lemma FeedStaysFaithful(s: Session, b: char, before: Bytes, username: Bytes, domain: Bytes, reply: nat -> Bytes)
    requires Valid(s.editor) && Faithful(s, before, username, domain) && b < '\U{80}'
    requires AllPrintable(username) && AllPrintable(domain) && forall k :: Tidy(reply(k))
    ensures var step := Key(s.editor, b);
            var after := if s.open && step.signal == Submit then LastRow(ReplyText(s.(editor := step.editor), reply))
                         else before;
            Faithful(Feed(s, b, Prompt(username, domain), reply), after, username, domain)
  {
    if s.open {
      var step := Key(s.editor, b);
      var t := s.(editor := step.editor, out := s.out + step.echo);
      KeyShows(Show(BLANK, s.out), before + VisiblePrompt(username, domain), s.editor, b);
      ShowConcat(BLANK, s.out, step.echo);
      if step.signal == Submit {
        SubmitStaysClean(t, Prompt(username, domain), reply);
        var u := Submitted(t, Prompt(username, domain), reply);
        if u.open {
          SubmitStaysInView(t, u, username, domain, reply);
        }
      }
    }
  }

  lemma {:induction false} SessionIsFaithful(greeting: Bytes, input: Bytes, username: Bytes, domain: Bytes,
                                             reply: nat -> Bytes)
    requires AllPrintable(username) && AllPrintable(domain) && Tidy(greeting) && forall k :: Tidy(reply(k))
    requires Ascii(input)
    ensures var prompt := Prompt(username, domain);
            Faithful(FeedAll(FirstPrompt(greeting, prompt), input, prompt, reply),
                     BeforePrompt(greeting, input, prompt, reply), username, domain)
    decreases |input|
  {
    var prompt := Prompt(username, domain);
    var s := FirstPrompt(greeting, prompt);
    if input == "" {
      ShowConcat(BLANK, greeting, prompt);
      InViewAfter(s, greeting, username, domain);
    } else {
      var earlier := input[..|input| - 1];
      SessionIsFaithful(greeting, earlier, username, domain, reply);
      FeedStaysFaithful(FeedAll(s, earlier, prompt, reply), input[|input| - 1],
                        BeforePrompt(greeting, earlier, prompt, reply), username, domain, reply);
    }
  }

  /** While a session is open, and whatever ASCII bytes have been read, the row under the cursor reads as
      what the greeting or the last reply left in front of the prompt, the prompt, and exactly the edited
      line, with the cursor at its end and blanks after it. */
  lemma ScreenShowsLine(greeting: Bytes, input: Bytes, username: Bytes, domain: Bytes, reply: nat -> Bytes)
    requires AllPrintable(username) && AllPrintable(domain) && Tidy(greeting) && forall k :: Tidy(reply(k))
    requires Ascii(input)
    ensures var prompt := Prompt(username, domain);
            var s := FeedAll(FirstPrompt(greeting, prompt), input, prompt, reply);
            s.open ==> Reads(Show(BLANK, s.out), BeforePrompt(greeting, input, prompt, reply)
                                                 + VisiblePrompt(username, domain) + s.editor.line)
  {
    SessionIsFaithful(greeting, input, username, domain, reply);
  }

  lemma EndsRowIsTidy(text: Bytes)
    requires EndsRow(text)
    ensures Tidy(text) && LastRow(text) == ""
  {
  }

  lemma {:induction false} NothingBeforePrompt(greeting: Bytes, input: Bytes, prompt: Bytes, reply: nat -> Bytes)
    requires EndsRow(greeting) && forall k :: EndsRow(reply(k))
    ensures BeforePrompt(greeting, input, prompt, reply) == ""
    decreases |input|
  {
    EndsRowIsTidy(greeting);
    if input != "" {
      NothingBeforePrompt(greeting, input[..|input| - 1], prompt, reply);
      var s := FeedAll(FirstPrompt(greeting, prompt), input[..|input| - 1], prompt, reply);
      EndsRowIsTidy(reply(|s.dispatched|));
    }
  }

  /** When the greeting and all replies end their rows, the row reads exactly the prompt and the line. */
  lemma RowIsPromptAndLine(greeting: Bytes, input: Bytes, username: Bytes, domain: Bytes, reply: nat -> Bytes)
    requires AllPrintable(username) && AllPrintable(domain) && Ascii(input)
    requires EndsRow(greeting) && forall k :: EndsRow(reply(k))
    ensures var prompt := Prompt(username, domain);
            var s := FeedAll(FirstPrompt(greeting, prompt), input, prompt, reply);
            s.open ==> Reads(Show(BLANK, s.out), VisiblePrompt(username, domain) + s.editor.line)
  {
    EndsRowIsTidy(greeting);
    forall k ensures Tidy(reply(k)) {
      EndsRowIsTidy(reply(k));
    }
    ScreenShowsLine(greeting, input, username, domain, reply);
    NothingBeforePrompt(greeting, input, Prompt(username, domain), reply);
    assert "" + VisiblePrompt(username, domain) == VisiblePrompt(username, domain);
  }
}
