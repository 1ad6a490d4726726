/** What each key of the shell does, said without the functions of the editor. */
module ShellTyping {
  import opened Utf8
  import opened LineEditor
  import CommandLexer

  const FAREWELL := "\U{1b}[36mGoodbye!\U{1b}[0m\r\n"

  /** An open session between two keys, outside of an escape sequence. */
  ghost predicate Ready(s: Session) {
    s.open && Valid(s.editor) && !s.editor.escaped && s.editor.escBuf == ""
  }

  /** Bytes that stand for themselves: no control characters, and not the delete key. */
  ghost predicate AllTypable(text: Bytes) {
    forall i :: 0 <= i < |text| ==> text[i] as int >= 0x20 && text[i] as int != 0x7F
  }

  lemma FeedOne(s: Session, b: char, prompt: Bytes, reply: nat -> Bytes)
    requires Valid(s.editor)
    ensures FeedAll(s, [b], prompt, reply) == Feed(s, b, prompt, reply)
  {
    assert [b][..0] == "";
  }

  lemma {:induction false} FeedConcat(s: Session, a: Bytes, b: Bytes, prompt: Bytes, reply: nat -> Bytes)
    requires Valid(s.editor)
    ensures FeedAll(s, a + b, prompt, reply) == FeedAll(FeedAll(s, a, prompt, reply), b, prompt, reply)
    decreases |b|
  {
    if b == "" {
      assert a + b == a;
    } else {
      var shorter := b[..|b| - 1];
      FeedConcat(s, a, shorter, prompt, reply);
      assert (a + b)[..|a + b| - 1] == a + shorter;
      assert (a + b)[|a + b| - 1] == b[|b| - 1];
    }
  }

  lemma ByteIsTyped(s: Session, b: char, prompt: Bytes, reply: nat -> Bytes)
    requires Ready(s) && b as int >= 0x20 && b as int != 0x7F
    ensures Feed(s, b, prompt, reply) == s.(editor := s.editor.(line := s.editor.line + [b]), out := s.out + [b])
  {
  }

  /** Typed text is appended to the line and echoed, and nothing else happens. */
  lemma {:induction false} TextIsTyped(s: Session, text: Bytes, prompt: Bytes, reply: nat -> Bytes)
    requires Ready(s) && AllTypable(text)
    ensures FeedAll(s, text, prompt, reply)
         == s.(editor := s.editor.(line := s.editor.line + text), out := s.out + text)
    decreases |text|
  {
    if text == "" {
      assert s.editor.line + text == s.editor.line && s.out + text == s.out;
    } else {
      var n := |text| - 1;
      var t := FeedAll(s, text[..n], prompt, reply);
      TextIsTyped(s, text[..n], prompt, reply);
      ByteIsTyped(t, text[n], prompt, reply);
      assert text == text[..n] + [text[n]];
      assert s.editor.line + text[..n] + [text[n]] == s.editor.line + text;
      assert s.out + text[..n] + [text[n]] == s.out + text;
    }
  }

  lemma CommandsIs(input: Bytes)
    ensures Commands(input) == if CommandLexer.Parse(input) == [] || input == "exit" || input == "quit" then []
                               else [CommandLexer.Parse(input)]
  {
    NothingIsParsed();
  }

  /** What a submitted line does, of which the row was already ended. */
  lemma SubmittedIs(s: Session, prompt: Bytes, reply: nat -> Bytes)
    ensures var t := Submitted(s, prompt, reply);
            var input := TrimSpace(s.editor.line);
            var tokens := CommandLexer.Parse(input);
            var leaves := input == "exit" || input == "quit";
            && t.inputs == (if input == "" then s.inputs else s.inputs + [input])
            && t.dispatched == s.dispatched + (if tokens == [] || leaves then [] else [tokens])
            && (t.open <==> !leaves)
            && t.editor.line == "" && t.editor.idx == -1 && !t.editor.escaped && t.editor.escBuf == ""
            && t.out == s.out + (if leaves then FAREWELL
                                 else (if tokens == [] then "" else reply(|s.dispatched|)) + prompt)
  {
    CommandsIs(TrimSpace(s.editor.line));
  }

  lemma EnterAlone(s: Session, enter: char, prompt: Bytes, reply: nat -> Bytes)
    requires Ready(s) && (enter == '\r' || enter == '\n')
    ensures Feed(s, enter, prompt, reply) == Submitted(s.(out := s.out + "\r\n"), prompt, reply)
  {
  }

  /** Enter after any text: the trimmed line is remembered, its tokens go to the dispatcher, `exit` and
      `quit` close the session, and otherwise a fresh prompt follows. */
  lemma EnterSubmits(s: Session, text: Bytes, enter: char, prompt: Bytes, reply: nat -> Bytes)
    requires Ready(s) && AllTypable(text) && (enter == '\r' || enter == '\n')
    ensures var t := FeedAll(s, text + [enter], prompt, reply);
            var input := TrimSpace(s.editor.line + text);
            var tokens := CommandLexer.Parse(input);
            var leaves := input == "exit" || input == "quit";
            && t.inputs == (if input == "" then s.inputs else s.inputs + [input])
            && t.dispatched == s.dispatched + (if tokens == [] || leaves then [] else [tokens])
            && (t.open <==> !leaves)
            && t.editor.line == "" && t.editor.idx == -1 && !t.editor.escaped && t.editor.escBuf == ""
            && t.out == s.out + text + "\r\n"
                        + (if leaves then FAREWELL
                           else (if tokens == [] then "" else reply(|s.dispatched|)) + prompt)
  {
    FeedConcat(s, text, [enter], prompt, reply);
    TextIsTyped(s, text, prompt, reply);
    var t := FeedAll(s, text, prompt, reply);
    FeedOne(t, enter, prompt, reply);
    EnterAlone(t, enter, prompt, reply);
    SubmittedIs(t.(out := t.out + "\r\n"), prompt, reply);
  }

  lemma NothingIsParsed()
    ensures CommandLexer.Parse("") == []
  {
  }

  lemma DeleteAlone(s: Session, line: Bytes, rune: int, delete: char, prompt: Bytes, reply: nat -> Bytes)
    requires Ready(s) && IsScalar(rune) && s.editor.line == line + EncodeRune(rune)
    requires delete == '\U{7f}' || delete == '\U{08}'
    ensures Feed(s, delete, prompt, reply)
         == s.(editor := s.editor.(line := line), out := s.out + "\U{08} \U{08}")
  {
    DecodeLastUndoesEncode(line, rune);
    assert s.editor.line[..|line|] == line;
  }

  lemma EncodedIsTypable(rune: int)
    requires IsScalar(rune) && rune >= 0x20 && rune != 0x7F
    ensures AllTypable(EncodeRune(rune))
  {
  }

  /** Deleting takes back the last rune that was typed, of any length; the screen loses one cell. */
  lemma DeleteUndoesTyping(s: Session, rune: int, delete: char, prompt: Bytes, reply: nat -> Bytes)
    requires Ready(s) && IsScalar(rune) && rune >= 0x20 && rune != 0x7F
    requires delete == '\U{7f}' || delete == '\U{08}'
    ensures FeedAll(s, EncodeRune(rune) + [delete], prompt, reply)
         == s.(out := s.out + EncodeRune(rune) + "\U{08} \U{08}")
  {
    var typed := EncodeRune(rune);
    EncodedIsTypable(rune);
    FeedConcat(s, typed, [delete], prompt, reply);
    TextIsTyped(s, typed, prompt, reply);
    var t := FeedAll(s, typed, prompt, reply);
    FeedOne(t, delete, prompt, reply);
    DeleteAlone(t, s.editor.line, rune, delete, prompt, reply);
  }

  /** On an empty line deleting does nothing. */
  lemma DeleteOnEmptyLine(s: Session, delete: char, prompt: Bytes, reply: nat -> Bytes)
    requires Ready(s) && s.editor.line == "" && (delete == '\U{7f}' || delete == '\U{08}')
    ensures FeedAll(s, [delete], prompt, reply) == s
  {
    FeedOne(s, delete, prompt, reply);
    assert s.out + "" == s.out;
  }

  /** Ctrl-D closes the session exactly on an empty line, and else does nothing. */
  lemma CtrlDCloses(s: Session, prompt: Bytes, reply: nat -> Bytes)
    requires Ready(s)
    ensures FeedAll(s, ['\U{04}'], prompt, reply)
         == if s.editor.line == "" then s.(open := false, out := s.out + "\r\n" + FAREWELL) else s
  {
    FeedOne(s, '\U{04}', prompt, reply);
    assert s.out + "" == s.out;
    assert s.out + ("\r\n" + FAREWELL) == s.out + "\r\n" + FAREWELL;
  }

  /** Ctrl-C throws the line away: nothing is remembered or dispatched, and a fresh prompt follows. */
  lemma CtrlCCancels(s: Session, prompt: Bytes, reply: nat -> Bytes)
    requires Ready(s)
    ensures FeedAll(s, ['\U{03}'], prompt, reply)
         == s.(editor := s.editor.(line := "", idx := -1), out := s.out + "^C\r\n" + prompt)
  {
    FeedOne(s, '\U{03}', prompt, reply);
    assert TrimSpace("") == "";
    assert s.out + "^C\r\n" + ("" + prompt) == s.out + "^C\r\n" + prompt;
    assert s.inputs == s.inputs && s.dispatched + [] == s.dispatched;
  }

  /** Ctrl-U empties the line with as many erasing triples as it has bytes; the place in the history stays. */
  lemma CtrlUClears(s: Session, prompt: Bytes, reply: nat -> Bytes)
    requires Ready(s)
    ensures FeedAll(s, ['\U{15}'], prompt, reply)
         == s.(editor := s.editor.(line := ""), out := s.out + Erase(|s.editor.line|))
  {
    FeedOne(s, '\U{15}', prompt, reply);
  }

  /** All other control characters are ignored. */
  lemma ControlIsIgnored(s: Session, b: char, prompt: Bytes, reply: nat -> Bytes)
    requires Ready(s) && b as int < 0x20
    requires b as int !in {0x03, 0x04, 0x08, 0x0A, 0x0D, 0x15, 0x1B}
    ensures FeedAll(s, [b], prompt, reply) == s
  {
    FeedOne(s, b, prompt, reply);
    assert s.out + "" == s.out;
  }

  lemma FeedThree(s: Session, a: char, b: char, c: char, prompt: Bytes, reply: nat -> Bytes)
    requires Valid(s.editor)
    ensures FeedAll(s, [a, b, c], prompt, reply)
         == FeedAll(FeedAll(FeedAll(s, [a], prompt, reply), [b], prompt, reply), [c], prompt, reply)
  {
    FeedConcat(s, [a], [b, c], prompt, reply);
    FeedConcat(FeedAll(s, [a], prompt, reply), [b], [c], prompt, reply);
    assert [a] + [b, c] == [a, b, c] && [b] + [c] == [b, c];
  }

  /** An escape sequence that is no arrow up or down leaves no trace: ESC, "[" and one more byte, or ESC and
      three bytes of which the first is not "[". */
  lemma OtherEscapesAreDropped(s: Session, c: char, prompt: Bytes, reply: nat -> Bytes)
    requires Ready(s) && c != 'A' && c != 'B'
    ensures FeedAll(s, ['\U{1b}', '[', c], prompt, reply) == s
  {
    FeedThree(s, '\U{1b}', '[', c, prompt, reply);
    var s1 := FeedAll(s, ['\U{1b}'], prompt, reply);
    FeedOne(s, '\U{1b}', prompt, reply);
    FeedOne(s1, '[', prompt, reply);
    FeedOne(FeedAll(s1, ['['], prompt, reply), c, prompt, reply);
    assert s.out + "" == s.out;
  }

  lemma LongEscapesAreDropped(s: Session, x: char, y: char, z: char, prompt: Bytes, reply: nat -> Bytes)
    requires Ready(s) && x != '['
    ensures FeedAll(s, ['\U{1b}', x, y, z], prompt, reply) == s
  {
    FeedConcat(s, ['\U{1b}'], [x, y, z], prompt, reply);
    assert ['\U{1b}'] + [x, y, z] == ['\U{1b}', x, y, z];
    var s1 := FeedAll(s, ['\U{1b}'], prompt, reply);
    FeedOne(s, '\U{1b}', prompt, reply);
    assert s1 == s.(editor := s.editor.(escaped := true)) && s.out + "" == s.out;
    FeedThree(s1, x, y, z, prompt, reply);
    var s2 := FeedAll(s1, [x], prompt, reply);
    FeedOne(s1, x, prompt, reply);
    assert s2 == s.(editor := s.editor.(escaped := true, escBuf := [x]));
    var s3 := FeedAll(s2, [y], prompt, reply);
    FeedOne(s2, y, prompt, reply);
    assert s3 == s.(editor := s.editor.(escaped := true, escBuf := [x, y]));
    FeedOne(s3, z, prompt, reply);
  }
}
