/**
 * A buffer (`struct buffer`): one channel, server or private conversation,
 * with its messages and its input line, and the editing keys that act on the
 * input line of the buffer shown in the focused window.
 */
module Buffers {
  import opened Bytes
  import opened Wrappers
  import opened InputLine
  import Messages
  import Terminal
  import Keys

  datatype Kind = Channel | Server | User

  /** `'^'`, `'%'`, `'s'`: the markup bytes the echo formats are made of. */
  const Caret: byte := 94
  const Percent: byte := 37
  const LetterS: byte := 115

  /** The formats `enter` passes to `msg`, as written: `"^%s^"` and `"%s"`. */
  const EchoTitle: seq<byte> := [Caret, Percent, LetterS, Caret]
  const EchoBody: seq<byte> := [Percent, LetterS]

  /** The formats `enter` evidently means, `"^%^"` and `"%"`: in the markup `%` alone inserts a string. */
  const EchoTitleFixed: seq<byte> := [Caret, Percent, Caret]
  const EchoBodyFixed: seq<byte> := [Percent]

  /** The arguments of the echo: the nick colour, the nick and the sent line. */
  function EchoArgs(color: Terminal.Color, nick: seq<byte>, line: seq<byte>): seq<Messages.Arg>
  {
    [Messages.Paint(color), Messages.Text(Some(nick)), Messages.Text(Some(line))]
  }

  /** What the echo's title should read: the nick between a colour switch on and off. */
  function EchoName(color: Terminal.Color, nick: seq<byte>): seq<byte>
  {
    Messages.ColorCode(color, Terminal.Default) + nick + Messages.ColorCode(Terminal.Default, Terminal.Default)
  }

  /**
   * As written, `%` inserts the string and the `s` after it is copied as
   * text, so the echo's title shows a stray `s` after the nick ...
   */
  lemma EchoTitleAsWritten(color: Terminal.Color, nick: seq<byte>, line: seq<byte>)
    ensures Messages.Format(EchoTitle, 0, Messages.Start, EchoArgs(color, nick, line), 0)
      == Some((Messages.ColorCode(color, Terminal.Default) + nick + [LetterS] + Messages.ColorCode(Terminal.Default, Terminal.Default), 2))
  {
    var args, t := EchoArgs(color, nick, line), EchoTitle;
    var on := Messages.Start.(fg := true, fgc := color);
    var first, code := Messages.ColorCode(color, Terminal.Default), Messages.ColorCode(Terminal.Default, Terminal.Default);
    assert Messages.Format(t, 4, Messages.Start, args, 2) == Some(([], 2));
    assert code + [] == code;
    assert Messages.Format(t, 3, on, args, 2) == Some((code, 2));
    assert Messages.Format(t, 2, on, args, 2) == Some(([LetterS] + code, 2));
    assert Messages.Format(t, 1, on, args, 1) == Some((nick + ([LetterS] + code), 2));
    assert first + (nick + ([LetterS] + code)) == first + nick + [LetterS] + code;
  }

  /** ... and its body a stray `s` after the line. */
  lemma EchoBodyAsWritten(color: Terminal.Color, nick: seq<byte>, line: seq<byte>)
    ensures Messages.Format(EchoBody, 0, Messages.Start, EchoArgs(color, nick, line), 2) == Some((line + [LetterS], 3))
  {
    var args, b := EchoArgs(color, nick, line), EchoBody;
    assert Messages.Format(b, 2, Messages.Start, args, 3) == Some(([], 3));
    assert [LetterS] + [] == [LetterS];
    assert Messages.Format(b, 1, Messages.Start, args, 3) == Some(([LetterS], 3));
  }

  /** With the intended title format the title is the coloured nick ... */
  lemma EchoTitleFixedReads(color: Terminal.Color, nick: seq<byte>, line: seq<byte>)
    ensures Messages.Format(EchoTitleFixed, 0, Messages.Start, EchoArgs(color, nick, line), 0) == Some((EchoName(color, nick), 2))
  {
    var args, t := EchoArgs(color, nick, line), EchoTitleFixed;
    var on := Messages.Start.(fg := true, fgc := color);
    var first, code := Messages.ColorCode(color, Terminal.Default), Messages.ColorCode(Terminal.Default, Terminal.Default);
    assert Messages.Format(t, 3, Messages.Start, args, 2) == Some(([], 2));
    assert code + [] == code;
    assert Messages.Format(t, 2, on, args, 2) == Some((code, 2));
    assert Messages.Format(t, 1, on, args, 1) == Some((nick + code, 2));
    assert first + (nick + code) == EchoName(color, nick);
  }

  /** ... and with the intended body format the body is the sent line itself. */
  lemma EchoBodyFixedReads(color: Terminal.Color, nick: seq<byte>, line: seq<byte>)
    ensures Messages.Format(EchoBodyFixed, 0, Messages.Start, EchoArgs(color, nick, line), 2) == Some((line, 3))
  {
    var args, b := EchoArgs(color, nick, line), EchoBodyFixed;
    assert Messages.Format(b, 1, Messages.Start, args, 3) == Some(([], 3));
    assert line + [] == line;
  }

  /** Everything `msg` needs to store the corrected echo of `line`, and what it then reads. */
  lemma EchoReady(color: Terminal.Color, nick: seq<byte>, line: seq<byte>)
    requires NoNul(nick) && NoNul(line) && 34 + |nick| + |line| <= Messages.BufferSize
    ensures NoNul(EchoTitleFixed) && NoNul(EchoBodyFixed) && Messages.StringArgs(EchoArgs(color, nick, line))
    ensures Messages.Format(EchoTitleFixed, 0, Messages.Start, EchoArgs(color, nick, line), 0) == Some((EchoName(color, nick), 2))
    ensures Messages.Format(EchoBodyFixed, 0, Messages.Start, EchoArgs(color, nick, line), 2) == Some((line, 3))
    ensures |EchoName(color, nick)| + |line| + 2 <= Messages.BufferSize
  {
    EchoTitleFixedReads(color, nick, line);
    EchoBodyFixedReads(color, nick, line);
    var args := EchoArgs(color, nick, line);
    assert forall j :: 0 <= j < |args| && args[j].Text? ==> j == 1 || j == 2;
  }

  /** `after` is `before` with one more message: not important, titled with the coloured nick, with `line` as its body. */
  predicate Echoed(before: seq<Messages.Message>, after: seq<Messages.Message>, color: Terminal.Color, nick: seq<byte>, line: seq<byte>)
  {
    && |after| == |before| + 1 && after[..|before|] == before
    && var m := after[|before|];
       && !m.important && m.body <= |m.data|
       && Messages.CString(m.data, 0) == EchoName(color, nick)
       && Messages.CString(m.data, m.body) == line
  }

  /** What the line-editing keys do to the input line. */
  predicate LineKey(a: Keys.Action)
  {
    a in {Keys.Backspace, Keys.Left, Keys.Right, Keys.GotoStart, Keys.GotoEnd, Keys.CutRest}
  }

  /** `backspace`, `left`, `right`, `goto_start`, `goto_end` and `cut_rest` on the input line. */
  function Edited(a: Keys.Action, e: Edit): (r: Edit)
    requires Good(e)
    ensures Good(r)
  {
    match a
    case Backspace => Backspaced(e)
    case Left => Lefted(e)
    case Right => Righted(e)
    case GotoStart => Edit(e.text, 0)
    case GotoEnd => Edit(e.text, |e.text|)
    case CutRest => Cut(e)
    case _ => e
  }

  class Buffer {
    var kind: Kind
    /** `activity`, which the client uses as a flag: set while the buffer has unseen messages. */
    var activity: bool
    var name: seq<byte>
    /** The network the buffer belongs to, as its index in the client's list. */
    var network: nat
    var messages: seq<Messages.Message>
    var input: seq<byte>
    var cursor: nat

    /** The input line and its cursor. */
    function Line(): Edit
      reads this`input, this`cursor
    {
      Edit(input, cursor)
    }

    ghost predicate Valid()
      reads this`input, this`cursor
    {
      Good(Line())
    }

    /** `backspace`. */
    method Backspace()
      requires Valid()
      modifies this`input, this`cursor
      ensures Line() == Backspaced(old(Line()))
    {
      if cursor == 0 {
        return;
      }
      var i := cursor - 1;
      while i > 0 && input[i - 1] != 0
        invariant 0 <= i < cursor && Back(input, i) == Back(input, cursor - 1)
        decreases i
      {
        i := i - 1;
      }
      // the memmove of the tail and `count -= cursor - i`
      input := input[..i] + input[cursor..];
      cursor := i;
    }

    /** `left`: `while (--*cursor != 0 && input[*cursor - 1] != '\0')`. */
    method Left()
      requires Valid()
      modifies this`cursor
      ensures Line() == Lefted(old(Line()))
    {
      if cursor == 0 {
        return;
      }
      ghost var c := cursor;
      cursor := cursor - 1;
      while cursor != 0 && input[cursor - 1] != 0
        invariant cursor < c && Back(input, cursor) == Back(input, c - 1)
        decreases cursor
      {
        cursor := cursor - 1;
      }
    }

    /** `right`: past the end of the current chunk (`strlen` plus its NUL). */
    method Right()
      requires Valid()
      modifies this`cursor
      ensures Line() == Righted(old(Line()))
    {
      if cursor == |input| {
        return;
      }
      cursor := NulFrom(input, cursor) + 1;
    }

    /** `goto_start`. */
    method GotoStart()
      modifies this`cursor
      ensures cursor == 0 && input == old(input)
    {
      cursor := 0;
    }

    /** `goto_end`. */
    method GotoEnd()
      modifies this`cursor
      ensures cursor == |input| && input == old(input)
    {
      cursor := |input|;
    }

    /** `cut_rest`: `count = cursor`. */
    method CutRest()
      requires Valid()
      modifies this`input
      ensures Line() == Cut(old(Line()))
    {
      input := input[..cursor];
    }

    /** A line-editing key on this buffer's input line. */
    method EditKey(a: Keys.Action)
      requires Valid() && LineKey(a)
      modifies this`input, this`cursor
      ensures Valid() && Line() == Edited(a, old(Line()))
    {
      if a == Keys.Backspace {
        Backspace();
      } else if a == Keys.Left {
        Left();
      } else if a == Keys.Right {
        Right();
      } else if a == Keys.GotoStart {
        GotoStart();
      } else if a == Keys.GotoEnd {
        GotoEnd();
      } else {
        CutRest();
      }
    }

    /** `handle_text`'s insertion: `strlen(s) + 1` bytes at the cursor, which moves past them. */
    method Insert(s: seq<byte>)
      requires Valid() && NoNul(s)
      modifies this`input, this`cursor
      ensures Line() == Inserted(old(Line()), s)
    {
      var n := |s| + 1;
      input := input[..cursor] + s + [0] + input[cursor..];
      cursor := cursor + n;
    }

    /** The echo of a non-empty input fits the 64 KiB buffer `msg` formats into. */
    predicate Fits(nick: seq<byte>)
      reads this`input
    {
      input != [] ==> 34 + |nick| + |Strip(input)| <= Messages.BufferSize
    }

    /**
     * The compaction loop of `enter`, in place: every non-NUL byte moves down
     * to the next free position and a NUL ends the line.  The result is the
     * line `enter` sends; the storage reads that line at its start.
     */
    static method Compact(t: seq<byte>) returns (a: seq<byte>, n: nat)
      requires t != [] && Chunked(t)
      ensures |a| == |t| && n < |a| && a[n] == 0
      ensures a[..n] == Strip(t)
    {
      a, n := t, 0;
      for i := 0 to |t|
        invariant |a| == |t| && n <= i
        invariant a[..n] == Strip(t[..i]) && a[i..] == t[i..]
      {
        assert t[..i + 1][..i] == t[..i];
        if a[i] != 0 {
          a := a[n := a[i]];
          n := n + 1;
        }
        assert a[..n] == Strip(t[..i]) + Keep(t[i]);
      }
      assert t[..|t|] == t;
      StripShorter(t);
      a := a[n := 0];
    }

    /**
     * `enter` with the echo formats corrected: an empty input does nothing;
     * otherwise the line without separators is sent, a message with the
     * coloured nick as title and the line as body is appended, and the input
     * is cleared.  The nick and its colour come from the connection and the
     * colour hash, which are not part of this model.
     */
    method Enter(nick: seq<byte>, color: Terminal.Color) returns (line: Option<seq<byte>>)
      requires Valid() && NoNul(nick) && Fits(nick)
      modifies this`input, this`cursor, this`messages
      ensures old(input) == [] ==> line == None && input == old(input) && cursor == old(cursor) && messages == old(messages)
      ensures old(input) != [] ==> line == Some(Strip(old(input))) && input == [] && cursor == 0
      ensures old(input) != [] ==> Echoed(old(messages), messages, color, nick, line.value)
    {
      if |input| == 0 {
        return None;
      }
      var a, n := Compact(input);
      var sent := a[..n];
      line := Some(sent);
      StripNoNul(input);
      EchoReady(color, nick, sent);
      var m := Messages.Msg(EchoTitleFixed, EchoBodyFixed, EchoArgs(color, nick, sent));
      messages := messages + [m];
      input := [];
      cursor := 0;
    }
  }
}
