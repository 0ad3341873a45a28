/**
 * What `draw_window` draws for one window and what `ui_draw` draws for the
 * screen.  A window shows, from its top, the messages of its buffer (or the
 * members of its channel) bottom-aligned above the status line, the status
 * line on its second-to-last row, and the prompt with the visible part of the
 * input line on its last row.  The terminal calls are the `Op`s of `UiText`.
 *
 * `irc_mynick`, `irc_myhost`, `irc_num_members`, `irc_all_members` and
 * `strftime` are not part of this model: what they return is part of the
 * `Pane` a window is drawn from.
 */
module UiWindow {
  import opened Bytes
  import opened Wrappers
  import opened Utf8
  import opened UiText
  import opened UiMessage
  import WindowTree
  import Terminal
  import Messages
  import Buffers

  /** The fields of a leaf window that `draw_window` reads. */
  datatype View = View(height: int, width: int, y: int, x: int, scroll: int, resize: bool, search: bool, nicks: bool)

  /**
   * What `draw_window` reads through a window's buffer: its kind, name,
   * messages and input line with the cursor, the name of its network, the
   * formatted time stamp of each message by index, and what the connection
   * reports: the own nick, the server host and the members of a channel.
   */
  datatype Pane = Pane(
    kind: Buffers.Kind, name: seq<byte>, network: seq<byte>,
    messages: seq<Messages.Message>, stamps: nat -> seq<byte>,
    input: seq<byte>, cursor: nat,
    nick: seq<byte>, host: seq<byte>, members: seq<seq<byte>>)

  /** Every message of `ms` has its body index inside its bytes. */
  predicate Stored(ms: seq<Messages.Message>)
  {
    forall k :: 0 <= k < |ms| ==> WellStored(ms[k])
  }

  // ---------------------------------------------------------------------
  // The compacted input

  /** Where the cursor of an input line falls once its NUL separators are dropped. */
  function CursorIn(data: seq<byte>, cursor: nat): (c: nat)
    ensures c <= |NonNul(data)|
    ensures 1 <= cursor <= |data| ==> NonNul(data)[..c] == NonNul(data[..cursor])
    ensures !(1 <= cursor <= |data|) ==> c == 0
  {
    if 1 <= cursor <= |data| then
      assert data == data[..cursor] + data[cursor..];
      NonNulAppend(data[..cursor], data[cursor..]);
      |NonNul(data[..cursor])|
    else 0
  }

  /**
   * The compaction loops of `draw_window`: the non-NUL bytes of the input in
   * order (`ib` and `input`), and the count of them pushed when the loop
   * passes the cursor (`cursor`; 0 when the cursor is 0 or past the end).
   */
  method Compact(data: seq<byte>, cursor: nat) returns (s: seq<byte>, c: nat)
    ensures s == NonNul(data) && c == CursorIn(data, cursor)
  {
    s, c := [], 0;
    for i := 0 to |data|
      invariant s == NonNul(data[..i])
      invariant c == if 1 <= cursor <= i then |NonNul(data[..cursor])| else 0
    {
      assert data[..i + 1][..i] == data[..i];
      if data[i] != 0 {
        s := s + [data[i]];
      }
      if i + 1 == cursor {
        c := |s|;
      }
    }
    assert data[..|data|] == data;
  }

  // ---------------------------------------------------------------------
  // The status line

  const ScrollTag: seq<byte> := [32, 40, 115, 99, 114, 111, 108, 108, 41]
  const ResizeTag: seq<byte> := [32, 40, 114, 101, 115, 105, 122, 101, 41]
  const SearchTag: seq<byte> := [32, 40, 115, 101, 97, 114, 99, 104, 41]
  const NicksTag: seq<byte> := [32, 40, 110, 105, 99, 107, 115, 41]

  /**
   * The start of the status line: the host for a server buffer,
   * `name@network (N users)` for a channel (`user` when there is one member),
   * `name@network` for a private buffer, as `snprintf` keeps them in 512 bytes.
   */
  function StatusBase(p: Pane): seq<byte>
  {
    match p.kind
    case Server => p.host
    case Channel =>
      var n := |p.members|;
      Clipped(p.name + [64] + p.network + [32, 40] + Decimal(n) + [32, 117, 115, 101, 114] + (if n == 1 then [] else [115]) + [41])
    case User => Clipped(p.name + [64] + p.network)
  }

  /** The status text: the start and a tag for each mode the window is in. */
  function Status(v: View, p: Pane): seq<byte>
  {
    StatusBase(p)
      + (if v.scroll > 0 then ScrollTag else [])
      + (if v.resize then ResizeTag else [])
      + (if v.search then SearchTag else [])
      + (if v.nicks then NicksTag else [])
  }

  /** `n` spaces; none when `n` is not positive. */
  function Spaces(n: int): (r: seq<byte>)
    ensures |r| == if n > 0 then n else 0
    ensures forall k :: 0 <= k < |r| ==> r[k] == 32
    decreases n
  {
    if n <= 0 then [] else [32] + Spaces(n - 1)
  }

  /** The status text followed by as many spaces as its width falls short of `width`. */
  function Padded(status: seq<byte>, width: int, wc: WcWidth): seq<byte>
  {
    status + Spaces(width - Width(status, 0, |status|, wc))
  }

  /** `while (width++ < w->width) status[n++] = ' '`. */
  method Pad(status: seq<byte>, width: int, wc: WcWidth) returns (r: seq<byte>)
    ensures r == Padded(status, width, wc)
  {
    var w := Utf8Width(status, |status|, wc);
    r := status;
    while w < width
      invariant Width(status, 0, |status|, wc) <= w
      invariant w < width ==> r == status + Spaces(w - Width(status, 0, |status|, wc))
      invariant w >= width ==> r == Padded(status, width, wc)
      decreases width - w
    {
      r := r + [32];
      w := w + 1;
      assert Spaces(w - Width(status, 0, |status|, wc)) == Spaces(w - 1 - Width(status, 0, |status|, wc)) + [32];
    }
  }

  /** A run of spaces is as wide as it is long. */
  lemma {:induction false} SpacesWidth(n: int, wc: WcWidth)
    requires wc(32) == 1
    ensures Width(Spaces(n), 0, |Spaces(n)|, wc) == |Spaces(n)|
    decreases n
  {
    if n > 0 {
      var s := Spaces(n);
      assert s == [32] + Spaces(n - 1);
      assert Decode(s, 0, |s|) == Unit(1, 32);
      assert Scan(s, 0, |s|, wc) == Printable(1, 1);
      WidthShift([32], Spaces(n - 1), 0, wc);
      SpacesWidth(n - 1, wc);
    }
  }

  /**
   * The padded status line is exactly as wide as the window, or as wide as
   * the status text when that is wider already.
   */
  lemma PaddedWidth(status: seq<byte>, width: int, wc: WcWidth)
    requires Whole(status, 0, wc) && wc(32) == 1
    ensures var r := Padded(status, width, wc);
      Width(r, 0, |r|, wc) == Max(Width(status, 0, |status|, wc), width)
  {
    var k := width - Width(status, 0, |status|, wc);
    WidthConcat(status, Spaces(k), 0, wc);
    SpacesWidth(k, wc);
  }

  // ---------------------------------------------------------------------
  // The horizontal scroll of the input line

  /** `space / 2` in C, which truncates toward zero. */
  function Step(space: int): int
  {
    WindowTree.CDiv(space, 2)
  }

  /**
   * The loop `while (cx - offset >= space) offset += step` from `offset`; it
   * runs only while the step is positive.
   */
  function OffsetFrom(cx: int, space: int, offset: int): int
    requires Step(space) > 0 || cx - offset < space
    decreases cx - offset - space
  {
    if cx - offset < space then offset else OffsetFrom(cx, space, offset + Step(space))
  }

  /**
   * The offset `draw_window` scrolls the input by; `None` when the cursor
   * column is past the field and the step is not positive, where the loop
   * never ends.
   */
  function ScrollOffset(cx: int, space: int): (r: Option<int>)
    ensures r.None? <==> cx >= space && Step(space) <= 0
  {
    if cx >= space && Step(space) <= 0 then None else Some(OffsetFrom(cx, space, 0))
  }

  /** After `j` turns of the offset loop the cursor column is still at or past the end of the field. */
  predicate Behind(cx: int, space: int, j: nat)
  {
    cx - j * Step(space) >= space
  }

  /** How many turns the offset loop takes: none when the cursor column is inside the field already. */
  function Turns(cx: int, space: int): nat
    requires cx < space || Step(space) > 0
  {
    if cx < space then 0 else (cx - space) / Step(space) + 1
  }

  lemma MulLeq(a: int, b: int, c: int)
    requires 0 <= a <= b && c >= 0
    ensures a * c <= b * c
  {
  }

  /** The loop turns exactly `Turns` times: every earlier turn leaves the cursor column behind, that one does not. */
  lemma TurnsLeast(cx: int, space: int)
    requires cx >= space && Step(space) > 0
    ensures !Behind(cx, space, Turns(cx, space))
    ensures forall j :: 0 <= j < Turns(cx, space) ==> Behind(cx, space, j)
  {
    var step, d := Step(space), cx - space;
    var q := d / step;
    assert q * step + d % step == d;
    assert (q + 1) * step == q * step + step;
    forall j | 0 <= j < Turns(cx, space) ensures Behind(cx, space, j) {
      MulLeq(j, q, step);
    }
  }

  /** From turn `j` on, the loop ends at `Turns` steps. */
  lemma {:induction false} OffsetTurns(cx: int, space: int, j: nat)
    requires cx >= space && Step(space) > 0 && j <= Turns(cx, space)
    ensures OffsetFrom(cx, space, j * Step(space)) == Turns(cx, space) * Step(space)
    decreases Turns(cx, space) - j
  {
    TurnsLeast(cx, space);
    if j < Turns(cx, space) {
      assert Behind(cx, space, j);
      assert (j + 1) * Step(space) == j * Step(space) + Step(space);
      OffsetTurns(cx, space, j + 1);
    }
  }

  /**
   * The offset is the least multiple of the step that brings the cursor
   * column into the field: one turn fewer leaves it at or past the end.  A
   * cursor column that is not negative then lies inside the field.
   */
  lemma OffsetLeast(cx: int, space: int)
    requires ScrollOffset(cx, space).Some?
    ensures var o, k := ScrollOffset(cx, space).value, Turns(cx, space);
      && o == k * Step(space)
      && !Behind(cx, space, k)
      && (forall j :: 0 <= j < k ==> Behind(cx, space, j))
      && (cx >= 0 ==> 0 <= cx - o < space)
  {
    if cx >= space {
      TurnsLeast(cx, space);
      OffsetTurns(cx, space, 0);
    }
  }

  /** The offset loop of `draw_window`; it stops where the C loop would spin. */
  method Offset(cx: int, space: int) returns (r: Option<int>)
    ensures r == ScrollOffset(cx, space)
  {
    var step := Step(space);
    if cx >= space && step <= 0 {
      return None;
    }
    var offset := 0;
    while cx - offset >= space
      invariant step > 0 || cx - offset < space
      invariant OffsetFrom(cx, space, offset) == OffsetFrom(cx, space, 0)
      decreases cx - offset - space
    {
      offset := offset + step;
    }
    return Some(offset);
  }

  // ---------------------------------------------------------------------
  // The message loop

  /** The column of the `"| "` separator, relative to the window. */
  const Gutter := TimeLen + 1 + MaxNick + 1

  /** A zeroed `struct tm` formats as `00:00:00`; the member list uses one. */
  const Midnight: seq<byte> := [48, 48, 58, 48, 48, 58, 48, 48]

  /**
   * Whether the loop hands a message to `draw_message`: always when no search
   * is on, otherwise when the needle occurs in its body or, for messages but
   * not for members, in its title (`strstr` finds an empty needle anywhere).
   */
  predicate Shows(search: bool, needle: seq<byte>, m: Messages.Message, titles: bool)
    requires WellStored(m)
  {
    !search || Occurs(needle, Messages.CString(m.data, m.body)) || (titles && Occurs(needle, Messages.CString(m.data, 0)))
  }

  /** The time stamp of every member. */
  function MemberStamp(k: nat): seq<byte>
  {
    Midnight
  }

  /** The message `draw_window` builds for member `i` of a channel: its number as the title, its nick as the body. */
  function Member(i: nat, nick: seq<byte>): (m: Messages.Message)
    ensures WellStored(m) && !m.important
  {
    Messages.Message(false, Decimal(i + 1) + [0] + nick + [0], |Decimal(i + 1)| + 1)
  }

  /** The member list as messages. */
  function Members(nicks: seq<seq<byte>>): (ms: seq<Messages.Message>)
    ensures |ms| == |nicks| && Stored(ms)
    ensures forall i :: 0 <= i < |nicks| ==> ms[i] == Member(i, nicks[i])
  {
    seq(|nicks|, i requires 0 <= i < |nicks| => Member(i, nicks[i]))
  }

  /**
   * `draw_message(w, m, row)` for the window being drawn, with the time stamp
   * of the entry: its calls and its block count, as `MessageOps` gives them.
   */
  type Drawer = (Messages.Message, int, seq<byte>) -> Option<Drawn>

  /** `draw_message` for the window `v`. */
  function DrawerOf(v: View, wc: WcWidth): Drawer
  {
    (m: Messages.Message, row: int, t: seq<byte>) => if WellStored(m) then MessageOps(v.y, v.x, v.width, m, row, t, wc) else None
  }

  /** Every message `draw` draws is bottom-aligned on its row of a window at (`wy`, `wx`). */
  ghost predicate Placing(draw: Drawer, wy: int, wx: int)
  {
    forall m: Messages.Message, row: int, t: seq<byte> :: draw(m, row, t).Some? ==> Placed(draw(m, row, t).value, wy, wx, row)
  }

  lemma DrawerPlaces(v: View, wc: WcWidth)
    ensures Placing(DrawerOf(v, wc), v.y, v.x)
  {
    forall m: Messages.Message, row: int, t: seq<byte> | DrawerOf(v, wc)(m, row, t).Some?
      ensures Placed(DrawerOf(v, wc)(m, row, t).value, v.y, v.x, row)
    {
    }
  }

  /**
   * The loop `while (i >= 0 && row >= 0)` from entry `i` of `ms`, newest
   * first, with `row` rows of the window left: each shown entry is drawn
   * bottom-aligned on `row`, which then moves up by its block count.
   * `None` where a `draw_message` is undefined.
   */
  function HistoryFrom(ms: seq<Messages.Message>, stamps: nat -> seq<byte>, titles: bool, i: int, row: int,
                       search: bool, needle: seq<byte>, draw: Drawer): Option<seq<Op>>
    requires i < |ms| && Stored(ms)
    decreases i + 1
  {
    if i < 0 || row < 0 then Some([])
    else if Shows(search, needle, ms[i], titles) then
      var d := draw(ms[i], row, stamps(i));
      if d.None? then None else Then(d.value.ops, HistoryFrom(ms, stamps, titles, i - 1, row - d.value.rows, search, needle, draw))
    else HistoryFrom(ms, stamps, titles, i - 1, row, search, needle, draw)
  }

  /** The message loop of `draw_window` (both of its branches). */
  method History(ms: seq<Messages.Message>, stamps: nat -> seq<byte>, titles: bool, i0: int, row0: int,
                 search: bool, needle: seq<byte>, draw: Drawer) returns (r: Option<seq<Op>>)
    requires i0 < |ms| && Stored(ms)
    ensures r == HistoryFrom(ms, stamps, titles, i0, row0, search, needle, draw)
  {
    var i, row := i0, row0;
    var ops: seq<Op> := [];
    var all := HistoryFrom(ms, stamps, titles, i0, row0, search, needle, draw);
    if all.Some? {
      assert ops + all.value == all.value;
    }
    while i >= 0 && row >= 0
      invariant i < |ms|
      invariant all == Then(ops, HistoryFrom(ms, stamps, titles, i, row, search, needle, draw))
      decreases i + 1
    {
      if Shows(search, needle, ms[i], titles) {
        var d := draw(ms[i], row, stamps(i));
        if d.None? {
          return None;
        }
        ThenThen(ops, d.value.ops, HistoryFrom(ms, stamps, titles, i - 1, row - d.value.rows, search, needle, draw));
        ops := ops + d.value.ops;
        row := row - d.value.rows;
      }
      i := i - 1;
    }
    assert ops + [] == ops;
    return Some(ops);
  }

  /** Every row of `rs` lies in `lo..hi`. */
  predicate Within(rs: seq<int>, lo: int, hi: int)
  {
    forall k :: 0 <= k < |rs| ==> lo <= rs[k] <= hi
  }

  /** Rows within `lo..hi` followed by rows within `lo..hi'`, where `hi' <= hi`, are all within `lo..hi`. */
  lemma WithinJoin(a: seq<int>, b: seq<int>, lo: int, hi': int, hi: int)
    requires Within(a, lo, hi) && Within(b, lo, hi') && hi' <= hi
    ensures Within(a + b, lo, hi)
  {
    assert forall k :: |a| <= k < |a + b| ==> (a + b)[k] == b[k - |a|];
  }

  /** A message placed on `row` draws its separators on rows `wy..wy + row` and its header on `wy..wy + row + 1`. */
  lemma PlacedRows(d: Drawn, wy: int, wx: int, row: int)
    requires Placed(d, wy, wx, row)
    ensures Within(MovesAt(d.ops, wx + Gutter), wy, wy + row) && Within(MovesAt(d.ops, wx), wy, wy + row + 1)
  {
  }

  /**
   * The calls `ops` keep above `row` of a window at (`wy`, `wx`): their
   * separators on rows `wy..wy + row`, their headers on rows `wy..wy + row + 1`.
   */
  predicate Inside(ops: seq<Op>, wy: int, wx: int, row: int)
  {
    Within(MovesAt(ops, wx + Gutter), wy, wy + row) && Within(MovesAt(ops, wx), wy, wy + row + 1)
  }

  /** A placed message followed by calls drawn above it keeps inside the window. */
  lemma ShownRows(d: Drawn, rest: seq<Op>, wy: int, wx: int, row: int)
    requires Placed(d, wy, wx, row) && Inside(rest, wy, wx, row - d.rows)
    ensures Inside(d.ops + rest, wy, wx, row)
  {
    PlacedRows(d, wy, wx, row);
    MovesAppend(d.ops, rest, wx + Gutter);
    MovesAppend(d.ops, rest, wx);
    WithinJoin(MovesAt(d.ops, wx + Gutter), MovesAt(rest, wx + Gutter), wy, wy + row - d.rows, wy + row);
    WithinJoin(MovesAt(d.ops, wx), MovesAt(rest, wx), wy, wy + row - d.rows + 1, wy + row + 1);
  }

  /**
   * The loop draws inside the window from its top down to `row`: the
   * separators on rows `y..y + row`, and the headers on rows `y..y + row + 1`
   * (one row further for a message with no block).
   */
  lemma {:induction false} HistoryRows(ms: seq<Messages.Message>, stamps: nat -> seq<byte>, titles: bool, i: int, row: int,
                                      search: bool, needle: seq<byte>, draw: Drawer, wy: int, wx: int)
    requires i < |ms| && Stored(ms) && Placing(draw, wy, wx)
    ensures var r := HistoryFrom(ms, stamps, titles, i, row, search, needle, draw);
      r.Some? ==> Inside(r.value, wy, wx, row)
    decreases i + 1
  {
    if i >= 0 && row >= 0 {
      if Shows(search, needle, ms[i], titles) {
        var d := draw(ms[i], row, stamps(i));
        if d.Some? {
          var row' := row - d.value.rows;
          HistoryRows(ms, stamps, titles, i - 1, row', search, needle, draw, wy, wx);
          var rest := HistoryFrom(ms, stamps, titles, i - 1, row', search, needle, draw);
          if rest.Some? {
            ShownRows(d.value, rest.value, wy, wx, row);
          }
        }
      } else {
        HistoryRows(ms, stamps, titles, i - 1, row, search, needle, draw, wy, wx);
      }
    }
  }

  // ---------------------------------------------------------------------
  // One window

  /** What drawing a window leaves behind: its terminal calls and the cursor position it stores in `*y`, `*x`. */
  datatype Painted = Painted(ops: seq<Op>, y: int, x: int)

  /** The colours of the status line. */
  const StatusVideo := Terminal.Normal.(fg := Terminal.Color(235, 235, 235), bg := Terminal.Color(45, 45, 45))

  /** The columns of the prompt `"(nick) "`. */
  function PromptWidth(nick: seq<byte>, wc: WcWidth): int
  {
    Width(nick, 0, |nick|, wc) + 3
  }

  /**
   * The message loop of a window: the members of its channel, numbered, when
   * it lists them, otherwise its messages, newest at the bottom, starting
   * `scroll` entries above the newest.  A search matches the input line.
   */
  function HistoryOps(v: View, p: Pane, draw: Drawer): Option<seq<Op>>
    requires Stored(p.messages) && v.scroll >= 0
  {
    var needle := NonNul(p.input);
    if v.nicks && p.kind == Buffers.Channel then
      HistoryFrom(Members(p.members), MemberStamp, false, |p.members| - (v.scroll + 1), v.height - 3, v.search, needle, draw)
    else
      HistoryFrom(p.messages, p.stamps, true, |p.messages| - (v.scroll + 1), v.height - 3, v.search, needle, draw)
  }

  /** The status text, padded with spaces to the window's width. */
  function StatusLine(v: View, p: Pane, wc: WcWidth): seq<byte>
  {
    Padded(Status(v, p), v.width, wc)
  }

  /** The status line `status` on the second-to-last row, then the prompt `"(nick) "` at the start of the last row. */
  function BarOps(v: View, status: seq<byte>, nick: seq<byte>): seq<Op>
  {
    [Move(v.y + v.height - 2, v.x), Write(StatusVideo, status)] + MvPrintf(v.y + v.height - 1, v.x, Terminal.Normal, [40] + nick + [41, 32])
  }

  /**
   * On input without colour codes, `utf8_fit` skips a part at most `offset`
   * columns wide and keeps a visible part at most `space` columns wide.
   */
  lemma FieldFits(s: seq<byte>, offset: int, space: int, wc: WcWidth)
    requires forall k :: 0 <= k < |s| ==> s[k] != 3
    requires offset >= 0 && space >= 0
    ensures var a := FitFrom(s, 0, offset, wc).end;
      Width(s, 0, a, wc) <= offset && Width(s, a, FitFrom(s, a, space, wc).end, wc) <= space
  {
    FitWidth(s, 0, offset, wc);
    FitWidth(s, FitFrom(s, 0, offset, wc).end, space, wc);
  }

  /**
   * The compacted input `s` scrolled by `offset` columns, after a prompt `pw`
   * columns wide on row `y` from column `x` of a window `width` columns wide:
   * the part `utf8_fit` keeps after skipping the offset is written, and the
   * cursor goes to the column `cx` of the cursor, less the offset.
   */
  function Scrolled(s: seq<byte>, cx: int, offset: int, pw: int, y: int, x: int, width: int, wc: WcWidth): Painted
  {
    var a := FitFrom(s, 0, offset, wc).end;
    var b := FitFrom(s, a, width - pw, wc).end;
    Painted([Write(Terminal.Normal, s[a..b])], y, x + pw + cx - offset)
  }

  /**
   * The compacted input `s` with the cursor after byte `c`, after the prompt
   * of `nick`: scrolled by the offset of the cursor's column.  `None` where
   * the offset loop never ends.
   */
  function InputAt(s: seq<byte>, c: nat, nick: seq<byte>, y: int, x: int, width: int, wc: WcWidth): Option<Painted>
    requires c <= |s|
  {
    var cx, pw := Width(s, 0, c, wc), PromptWidth(nick, wc);
    var o := ScrollOffset(cx, width - pw);
    if o.None? then None else Some(Scrolled(s, cx, o.value, pw, y, x, width, wc))
  }

  /** The input line after the prompt, and the cursor; with no input the cursor follows the prompt. */
  function InputOps(v: View, p: Pane, wc: WcWidth): Option<Painted>
  {
    var y := v.y + v.height - 1;
    if p.input == [] then Some(Painted([], y, v.x + |p.nick| + 3))
    else InputAt(NonNul(p.input), CursorIn(p.input, p.cursor), p.nick, y, v.x, v.width, wc)
  }

  /** The history, then the status line and the prompt, then the input; `None` when either end is undefined. */
  function Assemble(h: Option<seq<Op>>, bar: seq<Op>, i: Option<Painted>): Option<Painted>
  {
    if h.None? || i.None? then None else Some(Painted(h.value + bar + i.value.ops, i.value.y, i.value.x))
  }

  /** A leaf with the status line `status`: history, status line, prompt and input, in that order. */
  function LeafWith(v: View, p: Pane, draw: Drawer, status: seq<byte>, wc: WcWidth): Option<Painted>
    requires Stored(p.messages) && v.scroll >= 0
  {
    Assemble(HistoryOps(v, p, draw), BarOps(v, status, p.nick), InputOps(v, p, wc))
  }

  /** `draw_window` on a leaf, `draw` being `draw_message` for it. */
  function LeafOps(v: View, p: Pane, draw: Drawer, wc: WcWidth): Option<Painted>
    requires Stored(p.messages) && v.scroll >= 0
  {
    LeafWith(v, p, draw, StatusLine(v, p, wc), wc)
  }

  /** The message loop of `draw_window`, the search needle being the compacted input (`ib`). */
  method DrawHistory(v: View, p: Pane, draw: Drawer) returns (r: Option<seq<Op>>)
    requires Stored(p.messages) && v.scroll >= 0
    ensures r == HistoryOps(v, p, draw)
  {
    var ib, _ := Compact(p.input, 0);
    var row := v.height - 3;
    if v.nicks && p.kind == Buffers.Channel {
      r := History(Members(p.members), MemberStamp, false, |p.members| - (v.scroll + 1), row, v.search, ib, draw);
    } else {
      r := History(p.messages, p.stamps, true, |p.messages| - (v.scroll + 1), row, v.search, ib, draw);
    }
  }

  /** The two `utf8_fit` calls of `draw_window` and the write of what they keep. */
  method Shift(s: seq<byte>, cx: int, offset: int, pw: int, y: int, x: int, width: int, wc: WcWidth) returns (r: Painted)
    ensures r == Scrolled(s, cx, offset, pw, y, x, width, wc)
  {
    var a := Utf8Fit(s, 0, offset, wc);
    var b := Utf8Fit(s, a, width - pw, wc);
    r := Painted([Write(Terminal.Normal, s[a..a + b])], y, x + pw + cx - offset);
  }

  /** The scrolled input of `draw_window`, from `utf8_width` of the cursor to the cursor position. */
  method ScrollInput(s: seq<byte>, c: nat, nick: seq<byte>, y: int, x: int, width: int, wc: WcWidth) returns (r: Option<Painted>)
    requires c <= |s|
    ensures r == InputAt(s, c, nick, y, x, width, wc)
  {
    var cx := Utf8Width(s, c, wc);
    var nw := Utf8Width(nick, |nick|, wc);
    var promptWidth := nw + 3;
    var offset := Offset(cx, width - promptWidth);
    if offset.None? {
      return None;
    }
    var shown := Shift(s, cx, offset.value, promptWidth, y, x, width, wc);
    return Some(shown);
  }

  /** The input part of `draw_window`, from the compaction loop to the cursor position. */
  method DrawInput(v: View, p: Pane, wc: WcWidth) returns (r: Option<Painted>)
    ensures r == InputOps(v, p, wc)
  {
    var y := v.y + v.height - 1;
    if |p.input| == 0 {
      return Some(Painted([], y, v.x + |p.nick| + 3));
    }
    var s, cursor := Compact(p.input, p.cursor);
    r := ScrollInput(s, cursor, p.nick, y, v.x, v.width, wc);
  }

  /** The status line, padded by its loop, and the prompt. */
  method DrawBar(v: View, p: Pane, wc: WcWidth) returns (bar: seq<Op>)
    ensures bar == BarOps(v, StatusLine(v, p, wc), p.nick)
  {
    var status := Pad(Status(v, p), v.width, wc);
    bar := [Move(v.y + v.height - 2, v.x), Write(StatusVideo, status)];
    bar := bar + MvPrintf(v.y + v.height - 1, v.x, Terminal.Normal, [40] + p.nick + [41, 32]);
  }

  /** The leaf case of `draw_window`. */
  method DrawLeaf(v: View, p: Pane, draw: Drawer, wc: WcWidth) returns (r: Option<Painted>)
    requires Stored(p.messages) && v.scroll >= 0
    ensures r == LeafOps(v, p, draw, wc)
  {
    var hist := DrawHistory(v, p, draw);
    if hist.None? {
      return None;
    }
    var bar := DrawBar(v, p, wc);
    var input := DrawInput(v, p, wc);
    if input.None? {
      return None;
    }
    return Some(Painted(hist.value + bar + input.value.ops, input.value.y, input.value.x));
  }

  /**
   * The cursor of a window goes to its last row: right after the prompt when
   * there is no input, otherwise inside the input field, between the end of
   * the prompt and the right edge of the window.  The input only writes.
   */
  lemma InputCursor(v: View, p: Pane, wc: WcWidth)
    ensures var i := InputOps(v, p, wc);
      i.Some? ==>
        && i.value.y == v.y + v.height - 1
        && AllWrites(i.value.ops)
        && (p.input == [] ==> i.value.x == v.x + |p.nick| + 3)
        && (p.input != [] ==> v.x + PromptWidth(p.nick, wc) <= i.value.x < v.x + v.width)
  {
    var i := InputOps(v, p, wc);
    if i.Some? && p.input != [] {
      var s, c := NonNul(p.input), CursorIn(p.input, p.cursor);
      var cx, pw := Width(s, 0, c, wc), PromptWidth(p.nick, wc);
      OffsetLeast(cx, v.width - pw);
    }
  }

  /** The status line and the prompt each move once, to the left edge of their rows. */
  lemma BarMoves(v: View, status: seq<byte>, nick: seq<byte>)
    ensures MovesAt(BarOps(v, status, nick), v.x) == [v.y + v.height - 2, v.y + v.height - 1]
    ensures MovesAt(BarOps(v, status, nick), v.x + Gutter) == []
  {
    var st := [Move(v.y + v.height - 2, v.x), Write(StatusVideo, status)];
    var pr := MvPrintf(v.y + v.height - 1, v.x, Terminal.Normal, [40] + nick + [41, 32]);
    MovesAppend(st, pr, v.x);
    MovesAppend(st, pr, v.x + Gutter);
    MovesPrintf(v.y + v.height - 1, v.x, Terminal.Normal, [40] + nick + [41, 32], v.x);
    MovesPrintf(v.y + v.height - 1, v.x, Terminal.Normal, [40] + nick + [41, 32], v.x + Gutter);
    assert st == [Move(v.y + v.height - 2, v.x)] + [Write(StatusVideo, status)];
    MovesAppend([Move(v.y + v.height - 2, v.x)], [Write(StatusVideo, status)], v.x);
    MovesAppend([Move(v.y + v.height - 2, v.x)], [Write(StatusVideo, status)], v.x + Gutter);
  }

  /** The message loop of a window keeps above its status line. */
  lemma HistoryInside(v: View, p: Pane, draw: Drawer)
    requires Stored(p.messages) && v.scroll >= 0 && Placing(draw, v.y, v.x)
    ensures var h := HistoryOps(v, p, draw);
      h.Some? ==> Inside(h.value, v.y, v.x, v.height - 3)
  {
    var needle := NonNul(p.input);
    if v.nicks && p.kind == Buffers.Channel {
      var ms, i := Members(p.members), |p.members| - (v.scroll + 1);
      assert HistoryOps(v, p, draw) == HistoryFrom(ms, MemberStamp, false, i, v.height - 3, v.search, needle, draw);
      HistoryRows(ms, MemberStamp, false, i, v.height - 3, v.search, needle, draw, v.y, v.x);
    } else {
      var i := |p.messages| - (v.scroll + 1);
      assert HistoryOps(v, p, draw) == HistoryFrom(p.messages, p.stamps, true, i, v.height - 3, v.search, needle, draw);
      HistoryRows(p.messages, p.stamps, true, i, v.height - 3, v.search, needle, draw, v.y, v.x);
    }
  }

  /**
   * The rows a window of `height` rows at (`y`, `x`) moves to: the separators
   * of its messages on rows `y..y + height - 3`; at its left edge the headers
   * of its messages on rows `y..y + height - 2`, then the status line on row
   * `y + height - 2` and the prompt on the last row.
   */
  predicate Stacked(ops: seq<Op>, y: int, x: int, height: int)
  {
    && Within(MovesAt(ops, x + Gutter), y, y + height - 3)
    && var m := MovesAt(ops, x);
       && |m| >= 2 && m[|m| - 2..] == [y + height - 2, y + height - 1]
       && Within(m[..|m| - 2], y, y + height - 2)
  }

  /** History inside the window, then the status line and the prompt, then calls that only write. */
  lemma AssembleStacked(h: Option<seq<Op>>, bar: seq<Op>, i: Option<Painted>, y: int, x: int, height: int)
    requires h.Some? ==> Inside(h.value, y, x, height - 3)
    requires MovesAt(bar, x) == [y + height - 2, y + height - 1] && MovesAt(bar, x + Gutter) == []
    requires i.Some? ==> AllWrites(i.value.ops)
    ensures var r := Assemble(h, bar, i);
      r.Some? ==> Stacked(r.value.ops, y, x, height)
  {
    if h.Some? && i.Some? {
      var tail := i.value.ops;
      MovesNone(tail, x);
      MovesNone(tail, x + Gutter);
      MovesAppend(h.value + bar, tail, x);
      MovesAppend(h.value + bar, tail, x + Gutter);
      MovesAppend(h.value, bar, x);
      MovesAppend(h.value, bar, x + Gutter);
      var m := MovesAt(h.value + bar + tail, x);
      assert m == MovesAt(h.value, x) + [y + height - 2, y + height - 1];
      assert m[..|m| - 2] == MovesAt(h.value, x);
      assert MovesAt(h.value + bar + tail, x + Gutter) == MovesAt(h.value, x + Gutter);
    }
  }

  /** `AssembleStacked` with its conditions as premises. */
  lemma AssembleStackedIf(h: Option<seq<Op>>, bar: seq<Op>, i: Option<Painted>, y: int, x: int, height: int)
    ensures
      && (h.Some? ==> Inside(h.value, y, x, height - 3))
      && MovesAt(bar, x) == [y + height - 2, y + height - 1] && MovesAt(bar, x + Gutter) == []
      && (i.Some? ==> AllWrites(i.value.ops))
      && Assemble(h, bar, i).Some?
      ==> Stacked(Assemble(h, bar, i).value.ops, y, x, height)
  {
    if
      && (h.Some? ==> Inside(h.value, y, x, height - 3))
      && MovesAt(bar, x) == [y + height - 2, y + height - 1] && MovesAt(bar, x + Gutter) == []
      && (i.Some? ==> AllWrites(i.value.ops))
    {
      AssembleStacked(h, bar, i, y, x, height);
    }
  }

  /** A window with any status line draws its rows as `Stacked` gives them. */
  lemma LeafWithRows(v: View, p: Pane, draw: Drawer, status: seq<byte>, wc: WcWidth)
    requires Stored(p.messages) && v.scroll >= 0 && Placing(draw, v.y, v.x)
    ensures var r := LeafWith(v, p, draw, status, wc);
      r.Some? ==> Stacked(r.value.ops, v.y, v.x, v.height)
  {
    var h, bar, i := HistoryOps(v, p, draw), BarOps(v, status, p.nick), InputOps(v, p, wc);
    HistoryInside(v, p, draw);
    InputCursor(v, p, wc);
    BarMoves(v, status, p.nick);
    AssembleStackedIf(h, bar, i, v.y, v.x, v.height);
  }

  /** Where a window draws: its rows as `Stacked` gives them. */
  lemma LeafRows(v: View, p: Pane, draw: Drawer, wc: WcWidth)
    requires Stored(p.messages) && v.scroll >= 0 && Placing(draw, v.y, v.x)
    ensures var r := LeafOps(v, p, draw, wc);
      r.Some? ==> Stacked(r.value.ops, v.y, v.x, v.height)
  {
    LeafWithRows(v, p, draw, StatusLine(v, p, wc), wc);
  }

  /** Where a window leaves the cursor: where `InputCursor` places it. */
  lemma LeafCursor(v: View, p: Pane, draw: Drawer, wc: WcWidth)
    requires Stored(p.messages) && v.scroll >= 0
    ensures var r := LeafOps(v, p, draw, wc);
      r.Some? ==>
        && r.value.y == v.y + v.height - 1
        && (p.input == [] ==> r.value.x == v.x + |p.nick| + 3)
        && (p.input != [] ==> v.x + PromptWidth(p.nick, wc) <= r.value.x < v.x + v.width)
  {
    InputCursor(v, p, wc);
  }

  // ---------------------------------------------------------------------
  // The window tree and the screen

  /** The window of leaf `nd` as `draw_window` reads it; no code of the client ever sets `search` or `nicks`. */
  function ViewOf(nd: WindowTree.Node): View
    requires nd.payload.Leaf?
  {
    View(nd.height, nd.width, nd.y, nd.x, nd.payload.scroll, nd.payload.resize, false, false)
  }

  /** The leaf case of `draw_window`, given the window and what it reads through its buffer. */
  type Painter = (View, Pane) -> Option<Painted>

  /**
   * `draw_window` on a leaf with `mk_wcwidth` as `wc`.  It is `None` where the
   * leaf case is undefined, which `Drawable` excludes for the window tree.
   */
  function PainterOf(wc: WcWidth): Painter
  {
    (v: View, p: Pane) => if Stored(p.messages) && v.scroll >= 0 then LeafOps(v, p, DrawerOf(v, wc), wc) else None
  }

  /** What `LeafRows` and `LeafCursor` prove of a drawn window. */
  predicate Fits(r: Painted, v: View, p: Pane, wc: WcWidth)
  {
    && Stacked(r.ops, v.y, v.x, v.height)
    && r.y == v.y + v.height - 1
    && (p.input == [] ==> r.x == v.x + |p.nick| + 3)
    && (p.input != [] ==> v.x + PromptWidth(p.nick, wc) <= r.x < v.x + v.width)
  }

  /** Every window `paint` draws fits the window. */
  ghost predicate Painting(paint: Painter, wc: WcWidth)
  {
    forall v: View, p: Pane :: paint(v, p).Some? ==> Fits(paint(v, p).value, v, p, wc)
  }

  lemma PainterPaints(wc: WcWidth)
    ensures Painting(PainterOf(wc), wc)
  {
    forall v: View, p: Pane | PainterOf(wc)(v, p).Some?
      ensures Fits(PainterOf(wc)(v, p).value, v, p, wc)
    {
      DrawerPlaces(v, wc);
      LeafRows(v, p, DrawerOf(v, wc), wc);
      LeafCursor(v, p, DrawerOf(v, wc), wc);
    }
  }

  /** Every leaf of the arena shows a buffer. */
  predicate Bound(ns: seq<WindowTree.Node>)
  {
    forall k :: 0 <= k < |ns| && ns[k].payload.Leaf? ==> ns[k].payload.buffer.Some?
  }

  /**
   * Every leaf of the arena shows a buffer whose messages are stored, and
   * scrolls by a count that is not negative.
   */
  predicate Drawable(ns: seq<WindowTree.Node>, panes: nat -> Pane)
  {
    && Bound(ns)
    && forall k :: 0 <= k < |ns| && ns[k].payload.Leaf? ==>
         ns[k].payload.scroll >= 0 && Stored(panes(ns[k].payload.buffer.value).messages)
  }

  /** One drawing after another: all their calls, and the cursor the second leaves. */
  function Join(a: Option<Painted>, b: Option<Painted>): Option<Painted>
  {
    if a.None? || b.None? then None else Some(Painted(a.value.ops + b.value.ops, b.value.y, b.value.x))
  }

  lemma JoinAssoc(a: Option<Painted>, b: Option<Painted>, c: Option<Painted>)
    ensures Join(Join(a, b), c) == Join(a, Join(b, c))
  {
    if a.Some? && b.Some? && c.Some? {
      assert a.value.ops + b.value.ops + c.value.ops == a.value.ops + (b.value.ops + c.value.ops);
    }
  }

  /** Leaf `k` drawn with the pane of its buffer. */
  function PaintLeaf(ns: seq<WindowTree.Node>, k: nat, panes: nat -> Pane, paint: Painter): Option<Painted>
    requires k < |ns| && ns[k].payload.Leaf? && ns[k].payload.buffer.Some?
  {
    paint(ViewOf(ns[k]), panes(ns[k].payload.buffer.value))
  }

  /**
   * `draw_window(w, &y, &x)`: a split draws its first child, then its second,
   * which leaves the cursor; a leaf is drawn by `paint`.
   */
  function TreeOps(ns: seq<WindowTree.Node>, n: nat, panes: nat -> Pane, paint: Painter): Option<Painted>
    requires WindowTree.Structural(WindowTree.Links(ns)) && WindowTree.Live(WindowTree.Links(ns), n) && Bound(ns)
    decreases |ns| - n
  {
    if ns[n].payload.Leaf? then PaintLeaf(ns, n, panes, paint)
    else
      assert WindowTree.ChildrenOk(WindowTree.Links(ns), n);
      Join(TreeOps(ns, ns[n].payload.one, panes, paint), TreeOps(ns, ns[n].payload.two, panes, paint))
  }

  /** The leaves `ls` drawn one after another, from left to right. */
  function Sequenced(ns: seq<WindowTree.Node>, ls: seq<nat>, panes: nat -> Pane, paint: Painter): Option<Painted>
    requires |ls| >= 1 && Bound(ns)
    requires forall i :: 0 <= i < |ls| ==> ls[i] < |ns| && ns[ls[i]].payload.Leaf?
    decreases |ls|
  {
    if |ls| == 1 then PaintLeaf(ns, ls[0], panes, paint)
    else Join(PaintLeaf(ns, ls[0], panes, paint), Sequenced(ns, ls[1..], panes, paint))
  }

  lemma {:induction false} SequencedAppend(ns: seq<WindowTree.Node>, a: seq<nat>, b: seq<nat>, panes: nat -> Pane, paint: Painter)
    requires |a| >= 1 && |b| >= 1 && Bound(ns)
    requires forall i :: 0 <= i < |a| ==> a[i] < |ns| && ns[a[i]].payload.Leaf?
    requires forall i :: 0 <= i < |b| ==> b[i] < |ns| && ns[b[i]].payload.Leaf?
    ensures forall i :: 0 <= i < |a + b| ==> (a + b)[i] < |ns| && ns[(a + b)[i]].payload.Leaf?
    ensures Sequenced(ns, a + b, panes, paint) == Join(Sequenced(ns, a, panes, paint), Sequenced(ns, b, panes, paint))
    decreases |a|
  {
    assert forall i :: 0 <= i < |a + b| ==> (a + b)[i] == if i < |a| then a[i] else b[i - |a|];
    if |a| > 1 {
      assert (a + b)[1..] == a[1..] + b;
      SequencedAppend(ns, a[1..], b, panes, paint);
      JoinAssoc(PaintLeaf(ns, a[0], panes, paint), Sequenced(ns, a[1..], panes, paint), Sequenced(ns, b, panes, paint));
    }
  }

  /**
   * Drawing a subtree draws its leaves in order, first children first, and
   * leaves the cursor where its last leaf puts it.
   */
  lemma {:induction false} TreeLeaves(ns: seq<WindowTree.Node>, n: nat, panes: nat -> Pane, paint: Painter)
    requires WindowTree.Structural(WindowTree.Links(ns)) && WindowTree.Live(WindowTree.Links(ns), n) && Bound(ns)
    ensures var ls := WindowTree.Leaves(WindowTree.Links(ns), n);
      && (forall i :: 0 <= i < |ls| ==> ls[i] < |ns| && ns[ls[i]].payload.Leaf?)
      && TreeOps(ns, n, panes, paint) == Sequenced(ns, ls, panes, paint)
    decreases |ns| - n
  {
    var links := WindowTree.Links(ns);
    var ls := WindowTree.Leaves(links, n);
    assert forall i :: 0 <= i < |ls| ==> WindowTree.IsLeaf(links, ls[i]);
    if ns[n].payload.Split? {
      WindowTree.LeavesOfSplit(links, n);
      var one, two := ns[n].payload.one, ns[n].payload.two;
      TreeLeaves(ns, one, panes, paint);
      TreeLeaves(ns, two, panes, paint);
      SequencedAppend(ns, WindowTree.Leaves(links, one), WindowTree.Leaves(links, two), panes, paint);
    }
  }

  /**
   * `ui_draw`: clear the screen, draw the whole tree, draw the focused window
   * again on top, then the room list (the calls `rooms`) when it is shown,
   * and move the cursor where the focused window left it before flushing.
   */
  function FrameOps(ns: seq<WindowTree.Node>, focus: nat, panes: nat -> Pane, rooms: seq<Op>, drawRooms: bool, paint: Painter): Option<seq<Op>>
    requires WindowTree.Structural(WindowTree.Links(ns)) && WindowTree.IsLeaf(WindowTree.Links(ns), focus) && Bound(ns)
  {
    var all, top := TreeOps(ns, 0, panes, paint), TreeOps(ns, focus, panes, paint);
    if all.None? || top.None? then None
    else Some([Clear] + all.value.ops + top.value.ops + (if drawRooms then rooms else []) + [Move(top.value.y, top.value.x), Flush])
  }

  /**
   * A frame clears the screen, draws every window in order, then the focused
   * window once more, and finally moves the cursor where the focused window
   * left it.
   */
  lemma FrameOrder(ns: seq<WindowTree.Node>, focus: nat, panes: nat -> Pane, rooms: seq<Op>, drawRooms: bool, paint: Painter)
    requires WindowTree.Structural(WindowTree.Links(ns)) && WindowTree.IsLeaf(WindowTree.Links(ns), focus) && Bound(ns)
    ensures var ls := WindowTree.Leaves(WindowTree.Links(ns), 0);
      forall i :: 0 <= i < |ls| ==> ls[i] < |ns| && ns[ls[i]].payload.Leaf?
    ensures var r, all, top := FrameOps(ns, focus, panes, rooms, drawRooms, paint), Sequenced(ns, WindowTree.Leaves(WindowTree.Links(ns), 0), panes, paint), PaintLeaf(ns, focus, panes, paint);
      && (r.Some? <==> all.Some? && top.Some?)
      && (r.Some? ==>
            r.value == [Clear] + all.value.ops + top.value.ops + (if drawRooms then rooms else []) + [Move(top.value.y, top.value.x), Flush])
  {
    TreeLeaves(ns, 0, panes, paint);
  }

  /**
   * After a frame the cursor is on the last row of the focused window: after
   * its prompt, or inside its input field when there is input.
   */
  lemma FrameCursor(ns: seq<WindowTree.Node>, focus: nat, panes: nat -> Pane, rooms: seq<Op>, drawRooms: bool, paint: Painter, wc: WcWidth)
    requires WindowTree.Structural(WindowTree.Links(ns)) && WindowTree.IsLeaf(WindowTree.Links(ns), focus) && Bound(ns)
    requires Painting(paint, wc)
    ensures var r, top := FrameOps(ns, focus, panes, rooms, drawRooms, paint), PaintLeaf(ns, focus, panes, paint);
      r.Some? ==>
        && top.Some?
        && r.value[|r.value| - 2] == Move(top.value.y, top.value.x)
        && Fits(top.value, ViewOf(ns[focus]), panes(ns[focus].payload.buffer.value), wc)
  {
    var top := PaintLeaf(ns, focus, panes, paint);
    assert TreeOps(ns, focus, panes, paint) == top;
  }

  /** `draw_window` on the subtree at `n`, leaves drawn by `DrawLeaf`. */
  method DrawWindow(ns: seq<WindowTree.Node>, n: nat, panes: nat -> Pane, wc: WcWidth) returns (r: Option<Painted>)
    requires WindowTree.Structural(WindowTree.Links(ns)) && WindowTree.Live(WindowTree.Links(ns), n) && Drawable(ns, panes)
    ensures r == TreeOps(ns, n, panes, PainterOf(wc))
    decreases |ns| - n
  {
    var nd := ns[n];
    if nd.payload.Leaf? {
      var v := ViewOf(nd);
      r := DrawLeaf(v, panes(nd.payload.buffer.value), DrawerOf(v, wc), wc);
    } else {
      assert WindowTree.ChildrenOk(WindowTree.Links(ns), n);
      var one := DrawWindow(ns, nd.payload.one, panes, wc);
      var two := DrawWindow(ns, nd.payload.two, panes, wc);
      r := Join(one, two);
    }
  }

  /** `ui_draw`: one frame of the screen, or `None` where drawing a window does not end. */
  method UiDraw(ns: seq<WindowTree.Node>, focus: nat, panes: nat -> Pane, rooms: seq<Op>, drawRooms: bool, wc: WcWidth) returns (r: Option<seq<Op>>)
    requires WindowTree.Structural(WindowTree.Links(ns)) && WindowTree.IsLeaf(WindowTree.Links(ns), focus) && Drawable(ns, panes)
    ensures r == FrameOps(ns, focus, panes, rooms, drawRooms, PainterOf(wc))
  {
    var all := DrawWindow(ns, 0, panes, wc);
    var top := DrawWindow(ns, focus, panes, wc);
    if all.None? || top.None? {
      return None;
    }
    var shown := if drawRooms then rooms else [];
    r := Some([Clear] + all.value.ops + top.value.ops + shown + [Move(top.value.y, top.value.x), Flush]);
  }

  /**
   * The frame `ui_draw` produces leaves the cursor on the last row of the
   * focused window, after its prompt or inside its input field.
   */
  lemma ScreenCursor(ns: seq<WindowTree.Node>, focus: nat, panes: nat -> Pane, rooms: seq<Op>, drawRooms: bool, wc: WcWidth)
    requires WindowTree.Structural(WindowTree.Links(ns)) && WindowTree.IsLeaf(WindowTree.Links(ns), focus) && Drawable(ns, panes)
    ensures var r, v, p := FrameOps(ns, focus, panes, rooms, drawRooms, PainterOf(wc)), ViewOf(ns[focus]), panes(ns[focus].payload.buffer.value);
      r.Some? ==>
        var m := r.value[|r.value| - 2];
        && m.Move?
        && m.y == v.y + v.height - 1
        && (p.input == [] ==> m.x == v.x + |p.nick| + 3)
        && (p.input != [] ==> v.x + PromptWidth(p.nick, wc) <= m.x < v.x + v.width)
  {
    PainterPaints(wc);
    FrameCursor(ns, focus, panes, rooms, drawRooms, PainterOf(wc), wc);
  }
}
