/**
 * How `draw_message` lays out one message: the body is cut into blocks that
 * fit the width left of the margin, preferring to break at a space, and the
 * blocks are placed bottom-aligned above a given row, with the time stamp
 * and the right-aligned title in front of the first one.  Rows above the
 * top of the window are skipped, and the header is drawn only when the
 * first block's row is inside the window.
 */
module UiMessage {
  import opened Bytes
  import opened Wrappers
  import opened Utf8
  import opened UiText
  import Terminal
  import Messages

  /** `MAX_NICK`: the columns of the title field. */
  const MaxNick := 15

  /** `TIME_LEN`: the columns of the time stamp. */
  const TimeLen := 8

  /** `LEFT_MARGIN`: stamp, space, title field and the `" | "` separator. */
  const LeftMargin := MaxNick + TimeLen + 1 + 3

  /** `term_mvprintf` formats into a 1024-byte buffer: at most 1023 bytes are written. */
  function Printed(t: seq<byte>): (r: seq<byte>)
    ensures |r| <= 1023 && |r| <= |t| && r == t[..|r|]
  {
    if |t| > 1023 then t[..1023] else t
  }

  /** `term_mvprintf(&term, y, x, v, ...)`: a move, then one write of the formatted text. */
  function MvPrintf(y: int, x: int, v: Terminal.Video, t: seq<byte>): seq<Op>
  {
    [Move(y, x), Write(v, Printed(t))]
  }

  // ---------------------------------------------------------------------
  // Word wrap

  /** Block sizes `bs` in front of whatever `rest` computes; nothing when `rest` is undefined. */
  function Ahead(bs: seq<nat>, rest: Option<seq<nat>>): Option<seq<nat>>
  {
    if rest.None? then None else Some(bs + rest.value)
  }

  /**
   * Where `while (n != length && i != 0 && body[i] != ' ') --i` stops when
   * it starts at `i` in the block that begins at byte `p`: at 0 or at the
   * last space at or before `i`.
   */
  function BackToSpace(body: seq<byte>, p: nat, i: nat): (r: nat)
    requires p + i < |body|
    ensures r <= i && (r == 0 || body[p + r] == 32)
    ensures forall k :: p + r < k <= p + i ==> body[k] != 32
    decreases i
  {
    if i == 0 || body[p + i] == 32 then i else BackToSpace(body, p, i - 1)
  }

  /**
   * The size of the block that starts at byte `p` with `cols` columns: the
   * prefix `utf8_fit` accepts, cut back to its last space unless it reaches
   * the end of the body or has no space after its first byte.
   */
  function BlockAt(body: seq<byte>, p: nat, cols: int, wc: WcWidth): (b: nat)
    requires p < |body|
    ensures p + b <= |body|
  {
    var n := FitFrom(body, p, cols, wc).end - p;
    var i := if n == |body| - p then n else BackToSpace(body, p, n);
    if i == 0 then n else i
  }

  /** `if (length != 0 && body[0] == ' ') ++body`: one space after a block is dropped. */
  function PastSpace(body: seq<byte>, q: nat): (r: nat)
    requires q <= |body|
    ensures q <= r <= |body|
  {
    if q < |body| && body[q] == 32 then q + 1 else q
  }

  /**
   * The wrap loop of `draw_message` from byte `p` of the body: the block
   * sizes.  `None` when a turn neither takes a byte nor drops a space: the
   * loop then repeats the same turn forever.
   */
  function WrapFrom(body: seq<byte>, p: nat, cols: int, wc: WcWidth): Option<seq<nat>>
    requires p <= |body|
    decreases |body| - p
  {
    if p == |body| then Some([])
    else
      var b := BlockAt(body, p, cols, wc);
      var q := PastSpace(body, p + b);
      if q == p then None else Ahead([b], WrapFrom(body, q, cols, wc))
  }

  /** One turn of the wrap loop: `utf8_fit`, then the back-off to the last space. */
  method Block(body: seq<byte>, p: nat, cols: int, wc: WcWidth) returns (b: nat)
    requires p < |body|
    ensures b == BlockAt(body, p, cols, wc)
  {
    var n := Utf8Fit(body, p, cols, wc);
    var i: nat := n;
    while n != |body| - p && i != 0 && body[p + i] != 32
      invariant i <= n <= |body| - p
      invariant n == |body| - p ==> i == n
      invariant n != |body| - p ==> BackToSpace(body, p, n) == BackToSpace(body, p, i)
      decreases i
    {
      i := i - 1;
    }
    if n != |body| - p {
      assert BackToSpace(body, p, i) == i;
    }
    if i == 0 {
      i := n;
    }
    return i;
  }

  /** The wrap loop of `draw_message` (`blocks` is its vector); it stops where the C loop would spin. */
  method Wrap(body: seq<byte>, cols: int, wc: WcWidth) returns (r: Option<seq<nat>>)
    ensures r == WrapFrom(body, 0, cols, wc)
  {
    var p: nat := 0;
    var blocks: seq<nat> := [];
    if WrapFrom(body, 0, cols, wc).Some? {
      assert blocks + WrapFrom(body, 0, cols, wc).value == WrapFrom(body, 0, cols, wc).value;
    }
    while p != |body|
      invariant p <= |body|
      invariant WrapFrom(body, 0, cols, wc) == Ahead(blocks, WrapFrom(body, p, cols, wc))
      decreases |body| - p
    {
      var i := Block(body, p, cols, wc);
      var q := p + i;
      if q != |body| && body[q] == 32 {
        q := q + 1;
      }
      if q == p {
        return None;
      }
      WrapTurn(body, p, cols, wc, blocks, q);
      blocks := blocks + [i];
      p := q;
    }
    assert blocks + [] == blocks;
    return Some(blocks);
  }

  /** One turn of the wrap loop that takes a block of `BlockAt` bytes and drops one space after it. */
  lemma WrapTurn(body: seq<byte>, p: nat, cols: int, wc: WcWidth, blocks: seq<nat>, q: nat)
    requires p < |body| && q == PastSpace(body, p + BlockAt(body, p, cols, wc)) && q != p
    ensures Ahead(blocks, WrapFrom(body, p, cols, wc)) == Ahead(blocks + [BlockAt(body, p, cols, wc)], WrapFrom(body, q, cols, wc))
  {
    AheadAhead(blocks, [BlockAt(body, p, cols, wc)], WrapFrom(body, q, cols, wc));
  }

  lemma AheadAhead(a: seq<nat>, b: seq<nat>, rest: Option<seq<nat>>)
    ensures Ahead(a, Ahead(b, rest)) == Ahead(a + b, rest)
  {
    if rest.Some? {
      AppendAssoc(a, b, rest.value);
    }
  }

  /**
   * The walk of the drawing loop of `draw_message` (`body += n; if (body[0]
   * == ' ') ++body`) over the blocks `bs` from byte `p` stays inside the body
   * and ends exactly at its end.
   */
  predicate Tiles(body: seq<byte>, p: nat, bs: seq<nat>)
    decreases |bs|
  {
    p <= |body| &&
    if bs == [] then p == |body|
    else p + bs[0] <= |body| && Tiles(body, PastSpace(body, p + bs[0]), bs[1..])
  }

  /** The blocks, with the single spaces dropped between them, cover the body exactly. */
  lemma {:induction false} WrapTiles(body: seq<byte>, p: nat, cols: int, wc: WcWidth)
    requires p <= |body|
    ensures var r := WrapFrom(body, p, cols, wc); r.Some? ==> Tiles(body, p, r.value)
    decreases |body| - p
  {
    if p < |body| {
      var b := BlockAt(body, p, cols, wc);
      var q := PastSpace(body, p + b);
      if q != p {
        WrapTiles(body, q, cols, wc);
        var rest := WrapFrom(body, q, cols, wc);
        if rest.Some? {
          TilesCons(body, p, b, rest.value);
        }
        assert WrapFrom(body, p, cols, wc) == Ahead([b], rest);
      }
    }
  }

  /** A block that stays inside the body, in front of blocks that tile the rest. */
  lemma TilesCons(body: seq<byte>, p: nat, b: nat, rest: seq<nat>)
    requires p + b <= |body| && Tiles(body, PastSpace(body, p + b), rest)
    ensures Tiles(body, p, [b] + rest)
  {
    assert ([b] + rest)[0] == b && ([b] + rest)[1..] == rest;
  }

  /**
   * A block is a prefix of what `utf8_fit` accepts.  It ends in front of a
   * space, after which the fitted prefix holds no other space; or it is the
   * whole fitted prefix, which then reaches the end of the body, is followed
   * by a space, or holds no space after its first byte.
   */
  lemma BlockBreaks(body: seq<byte>, p: nat, cols: int, wc: WcWidth)
    requires p < |body|
    ensures var n, b := FitFrom(body, p, cols, wc).end - p, BlockAt(body, p, cols, wc);
      && b <= n
      && (b < n ==> body[p + b] == 32 && forall k :: p + b < k <= p + n ==> body[k] != 32)
      && (b == n && p + n < |body| ==> body[p + n] == 32 || forall k :: p < k <= p + n ==> body[k] != 32)
  {
    var n := FitFrom(body, p, cols, wc).end - p;
    if n != |body| - p {
      var i := BackToSpace(body, p, n);
      assert i == 0 || body[p + i] == 32;
    }
  }

  /** With at least two columns every block takes a byte, so the wrap loop ends. */
  lemma {:induction false} WrapEnds(body: seq<byte>, p: nat, cols: int, wc: WcWidth)
    requires p <= |body| && cols >= 2
    ensures WrapFrom(body, p, cols, wc).Some?
    decreases |body| - p
  {
    if p < |body| {
      var j, c := FitNext(body, p, cols, wc);
      assert FitFrom(body, p, cols, wc).end > p;
      var b := BlockAt(body, p, cols, wc);
      WrapEnds(body, PastSpace(body, p + b), cols, wc);
    }
  }

  /**
   * A window 27 columns wide leaves no column for the body, and a body that
   * starts with a printable byte then keeps the wrap loop turning forever.
   */
  lemma NarrowWindowSpins(wc: WcWidth)
    requires wc(97) == 1
    ensures WrapFrom([97], 0, 27 - LeftMargin, wc).None?
  {
    assert Scan([97], 0, 1, wc) == Printable(1, 1);
    assert FitFrom([97], 0, 0, wc) == Fitted(0, 0);
  }

  // ---------------------------------------------------------------------
  // Placement

  /** The colour of the time stamp and of an important message's title background. */
  const Stamp := Terminal.Color(60, 60, 60)

  /** `pad` one-space writes (`while (pad --> 0)`); none when `pad` is not positive. */
  function Pads(v: Terminal.Video, pad: int): (r: seq<Op>)
    ensures |r| == if pad > 0 then pad else 0
    ensures forall k :: 0 <= k < |r| ==> r[k] == Write(v, [32])
    decreases pad
  {
    if pad <= 0 then [] else [Write(v, [32])] + Pads(v, pad - 1)
  }

  /** The video of the title: the stamp's, made bold on the stamp colour for an important message. */
  function TitleVideo(important: bool): Terminal.Video
  {
    var v := Terminal.Normal.(fg := Stamp);
    if important then v.(bold := true, bg := Stamp) else v
  }

  /** What a 512-byte buffer keeps of `title`: at most 511 bytes and the NUL (`tb` here, `status` in `draw_window`). */
  function Clipped(title: seq<byte>): (r: seq<byte>)
    ensures |r| <= 511 && |r| <= |title| && r == title[..|r|]
  {
    if |title| >= 512 then title[..511] else title
  }

  /**
   * The header of a message on row `y` of the screen: the time stamp and a
   * space, the title right-aligned in `MAX_NICK` columns by `calcwidth`, and
   * a space, all from column `x`.
   */
  function HeaderOps(y: int, x: int, important: bool, title: seq<byte>, time: seq<byte>, wc: WcWidth): Option<seq<Op>>
  {
    var tv := TitleVideo(important);
    var tb := Clipped(title);
    var w := WidthFrom(title, 0, |title|, wc);
    if w.None? then None
    else
      var t := DrawFrom(tb, 0, |tb|, tv, tv, wc);
      if t.None? then None
      else Some(MvPrintf(y, x, Terminal.Normal.(fg := Stamp), time + [32]) + Pads(tv, MaxNick - w.value) + t.value + [Write(tv, [32])])
  }

  /** `"| "`, printed at the left of every block. */
  const BlockBar: seq<byte> := [124, 32]

  /**
   * The drawing loop of `draw_message` over the blocks `bs` from byte `p`,
   * the first one on screen row `y`: the rows at or below the window's top
   * `wy` get `"| "` at column `bx` and their block, in the normal video.
   */
  function BlockOps(body: seq<byte>, p: nat, bs: seq<nat>, y: int, wy: int, bx: int, wc: WcWidth): Option<seq<Op>>
    requires Tiles(body, p, bs)
    decreases |bs|
  {
    if bs == [] then Some([])
    else
      var q := p + bs[0];
      var rest := BlockOps(body, PastSpace(body, q), bs[1..], y + 1, wy, bx, wc);
      if y >= wy then
        var t := DrawFrom(body, p, q, Terminal.Normal, Terminal.Normal, wc);
        if t.None? then None else Then(MvPrintf(y, bx, Terminal.Normal, BlockBar) + t.value, rest)
      else rest
  }

  /** What `draw_message` draws and returns: its calls and the number of blocks. */
  datatype Drawn = Drawn(ops: seq<Op>, rows: nat)

  /** A stored message whose body index lies inside its bytes. */
  predicate WellStored(m: Messages.Message)
  {
    m.body <= |m.data|
  }

  /**
   * The calls of `draw_message` once the body is cut into the blocks `bs`:
   * the header on the first block's row when that row is inside the window,
   * then the blocks bottom-aligned on `row`.
   */
  function Layout(wy: int, wx: int, important: bool, title: seq<byte>, body: seq<byte>, bs: seq<nat>, row: int, time: seq<byte>, wc: WcWidth): Option<seq<Op>>
    requires Tiles(body, 0, bs)
  {
    var y := wy + row - |bs| + 1;
    Joined(HeadOps(y, wy, wx, important, title, time, wc), BlockOps(body, 0, bs, y, wy, wx + TimeLen + 1 + MaxNick + 1, wc))
  }

  /** The header as `draw_message` draws it: only when its row `y` is inside the window, whose top is `wy`. */
  function HeadOps(y: int, wy: int, x: int, important: bool, title: seq<byte>, time: seq<byte>, wc: WcWidth): Option<seq<Op>>
  {
    if y - wy >= 0 then HeaderOps(y, x, important, title, time, wc) else Some([])
  }

  /** Two runs of calls, one after the other; `None` when either is. */
  function Joined(a: Option<seq<Op>>, b: Option<seq<Op>>): Option<seq<Op>>
  {
    if a.None? || b.None? then None else Some(a.value + b.value)
  }

  /**
   * `draw_message(w, m, row)` for a window at (`wy`, `wx`) that is `width`
   * columns wide, with the message's formatted time stamp `time`.  `None`
   * where the wrap loop spins or a colour code is not modelled.
   */
  function MessageOps(wy: int, wx: int, width: int, m: Messages.Message, row: int, time: seq<byte>, wc: WcWidth): (r: Option<Drawn>)
    requires WellStored(m)
    ensures r.Some? ==>
      && Some(r.value.rows) == (var b := WrapFrom(Messages.CString(m.data, m.body), 0, width - LeftMargin, wc); if b.None? then None else Some(|b.value|))
      && Placed(r.value, wy, wx, row)
  {
    var title, body := Messages.CString(m.data, 0), Messages.CString(m.data, m.body);
    var blocks := WrapFrom(body, 0, width - LeftMargin, wc);
    if blocks.None? then None
    else
      WrapTiles(body, 0, width - LeftMargin, wc);
      var ops := Layout(wy, wx, m.important, title, body, blocks.value, row, time, wc);
      LayoutPlacement(wy, wx, m.important, title, body, blocks.value, row, time, wc);
      if ops.None? then None else Some(Drawn(ops.value, |blocks.value|))
  }

  /** The rows of the moves to column `x` among `ops`, in order. */
  function MovesAt(ops: seq<Op>, x: int): seq<int>
  {
    if ops == [] then [] else (if ops[0].Move? && ops[0].x == x then [ops[0].y] else []) + MovesAt(ops[1..], x)
  }

  lemma {:induction false} MovesAppend(a: seq<Op>, b: seq<Op>, x: int)
    ensures MovesAt(a + b, x) == MovesAt(a, x) + MovesAt(b, x)
    decreases |a|
  {
    if a == [] {
      assert a + b == b;
    } else {
      assert (a + b)[1..] == a[1..] + b;
      MovesAppend(a[1..], b, x);
    }
  }

  /** The only move of `term_mvprintf` is to its own row and column. */
  lemma MovesPrintf(y: int, x: int, v: Terminal.Video, t: seq<byte>, x': int)
    ensures MovesAt(MvPrintf(y, x, v, t), x') == if x' == x then [y] else []
  {
    var m := MvPrintf(y, x, v, t);
    assert m[1..][1..] == [];
    assert MovesAt(m[1..], x') == [];
  }

  lemma {:induction false} MovesNone(ops: seq<Op>, x: int)
    requires AllWrites(ops)
    ensures MovesAt(ops, x) == []
    decreases |ops|
  {
    if ops != [] {
      MovesNone(ops[1..], x);
    }
  }

  /** The rows `lo`, `lo + 1`, ..., `hi`. */
  function Span(lo: int, hi: int): (r: seq<int>)
    ensures |r| == if lo <= hi then hi - lo + 1 else 0
    ensures forall k :: 0 <= k < |r| ==> r[k] == lo + k
    decreases hi - lo + 1
  {
    if lo > hi then [] else [lo] + Span(lo + 1, hi)
  }

  function Max(a: int, b: int): int
  {
    if a >= b then a else b
  }

  /** One block drawn on row `y` in front of the blocks below it, at the separator column. */
  lemma BlockStep(m: seq<Op>, t: seq<Op>, rest: seq<Op>, y: int, wy: int, hi: int, bx: int)
    requires wy <= y <= hi
    requires MovesAt(m, bx) == [y] && MovesAt(t, bx) == [] && MovesAt(rest, bx) == Span(Max(y + 1, wy), hi)
    ensures MovesAt(m + t + rest, bx) == Span(Max(y, wy), hi)
  {
    MovesAppend(m, t, bx);
    MovesAppend(m + t, rest, bx);
    assert Span(Max(y, wy), hi) == [y] + Span(Max(y + 1, wy), hi);
  }

  /** ... and at any other column. */
  lemma BlockStepOff(m: seq<Op>, t: seq<Op>, rest: seq<Op>, x: int)
    requires MovesAt(m, x) == [] && MovesAt(t, x) == [] && MovesAt(rest, x) == []
    ensures MovesAt(m + t + rest, x) == []
  {
    MovesAppend(m, t, x);
    MovesAppend(m + t, rest, x);
  }

  /** The blocks go on consecutive rows from `y`, those above the window's top left out. */
  lemma {:induction false} BlockRows(body: seq<byte>, p: nat, bs: seq<nat>, y: int, wy: int, bx: int, wc: WcWidth)
    requires Tiles(body, p, bs)
    ensures var r := BlockOps(body, p, bs, y, wy, bx, wc);
      r.Some? ==> MovesAt(r.value, bx) == Span(Max(y, wy), y + |bs| - 1)
    decreases |bs|
  {
    if bs != [] {
      var q := p + bs[0];
      BlockRows(body, PastSpace(body, q), bs[1..], y + 1, wy, bx, wc);
      var rest := BlockOps(body, PastSpace(body, q), bs[1..], y + 1, wy, bx, wc);
      var hi := y + |bs| - 1;
      assert y + 1 + |bs[1..]| - 1 == hi;
      if y >= wy && rest.Some? {
        var t := DrawFrom(body, p, q, Terminal.Normal, Terminal.Normal, wc);
        if t.Some? {
          DrawWrites(body, p, q, Terminal.Normal, Terminal.Normal, wc);
          MovesNone(t.value, bx);
          var m := MvPrintf(y, bx, Terminal.Normal, BlockBar);
          MovesPrintf(y, bx, Terminal.Normal, BlockBar, bx);
          BlockStep(m, t.value, rest.value, y, wy, hi, bx);
        }
      } else if y < wy {
        assert Max(y, wy) == Max(y + 1, wy);
      }
    }
  }

  /** The blocks move to no column but the separator's. */
  lemma {:induction false} BlockRowsOff(body: seq<byte>, p: nat, bs: seq<nat>, y: int, wy: int, bx: int, wc: WcWidth, x: int)
    requires Tiles(body, p, bs) && x != bx
    ensures var r := BlockOps(body, p, bs, y, wy, bx, wc);
      r.Some? ==> MovesAt(r.value, x) == []
    decreases |bs|
  {
    if bs != [] {
      var q := p + bs[0];
      BlockRowsOff(body, PastSpace(body, q), bs[1..], y + 1, wy, bx, wc, x);
      var rest := BlockOps(body, PastSpace(body, q), bs[1..], y + 1, wy, bx, wc);
      if y >= wy && rest.Some? {
        var t := DrawFrom(body, p, q, Terminal.Normal, Terminal.Normal, wc);
        if t.Some? {
          DrawWrites(body, p, q, Terminal.Normal, Terminal.Normal, wc);
          MovesNone(t.value, x);
          MovesPrintf(y, bx, Terminal.Normal, BlockBar, x);
          BlockStepOff(MvPrintf(y, bx, Terminal.Normal, BlockBar), t.value, rest.value, x);
        }
      }
    }
  }

  /** The header draws no blocks: its only move is to the stamp at column `x`. */
  lemma HeaderMoves(y: int, x: int, important: bool, title: seq<byte>, time: seq<byte>, wc: WcWidth, bx: int)
    ensures var h := HeaderOps(y, x, important, title, time, wc);
      h.Some? ==> MovesAt(h.value, bx) == (if bx == x then [y] else [])
  {
    var h := HeaderOps(y, x, important, title, time, wc);
    if h.Some? {
      var tv := TitleVideo(important);
      var tb := Clipped(title);
      var w := WidthFrom(title, 0, |title|, wc).value;
      var t := DrawFrom(tb, 0, |tb|, tv, tv, wc).value;
      var m := MvPrintf(y, x, Terminal.Normal.(fg := Stamp), time + [32]);
      var pads := Pads(tv, MaxNick - w);
      DrawWrites(tb, 0, |tb|, tv, tv, wc);
      MovesNone(t, bx);
      MovesNone(pads, bx);
      MovesNone([Write(tv, [32])], bx);
      MovesPrintf(y, x, Terminal.Normal.(fg := Stamp), time + [32], bx);
      MovesAppend(m, pads, bx);
      MovesAppend(m + pads, t, bx);
      MovesAppend(m + pads + t, [Write(tv, [32])], bx);
    }
  }

  /**
   * A message of `d.rows` blocks is bottom-aligned on `row`: its blocks take
   * rows `row - d.rows + 1` to `row` of the window, those above the top left
   * out, and the header goes on the first block's row only when that row is
   * inside the window.  (An empty body has no block, so its header lands one
   * row below `row`.)
   */
  predicate Placed(d: Drawn, wy: int, wx: int, row: int)
  {
    var first := row - d.rows + 1;
    && MovesAt(d.ops, wx + TimeLen + 1 + MaxNick + 1) == Span(wy + Max(first, 0), wy + row)
    && MovesAt(d.ops, wx) == (if first >= 0 then [wy + first] else [])
  }

  /** The moves of `Layout`: the blocks' rows at the separator column, the header's at `wx`. */
  lemma LayoutPlacement(wy: int, wx: int, important: bool, title: seq<byte>, body: seq<byte>, bs: seq<nat>, row: int, time: seq<byte>, wc: WcWidth)
    requires Tiles(body, 0, bs)
    ensures var r := Layout(wy, wx, important, title, body, bs, row, time, wc);
      r.Some? ==> Placed(Drawn(r.value, |bs|), wy, wx, row)
  {
    var y, bx := wy + row - |bs| + 1, wx + TimeLen + 1 + MaxNick + 1;
    HeadMoves(y, wx, important, title, time, wc, bx, wy);
    BlockMoves(body, 0, bs, y, wy, bx, wc, wx);
    JoinedPlaced(HeadOps(y, wy, wx, important, title, time, wc), BlockOps(body, 0, bs, y, wy, bx, wc), wy, wx, row, y, |bs|);
  }

  /** The blocks move to the separator column on their rows inside the window, and to no other column. */
  lemma BlockMoves(body: seq<byte>, p: nat, bs: seq<nat>, y: int, wy: int, bx: int, wc: WcWidth, x: int)
    requires Tiles(body, p, bs)
    ensures var r := BlockOps(body, p, bs, y, wy, bx, wc);
      r.Some? ==> MovesAt(r.value, bx) == Span(Max(y, wy), y + |bs| - 1) && (x != bx ==> MovesAt(r.value, x) == [])
  {
    BlockRows(body, p, bs, y, wy, bx, wc);
    if x != bx {
      BlockRowsOff(body, p, bs, y, wy, bx, wc, x);
    }
  }

  /**
   * A header that moves only to the stamp column, followed by blocks that
   * move only to the separator column, are placed as `Placed` says.
   */
  lemma JoinedPlaced(head: Option<seq<Op>>, rows: Option<seq<Op>>, wy: int, wx: int, row: int, y: int, n: nat)
    ensures var bx := wx + TimeLen + 1 + MaxNick + 1;
      && y == wy + row - n + 1
      && (head.Some? ==> MovesAt(head.value, bx) == [] && MovesAt(head.value, wx) == (if y - wy >= 0 then [y] else []))
      && (rows.Some? ==> MovesAt(rows.value, bx) == Span(Max(y, wy), y + n - 1) && (wx != bx ==> MovesAt(rows.value, wx) == []))
      ==> var r := Joined(head, rows); r.Some? ==> Placed(Drawn(r.value, n), wy, wx, row)
  {
    var bx := wx + TimeLen + 1 + MaxNick + 1;
    if head.Some? && rows.Some? {
      MovesAppend(head.value, rows.value, bx);
      MovesAppend(head.value, rows.value, wx);
      assert Max(wy + row - n + 1, wy) == wy + Max(row - n + 1, 0);
    }
  }

  /** The header as `draw_message` draws it: only when its row is inside the window. */
  lemma HeadMoves(y: int, x: int, important: bool, title: seq<byte>, time: seq<byte>, wc: WcWidth, bx: int, wy: int)
    ensures var h := HeadOps(y, wy, x, important, title, time, wc);
      h.Some? ==> (bx != x ==> MovesAt(h.value, bx) == []) && MovesAt(h.value, x) == (if y - wy >= 0 then [y] else [])
  {
    if y - wy >= 0 {
      HeaderMoves(y, x, important, title, time, wc, bx);
      HeaderMoves(y, x, important, title, time, wc, x);
    }
  }
}
