/**
 * The cell grid the frame is composed in and the serialiser that turns it
 * into terminal output.  Output uses three control functions of ECMA-48:
 * ED (section 8.3.39, `ESC [ 2 J`), CUP (section 8.3.21, `ESC [ row ; col H`)
 * and SGR (section 8.3.117, `ESC [ Ps ; ... m`), whose colours are the
 * direct-colour parameters `38;2;r;g;b` and `48;2;r;g;b` of ITU-T T.416.
 */
module Terminal {
  import opened Bytes
  import opened Utf8

  datatype Color = Color(r: byte, g: byte, b: byte)

  /** `Video`: colours and the four one-bit attributes. */
  datatype Video = Video(fg: Color, bg: Color, reverse: bool, bold: bool, underline: bool, italic: bool)

  /** `Cell`: its video and the C string in `data` (its bytes up to the NUL). */
  datatype Cell = Cell(video: Video, data: seq<byte>)

  /** `C_DEFAULT`, the colour that stands for the terminal's own. */
  const Default: Color := Color(1, 1, 1)

  /** `V_NORMAL`. */
  const Normal: Video := Video(Default, Default, false, false, false, false)

  /** `EMPTY`, a zero-initialised static cell. */
  const Empty: Cell := Cell(Video(Color(0, 0, 0), Color(0, 0, 0), false, false, false, false), [])

  /** The value of the one-bit field `i`. */
  type bit = b: int | 0 <= b < 2

  /** `cell_empty`. */
  predicate IsEmpty(c: Cell)
  {
    c.data == []
  }

  /**
   * `cell_equal`: two empty cells are equal whatever their video.  (It has no
   * caller; `color_equal` and `video_equal` are Dafny's `==` on the datatypes.)
   */
  predicate CellEqual(a: Cell, b: Cell)
  {
    (IsEmpty(a) && IsEmpty(b)) || (a.video == b.video && a.data == b.data)
  }

  /** A grid of `n` empty cells. */
  function Blank(n: nat): seq<Cell>
  {
    seq(n, _ => Empty)
  }

  // ---------------------------------------------------------------------
  // Control sequences

  /** `ESC [ 2 J`: erase the whole display. */
  const Ed: seq<byte> := [27, 91, 50, 74]

  /** `render_move(y, x)`: a CUP to the one-based row `y + 1` and column `x + 1`. */
  function Cup(y: int, x: int): seq<byte>
  {
    [27, 91] + SignedDecimal(y + 1) + [59] + SignedDecimal(x + 1) + [72]
  }

  /** The colour an SGR shows for `c`: the sentinel `C_DEFAULT` becomes `dflt`. */
  function Shown(c: Color, dflt: Color): Color
  {
    if c == Default then dflt else c
  }

  const DefaultFg: Color := Color(220, 220, 220)
  const DefaultBg: Color := Color(20, 20, 20)

  function Flag(on: bool, p: seq<byte>): seq<byte>
  {
    if on then p else []
  }

  /** `%u;%u;%u;` of a colour. */
  function Rgb(c: Color): seq<byte>
  {
    Decimal(c.r) + [59] + Decimal(c.g) + [59] + Decimal(c.b) + [59]
  }

  /** The `sprintf` calls of `render_video` for the four attributes. */
  function FlagBytes(v: Video): seq<byte>
  {
    Flag(v.bold, [49, 59]) + Flag(v.italic, [51, 59]) + Flag(v.underline, [52, 59]) + Flag(v.reverse, [55, 59])
  }

  /** The two `sprintf` calls of `render_video` for the colours. */
  function ColorBytes(fg: Color, bg: Color): seq<byte>
  {
    [51, 56, 59, 50, 59] + Rgb(fg) + [52, 56, 59, 50, 59] + Rgb(bg)
  }

  /** What the `sprintf` calls of `render_video` leave in its buffer, ending in `;`. */
  function SgrDraft(v: Video): seq<byte>
  {
    [27, 91, 48, 59] + FlagBytes(v) + ColorBytes(Shown(v.fg, DefaultFg), Shown(v.bg, DefaultBg))
  }

  /**
   * The bytes `render_video` emits for `v`: the ECMA-48 SGR `ESC [ Ps ; ... ; Ps m`
   * of `SgrParams(v)`.  `RenderVideoBytes` shows that this is the draft with its
   * last byte overwritten by `m`, which is how the C code forms it.
   */
  function Sgr(v: Video): (r: seq<byte>)
    ensures |r| > 0
  {
    [27, 91] + Join(SgrParams(v)) + [109]
  }

  /** The parameter `p` when `on`, nothing otherwise. */
  function Param(on: bool, p: nat): seq<nat>
  {
    if on then [p] else []
  }

  function FlagParams(v: Video): seq<nat>
  {
    Param(v.bold, 1) + Param(v.italic, 3) + Param(v.underline, 4) + Param(v.reverse, 7)
  }

  function ColorParams(fg: Color, bg: Color): seq<nat>
  {
    [38, 2] + [fg.r, fg.g, fg.b] + [48, 2] + [bg.r, bg.g, bg.b]
  }

  /** The SGR parameters of a video: reset, the attributes that are on, then both colours. */
  function SgrParams(v: Video): seq<nat>
  {
    [0] + FlagParams(v) + ColorParams(Shown(v.fg, DefaultFg), Shown(v.bg, DefaultBg))
  }

  /** Parameters in decimal, separated by `;`, as ECMA-48 writes a parameter string. */
  function Join(ps: seq<nat>): seq<byte>
    requires |ps| >= 1
  {
    if |ps| == 1 then Decimal(ps[0]) else Decimal(ps[0]) + [59] + Join(ps[1..])
  }

  /** Every parameter followed by `;`. */
  function Terminated(ps: seq<nat>): seq<byte>
  {
    if ps == [] then [] else Decimal(ps[0]) + [59] + Terminated(ps[1..])
  }

  lemma {:induction false} TerminatedAppend(a: seq<nat>, b: seq<nat>)
    ensures Terminated(a + b) == Terminated(a) + Terminated(b)
  {
    if a == [] {
      assert a + b == b;
    } else {
      assert (a + b)[1..] == a[1..] + b;
      TerminatedAppend(a[1..], b);
    }
  }

  lemma {:induction false} TerminatedJoin(ps: seq<nat>)
    requires |ps| >= 1
    ensures Terminated(ps) == Join(ps) + [59]
  {
    if |ps| > 1 {
      TerminatedJoin(ps[1..]);
    } else {
      assert ps[1..] == [];
    }
  }

  lemma TerminatedOne(p: nat)
    ensures Terminated([p]) == Decimal(p) + [59]
  {
    assert [p][1..] == [];
  }

  lemma TerminatedTwo(p: nat, q: nat)
    ensures Terminated([p, q]) == Decimal(p) + [59] + Decimal(q) + [59]
  {
    assert [p, q] == [p] + [q];
    TerminatedAppend([p], [q]);
    TerminatedOne(p);
    TerminatedOne(q);
  }

  lemma RgbText(c: Color)
    ensures Terminated([c.r, c.g, c.b]) == Rgb(c)
  {
    assert [c.r, c.g, c.b] == [c.r] + [c.g, c.b];
    TerminatedAppend([c.r], [c.g, c.b]);
    TerminatedOne(c.r);
    TerminatedTwo(c.g, c.b);
  }

  lemma ParamText(on: bool, p: nat, t: seq<byte>)
    requires t == Decimal(p) + [59]
    ensures Terminated(Param(on, p)) == Flag(on, t)
  {
    if on {
      TerminatedOne(p);
    }
  }

  lemma FlagsText(v: Video)
    ensures Terminated(FlagParams(v)) == FlagBytes(v)
  {
    var a, b, c, d := Param(v.bold, 1), Param(v.italic, 3), Param(v.underline, 4), Param(v.reverse, 7);
    assert Decimal(1) == [49] && Decimal(3) == [51] && Decimal(4) == [52] && Decimal(7) == [55];
    ParamText(v.bold, 1, [49, 59]);
    ParamText(v.italic, 3, [51, 59]);
    ParamText(v.underline, 4, [52, 59]);
    ParamText(v.reverse, 7, [55, 59]);
    TerminatedAppend(a + b + c, d);
    TerminatedAppend(a + b, c);
    TerminatedAppend(a, b);
  }

  lemma PrefixText(p: nat, t: seq<byte>)
    requires p == 38 || p == 48
    requires t == (if p == 38 then [51, 56, 59, 50, 59] else [52, 56, 59, 50, 59])
    ensures Terminated([p, 2]) == t
  {
    TerminatedTwo(p, 2);
    assert Decimal(2) == [50];
    if p == 38 {
      assert Decimal(3) == [51];
      assert Decimal(38) == Decimal(3) + [56];
    } else {
      assert Decimal(4) == [52];
      assert Decimal(48) == Decimal(4) + [56];
    }
  }

  lemma ColorsText(fg: Color, bg: Color)
    ensures Terminated(ColorParams(fg, bg)) == ColorBytes(fg, bg)
  {
    var f, g, h, k := [38, 2], [fg.r, fg.g, fg.b], [48, 2], [bg.r, bg.g, bg.b];
    PrefixText(38, [51, 56, 59, 50, 59]);
    PrefixText(48, [52, 56, 59, 50, 59]);
    RgbText(fg);
    RgbText(bg);
    TerminatedAppend(f + g + h, k);
    TerminatedAppend(f + g, h);
    TerminatedAppend(f, g);
  }

  /** `render_video` overwrites the `;` that ends its draft with `m`; what it emits then is `Sgr(v)`. */
  lemma RenderVideoBytes(v: Video)
    ensures var d := SgrDraft(v); |d| > 0 && d[..|d| - 1] + [109] == Sgr(v)
  {
    var ps := SgrParams(v);
    ParamsText(v);
    TerminatedJoin(ps);
    var j := Join(ps);
    assert SgrDraft(v) == [27, 91] + (j + [59]);
    Chop([27, 91] + j, 59);
  }

  lemma ParamsText(v: Video)
    ensures [27, 91] + Terminated(SgrParams(v)) == SgrDraft(v)
  {
    var fg, bg := Shown(v.fg, DefaultFg), Shown(v.bg, DefaultBg);
    var fl, co := FlagParams(v), ColorParams(fg, bg);
    assert Decimal(0) == [48];
    TerminatedOne(0);
    FlagsText(v);
    ColorsText(fg, bg);
    TerminatedAppend([0] + fl, co);
    TerminatedAppend([0], fl);
  }

  lemma Chop(p: seq<byte>, b: byte)
    ensures (p + [b])[..|p + [b]| - 1] == p
  {
  }

  // ---------------------------------------------------------------------
  // One row of the grid: the runs `render_line` emits

  /** A run `render_line` emits: an optional CUP to `lo`, an SGR, the cells `lo` to `hi - 1`. */
  datatype Run = Run(move: bool, lo: nat, hi: nat, video: Video)

  /** `CELL(t, y, x)` for the row of the grid that starts at cell `row`. */
  function CellAt(cells: seq<Cell>, row: nat, x: nat): Cell
    requires row + x < |cells|
  {
    cells[row + x]
  }

  /** `skip_empty(t, y, x)` on the row starting at `row`: the empty cells from column `x` on. */
  function Skipped(cells: seq<Cell>, row: nat, cols: nat, x: nat): (n: nat)
    requires x <= cols && row + cols <= |cells|
    ensures x + n <= cols
    decreases cols - x
  {
    if x < cols && IsEmpty(CellAt(cells, row, x)) then 1 + Skipped(cells, row, cols, x + 1) else 0
  }

  /** The cells `skip_empty` passes over are empty, and the one it stops at is not. */
  lemma {:induction false} SkippedEmpty(cells: seq<Cell>, row: nat, cols: nat, x: nat)
    requires x <= cols && row + cols <= |cells|
    ensures var n := Skipped(cells, row, cols, x);
      && (forall j :: x <= j < x + n ==> IsEmpty(CellAt(cells, row, j)))
      && (x + n == cols || !IsEmpty(CellAt(cells, row, x + n)))
    decreases cols - x
  {
    if x < cols && IsEmpty(CellAt(cells, row, x)) {
      SkippedEmpty(cells, row, cols, x + 1);
    }
  }

  /** Where the inner loop of `render_line` stops: the first column from `x` whose video is not `v`. */
  function RunEnd(cells: seq<Cell>, row: nat, cols: nat, x: nat, v: Video): (e: nat)
    requires x <= cols && row + cols <= |cells|
    ensures x <= e <= cols
    ensures x < cols && CellAt(cells, row, x).video == v ==> x < e
    decreases cols - x
  {
    if x < cols && CellAt(cells, row, x).video == v then RunEnd(cells, row, cols, x + 1, v) else x
  }

  /** The cells before `RunEnd` all have video `v`, and the one it stops at does not. */
  lemma {:induction false} RunEndSame(cells: seq<Cell>, row: nat, cols: nat, x: nat, v: Video)
    requires x <= cols && row + cols <= |cells|
    ensures var e := RunEnd(cells, row, cols, x, v);
      && (forall j :: x <= j < e ==> CellAt(cells, row, j).video == v)
      && (e == cols || CellAt(cells, row, e).video != v)
    decreases cols - x
  {
    if x < cols && CellAt(cells, row, x).video == v {
      RunEndSame(cells, row, cols, x + 1, v);
    }
  }

  /** A run as `render_line` forms it: it starts at a non-empty cell and is a maximal same-video stretch. */
  predicate GoodRun(cells: seq<Cell>, row: nat, cols: nat, r: Run)
    requires row + cols <= |cells|
  {
    && r.lo < r.hi <= cols
    && !IsEmpty(CellAt(cells, row, r.lo))
    && (forall j :: r.lo <= j < r.hi ==> CellAt(cells, row, j).video == r.video)
    && (r.hi == cols || CellAt(cells, row, r.hi).video != r.video)
  }

  /**
   * The run `render_line` emits next from column `x`: it starts after the empty
   * cells, takes the video of its first cell and extends while the video is the
   * same; it is preceded by a CUP at the row start or after a skip.
   */
  function FirstRun(cells: seq<Cell>, row: nat, cols: nat, x: nat): (r: Run)
    requires x <= cols && row + cols <= |cells| && x + Skipped(cells, row, cols, x) < cols
    ensures x <= r.lo < r.hi <= cols
  {
    var lo := x + Skipped(cells, row, cols, x);
    var v := CellAt(cells, row, lo).video;
    Run(x == 0 || lo > x, lo, RunEnd(cells, row, cols, lo, v), v)
  }

  /** The runs of `render_line` from column `x`, up to the end of the row or its trailing empty cells. */
  function RunsFrom(cells: seq<Cell>, row: nat, cols: nat, x: nat): (rs: seq<Run>)
    requires x <= cols && row + cols <= |cells|
    decreases cols - x
  {
    if x + Skipped(cells, row, cols, x) == cols then []
    else [FirstRun(cells, row, cols, x)] + RunsFrom(cells, row, cols, FirstRun(cells, row, cols, x).hi)
  }

  /** Run `k` from column `x` on is a run as `render_line` forms it. */
  lemma {:induction false} RunsGood(cells: seq<Cell>, row: nat, cols: nat, x: nat, k: nat)
    requires x <= cols && row + cols <= |cells| && k < |RunsFrom(cells, row, cols, x)|
    ensures GoodRun(cells, row, cols, RunsFrom(cells, row, cols, x)[k])
    ensures x <= RunsFrom(cells, row, cols, x)[k].lo
    decreases cols - x
  {
    var rs := RunsFrom(cells, row, cols, x);
    var lo := x + Skipped(cells, row, cols, x);
    var v := CellAt(cells, row, lo).video;
    var hi := RunEnd(cells, row, cols, lo, v);
    var rest := RunsFrom(cells, row, cols, hi);
    assert rs == [FirstRun(cells, row, cols, x)] + rest;
    if k == 0 {
      SkippedEmpty(cells, row, cols, x);
      RunEndSame(cells, row, cols, lo, v);
    } else {
      assert rs[k] == rest[k - 1];
      RunsGood(cells, row, cols, hi, k - 1);
    }
  }

  /**
   * The runs come left to right without overlap, and a run is preceded by a
   * CUP exactly when it starts the row or does not start where the previous
   * run stopped.
   */
  lemma {:induction false} RunMoves(cells: seq<Cell>, row: nat, cols: nat, x: nat, k: nat)
    requires x <= cols && row + cols <= |cells| && k < |RunsFrom(cells, row, cols, x)|
    ensures var rs := RunsFrom(cells, row, cols, x);
      && (k == 0 ==> (rs[0].move <==> x == 0 || x < rs[0].lo))
      && (k > 0 ==> rs[k - 1].hi <= rs[k].lo && (rs[k].move <==> rs[k - 1].hi < rs[k].lo))
    decreases cols - x
  {
    var rs := RunsFrom(cells, row, cols, x);
    var lo := x + Skipped(cells, row, cols, x);
    var v := CellAt(cells, row, lo).video;
    var hi := RunEnd(cells, row, cols, lo, v);
    var rest := RunsFrom(cells, row, cols, hi);
    assert rs == [FirstRun(cells, row, cols, x)] + rest;
    if k > 0 {
      assert rs[k] == rest[k - 1];
      RunMoves(cells, row, cols, hi, k - 1);
      if k == 1 {
        RunsGood(cells, row, cols, x, 0);
        RunsGood(cells, row, cols, hi, 0);
      } else {
        assert rs[k - 1] == rest[k - 2];
      }
    }
  }

  /** Every non-empty cell of the row from `x` on lies inside one of the runs. */
  lemma {:induction false} RunsCoverCells(cells: seq<Cell>, row: nat, cols: nat, x: nat, j: nat)
    requires x <= j < cols && row + cols <= |cells| && !IsEmpty(CellAt(cells, row, j))
    ensures exists k :: 0 <= k < |RunsFrom(cells, row, cols, x)| && RunsFrom(cells, row, cols, x)[k].lo <= j < RunsFrom(cells, row, cols, x)[k].hi
    decreases cols - x
  {
    var rs := RunsFrom(cells, row, cols, x);
    var lo := x + Skipped(cells, row, cols, x);
    SkippedEmpty(cells, row, cols, x);
    assert lo < cols && lo <= j;
    var v := CellAt(cells, row, lo).video;
    var hi := RunEnd(cells, row, cols, lo, v);
    var rest := RunsFrom(cells, row, cols, hi);
    assert rs == [FirstRun(cells, row, cols, x)] + rest;
    if j >= hi {
      RunsCoverCells(cells, row, cols, hi, j);
      var k :| 0 <= k < |rest| && rest[k].lo <= j < rest[k].hi;
      assert rs[k + 1] == rest[k];
    } else {
      assert rs[0].lo <= j < rs[0].hi;
    }
  }

  /** The bytes of the cells `lo` to `hi - 1`, in column order (nothing for a range outside the grid). */
  function Data(cells: seq<Cell>, row: nat, lo: nat, hi: nat): seq<byte>
    decreases hi - lo
  {
    if hi <= lo || |cells| < row + hi then [] else Data(cells, row, lo, hi - 1) + CellAt(cells, row, hi - 1).data
  }



  /** What `render_line` emits for one run on screen row `y`. */
  function RunBytes(cells: seq<Cell>, row: nat, y: int, r: Run): seq<byte>
  {
    (if r.move then Cup(y, r.lo) else []) + Sgr(r.video) + Data(cells, row, r.lo, r.hi)
  }

  /** The output of a list of runs on screen row `y`, in order. */
  function RenderRuns(cells: seq<Cell>, row: nat, y: int, rs: seq<Run>): seq<byte>
  {
    if rs == [] then [] else RunBytes(cells, row, y, rs[0]) + RenderRuns(cells, row, y, rs[1..])
  }

  /** The cell bytes of a list of runs, without the control sequences. */
  function RunsText(cells: seq<Cell>, row: nat, rs: seq<Run>): seq<byte>
  {
    if rs == [] then [] else Data(cells, row, rs[0].lo, rs[0].hi) + RunsText(cells, row, rs[1..])
  }

  /** `t->video` after a list of runs: the last run's video. */
  function LastVideo(rs: seq<Run>, v: Video): Video
  {
    if rs == [] then v else rs[|rs| - 1].video
  }

  /** The first run from column `x`, when the row does not end in empty cells from there. */
  lemma RunsFromStep(cells: seq<Cell>, row: nat, cols: nat, x: nat)
    requires x <= cols && row + cols <= |cells| && x + Skipped(cells, row, cols, x) < cols
    ensures RunsFrom(cells, row, cols, x) == [FirstRun(cells, row, cols, x)] + RunsFrom(cells, row, cols, FirstRun(cells, row, cols, x).hi)
  {
  }

  lemma RunsFromDone(cells: seq<Cell>, row: nat, cols: nat, x: nat)
    requires x <= cols && row + cols <= |cells| && x + Skipped(cells, row, cols, x) == cols
    ensures RunsFrom(cells, row, cols, x) == []
  {
  }

  lemma RunEndStep(cells: seq<Cell>, row: nat, cols: nat, x: nat, v: Video)
    requires x < cols && row + cols <= |cells| && CellAt(cells, row, x).video == v
    ensures RunEnd(cells, row, cols, x, v) == RunEnd(cells, row, cols, x + 1, v)
  {
  }

  lemma RunEndStop(cells: seq<Cell>, row: nat, cols: nat, x: nat, v: Video)
    requires x <= cols && row + cols <= |cells| && (x == cols || CellAt(cells, row, x).video != v)
    ensures RunEnd(cells, row, cols, x, v) == x
  {
  }

  lemma DataStep(cells: seq<Cell>, row: nat, lo: nat, hi: nat)
    requires lo <= hi && row + hi < |cells|
    ensures Data(cells, row, lo, hi + 1) == Data(cells, row, lo, hi) + CellAt(cells, row, hi).data
  {
  }

  /** Rendering a list of runs is rendering the first one, then the rest. */
  lemma RenderRunsCons(cells: seq<Cell>, row: nat, y: int, r: Run, rest: seq<Run>)
    ensures RenderRuns(cells, row, y, [r] + rest) == RunBytes(cells, row, y, r) + RenderRuns(cells, row, y, rest)
  {
    assert ([r] + rest)[1..] == rest;
  }

  lemma LastVideoCons(r: Run, rest: seq<Run>, v: Video)
    ensures LastVideo([r] + rest, v) == LastVideo(rest, r.video)
  {
    if rest != [] {
      assert ([r] + rest)[|rest|] == rest[|rest| - 1];
    }
  }

  /** The parts of the first run from column `x`, and its bytes as the move, then the SGR and the data. */
  lemma FirstRunBytes(cells: seq<Cell>, row: nat, cols: nat, x: nat, y: int, r: Run)
    requires x <= cols && row + cols <= |cells| && x + Skipped(cells, row, cols, x) < cols
    requires r == FirstRun(cells, row, cols, x)
    ensures r.lo == x + Skipped(cells, row, cols, x) && r.move == (x == 0 || r.lo > x)
    ensures r.video == CellAt(cells, row, r.lo).video && r.hi == RunEnd(cells, row, cols, r.lo, r.video)
    ensures RunBytes(cells, row, y, r) == (if r.move then Cup(y, r.lo) else []) + (Sgr(r.video) + Data(cells, row, r.lo, r.hi))
  {
    AppendAssoc(if r.move then Cup(y, r.lo) else [], Sgr(r.video), Data(cells, row, r.lo, r.hi));
  }

  /**
   * The output of one pass of the loop of `render_line` from column `x` put
   * together: `b1` is `o` after the move, if any, and `b` is `b1` after the
   * SGR of `v` and the data up to `hi`, `v` and `hi` being those of the run.
   */
  lemma RunSpliced(cells: seq<Cell>, row: nat, cols: nat, x: nat, skip: nat, y: int, r: Run,
                   o: seq<byte>, b1: seq<byte>, b: seq<byte>, v: Video, hi: int)
    requires x <= cols && row + cols <= |cells| && skip == Skipped(cells, row, cols, x) && x + skip < cols
    requires r == FirstRun(cells, row, cols, x)
    requires b1 == (if x == 0 || skip > 0 then o + Cup(y, x + skip) else o)
    requires v == CellAt(cells, row, x + skip).video && hi == RunEnd(cells, row, cols, x + skip, v)
    requires b == b1 + (Sgr(v) + Data(cells, row, x + skip, hi))
    ensures hi == r.hi && v == r.video && b == o + RunBytes(cells, row, y, r)
  {
    FirstRunIs(cells, row, cols, x, skip, v, hi);
    FirstRunBytes(cells, row, cols, x, y, r);
    MovedThenRun(o, x == 0 || skip > 0, Cup(y, x + skip), b1, Sgr(v) + Data(cells, row, x + skip, hi), b);
  }

  /** The first run from column `x`, spelled out from its parts. */
  lemma FirstRunIs(cells: seq<Cell>, row: nat, cols: nat, x: nat, skip: nat, v: Video, hi: int)
    requires x <= cols && row + cols <= |cells| && skip == Skipped(cells, row, cols, x) && x + skip < cols
    requires v == CellAt(cells, row, x + skip).video && hi == RunEnd(cells, row, cols, x + skip, v)
    ensures FirstRun(cells, row, cols, x) == Run(x == 0 || skip > 0, x + skip, hi, v)
  {
  }

  /**
   * `b1` is `o` after the move `c` when `move` holds, and `b` is `b1` after
   * `rest`: `b` is `o` after the move, if any, and `rest`.
   */
  lemma MovedThenRun(o: seq<byte>, move: bool, c: seq<byte>, b1: seq<byte>, rest: seq<byte>, b: seq<byte>)
    requires b1 == (if move then o + c else o) && b == b1 + rest
    ensures b == o + ((if move then c else []) + rest)
  {
    if move {
      AppendAssoc(o, c, rest);
    } else {
      assert [] + rest == rest;
    }
  }

  lemma Chain3(o: seq<byte>, m: seq<byte>, s: seq<byte>, d: seq<byte>, b1: seq<byte>, b2: seq<byte>, b3: seq<byte>)
    requires b1 == o + m && b2 == b1 + s && b3 == b2 + d
    ensures b3 == o + (m + s + d)
  {
  }

  /** `render_line(t, y)` for the row that starts at cell `row`. */
  function Line(cells: seq<Cell>, row: nat, cols: nat, y: int): seq<byte>
    requires row + cols <= |cells|
  {
    RenderRuns(cells, row, y, RunsFrom(cells, row, cols, 0))
  }

  /** `t->video` after `render_line`. */
  function LineVideo(cells: seq<Cell>, row: nat, cols: nat, v: Video): Video
    requires row + cols <= |cells|
  {
    LastVideo(RunsFrom(cells, row, cols, 0), v)
  }

  lemma {:induction false} DataSplit(cells: seq<Cell>, row: nat, lo: nat, mid: nat, hi: nat)
    requires lo <= mid <= hi && row + hi <= |cells|
    ensures Data(cells, row, lo, hi) == Data(cells, row, lo, mid) + Data(cells, row, mid, hi)
    decreases hi - mid
  {
    if mid < hi {
      DataSplit(cells, row, lo, mid, hi - 1);
    }
  }

  lemma {:induction false} DataEmpty(cells: seq<Cell>, row: nat, lo: nat, hi: nat)
    requires lo <= hi && row + hi <= |cells|
    requires forall j :: lo <= j < hi ==> IsEmpty(CellAt(cells, row, j))
    ensures Data(cells, row, lo, hi) == []
    decreases hi - lo
  {
    if lo < hi {
      assert IsEmpty(CellAt(cells, row, hi - 1));
      DataEmpty(cells, row, lo, hi - 1);
    }
  }

  /** Bytes from `x` to `hi` with nothing from `x` to `lo` are the bytes from `lo` to `mid` then from `mid` on. */
  lemma DataJoin(cells: seq<Cell>, row: nat, x: nat, lo: nat, mid: nat, hi: nat)
    requires x <= lo <= mid <= hi && row + hi <= |cells| && Data(cells, row, x, lo) == []
    ensures Data(cells, row, x, hi) == Data(cells, row, lo, mid) + Data(cells, row, mid, hi)
  {
    DataSplit(cells, row, x, lo, hi);
    DataSplit(cells, row, lo, mid, hi);
    assert Data(cells, row, x, hi) == [] + (Data(cells, row, lo, mid) + Data(cells, row, mid, hi));
  }

  lemma RunsTextCons(cells: seq<Cell>, row: nat, r: Run, rest: seq<Run>)
    ensures RunsText(cells, row, [r] + rest) == Data(cells, row, r.lo, r.hi) + RunsText(cells, row, rest)
  {
    assert ([r] + rest)[1..] == rest;
  }

  /** The runs carry every cell's bytes of the row from `x` on, in column order. */
  lemma {:induction false} RunsCoverRow(cells: seq<Cell>, row: nat, cols: nat, x: nat)
    requires x <= cols && row + cols <= |cells|
    ensures RunsText(cells, row, RunsFrom(cells, row, cols, x)) == Data(cells, row, x, cols)
    decreases cols - x
  {
    var lo := x + Skipped(cells, row, cols, x);
    SkippedEmpty(cells, row, cols, x);
    DataEmpty(cells, row, x, lo);
    if lo < cols {
      var r := FirstRun(cells, row, cols, x);
      var rest := RunsFrom(cells, row, cols, r.hi);
      RunsFromStep(cells, row, cols, x);
      RunsTextCons(cells, row, r, rest);
      RunsCoverRow(cells, row, cols, r.hi);
      DataJoin(cells, row, x, lo, r.hi, cols);
    } else {
      assert RunsFrom(cells, row, cols, x) == [];
    }
  }

  /** `render_line` emits nothing at all exactly when every cell of the row is empty. */
  lemma SilentIffEmpty(cells: seq<Cell>, row: nat, cols: nat, y: int)
    requires row + cols <= |cells|
    ensures Line(cells, row, cols, y) == [] <==> forall j :: 0 <= j < cols ==> IsEmpty(CellAt(cells, row, j))
  {
    var n := Skipped(cells, row, cols, 0);
    var rs := RunsFrom(cells, row, cols, 0);
    SkippedEmpty(cells, row, cols, 0);
    if n < cols {
      assert !IsEmpty(CellAt(cells, row, n));
      assert rs != [];
      assert |Sgr(rs[0].video)| > 0;
    } else {
      assert rs == [];
    }
  }

  /** Row `y` of a `rows` by `cols` grid starts at cell `cols * y` and fits in the grid. */
  lemma RowIndex(rows: int, cols: int, y: int)
    requires 0 <= y < rows && 0 <= cols
    ensures 0 <= cols * y && cols * y + cols <= rows * cols
  {
    assert cols * y + cols == cols * (y + 1);
    assert cols * (y + 1) <= cols * rows;
  }

  // ---------------------------------------------------------------------
  // The whole frame

  /** Rows `0` to `n - 1` rendered in order. */
  function Screen(cells: seq<Cell>, rows: nat, cols: nat, n: nat): seq<byte>
    requires |cells| == rows * cols && n <= rows
  {
    if n == 0 then []
    else
      RowIndex(rows, cols, n - 1);
      Screen(cells, rows, cols, n - 1) + Line(cells, cols * (n - 1), cols, n - 1)
  }

  /** `t->video` after rows `0` to `n - 1`. */
  function ScreenVideo(cells: seq<Cell>, rows: nat, cols: nat, n: nat, v: Video): Video
    requires |cells| == rows * cols && n <= rows
  {
    if n == 0 then v
    else
      RowIndex(rows, cols, n - 1);
      LineVideo(cells, cols * (n - 1), cols, ScreenVideo(cells, rows, cols, n - 1, v))
  }

  /** `term_flush` up to its `write(2)` loop: erase, every row in order, then the cursor position. */
  function Frame(cells: seq<Cell>, rows: nat, cols: nat, y: int, x: int): seq<byte>
    requires |cells| == rows * cols
  {
    Ed + Screen(cells, rows, cols, rows) + Cup(y, x)
  }

  // ---------------------------------------------------------------------
  // term_write

  /** The cells and the cursor column a write leaves behind. */
  datatype Pen = Pen(cells: seq<Cell>, x: int)

  /**
   * `term_write` from byte `i` of `s` on the row starting at cell `row` is
   * defined: every unit `utf8_next` finds is non-empty (otherwise the loop
   * never ends) and lands inside the grid of `size` cells (there is no bounds
   * check).
   */
  predicate Writable(size: int, row: int, x: int, s: seq<byte>, i: nat, wc: WcWidth)
    requires i <= |s|
    decreases |s| - i
  {
    i == |s| ||
    var u := NextUnit(s, i, wc);
    u.end > 0 && 0 <= row + x < size && Writable(size, row, x + u.width, s, i + u.end, wc)
  }

  /** The loop of `term_write(t, v, s)` from byte `i` with the cursor at column `x`. */
  function WriteFrom(cells: seq<Cell>, row: int, x: int, s: seq<byte>, i: nat, v: Video, wc: WcWidth): (r: Pen)
    requires i <= |s| && Writable(|cells|, row, x, s, i, wc)
    ensures |r.cells| == |cells| && r.x >= x
    decreases |s| - i
  {
    if i == |s| then Pen(cells, x)
    else
      var u := NextUnit(s, i, wc);
      WriteFrom(cells[row + x := Cell(v, s[i..i + u.end])], row, x + u.width, s, i + u.end, v, wc)
  }

  /** One turn of the loop of `term_write`: store the unit, move the cursor by its width. */
  lemma WriteUnit(cells: seq<Cell>, row: int, x: int, s: seq<byte>, i: nat, v: Video, wc: WcWidth,
                  u: NextResult, x': int, i': nat)
    requires i < |s| && Writable(|cells|, row, x, s, i, wc) && u == NextUnit(s, i, wc)
    requires x' == x + u.width && i' == i + u.end
    ensures i < i' <= |s| && 0 <= row + x < |cells|
    ensures Writable(|cells|, row, x', s, i', wc)
    ensures WriteFrom(cells, row, x, s, i, v, wc) == WriteFrom(cells[row + x := Cell(v, s[i..i'])], row, x', s, i', v, wc)
  {
  }

  /** One turn of the loop of `term_write`, as the loop takes it: `cells'`, `x'` and `i'` are the state after the turn. */
  lemma WriteStep(cells: seq<Cell>, row: int, x: int, s: seq<byte>, i: nat, v: Video, wc: WcWidth,
                  cells': seq<Cell>, x': int, i': nat)
    requires i < i' <= |s| && x <= x' && Writable(|cells|, row, x, s, i, wc)
    requires NextResult(i' - i, x' - x) == NextUnit(s, i, wc)
    requires 0 <= row + x < |cells| && cells' == cells[row + x := Cell(v, s[i..i'])]
    ensures Writable(|cells'|, row, x', s, i', wc)
    ensures WriteFrom(cells, row, x, s, i, v, wc) == WriteFrom(cells', row, x', s, i', v, wc)
  {
    WriteUnit(cells, row, x, s, i, v, wc, NextUnit(s, i, wc), x', i');
  }

  /** The cells `term_write` stores into. */
  ghost function Starts(size: int, row: int, x: int, s: seq<byte>, i: nat, wc: WcWidth): (ps: set<int>)
    requires i <= |s| && Writable(size, row, x, s, i, wc)
    ensures forall p :: p in ps ==> row + x <= p < size
    decreases |s| - i
  {
    if i == |s| then {}
    else
      var u := NextUnit(s, i, wc);
      {row + x} + Starts(size, row, x + u.width, s, i + u.end, wc)
  }

  /** The sum of the widths of the units, which is how far the cursor moves. */
  function Advance(size: int, row: int, x: int, s: seq<byte>, i: nat, wc: WcWidth): nat
    requires i <= |s| && Writable(size, row, x, s, i, wc)
    decreases |s| - i
  {
    if i == |s| then 0
    else
      var u := NextUnit(s, i, wc);
      u.width + Advance(size, row, x + u.width, s, i + u.end, wc)
  }

  /**
   * A write moves the cursor by the widths of its units, changes only the
   * cells it stores into, and a unit that has width stays where it was written.
   */
  lemma {:induction false} WriteEffect(cells: seq<Cell>, row: int, x: int, s: seq<byte>, i: nat, v: Video, wc: WcWidth, k: int)
    requires i <= |s| && Writable(|cells|, row, x, s, i, wc) && 0 <= k < |cells|
    ensures var r := WriteFrom(cells, row, x, s, i, v, wc);
      && r.x == x + Advance(|cells|, row, x, s, i, wc)
      && (k !in Starts(|cells|, row, x, s, i, wc) ==> r.cells[k] == cells[k])
      && (i < |s| && k == row + x && NextUnit(s, i, wc).width > 0 ==>
            r.cells[k] == Cell(v, s[i..i + NextUnit(s, i, wc).end]))
    decreases |s| - i
  {
    if i < |s| {
      var u := NextUnit(s, i, wc);
      var c := cells[row + x := Cell(v, s[i..i + u.end])];
      WriteEffect(c, row, x + u.width, s, i + u.end, v, wc, k);
    }
  }

  /** A double-width unit takes one cell: the cell after it is not written by it or by what follows. */
  lemma WideUnitSkipsCell(size: int, row: int, x: int, s: seq<byte>, wc: WcWidth)
    requires |s| > 0 && Writable(size, row, x, s, 0, wc) && NextUnit(s, 0, wc).width == 2
    ensures row + x in Starts(size, row, x, s, 0, wc)
    ensures row + x + 1 !in Starts(size, row, x, s, 0, wc)
  {
    var u := NextUnit(s, 0, wc);
    var rest := Starts(size, row, x + 2, s, u.end, wc);
    assert Starts(size, row, x, s, 0, wc) == {row + x} + rest;
  }

  // ---------------------------------------------------------------------
  // The terminal object

  /** Empties the `n` cells from `base` on, after a prefix already empty. */
  method BlankRow(a: array<Cell>, base: nat, n: nat)
    requires base + n <= a.Length && forall k :: 0 <= k < base ==> a[k] == Empty
    modifies a
    ensures forall k :: 0 <= k < base + n ==> a[k] == Empty
  {
    for c := 0 to n
      invariant forall k :: 0 <= k < base + c ==> a[k] == Empty
    {
      a[base + c] := Empty;
    }
  }

  class Term {
    var rows: int
    var cols: int
    var y: int
    var x: int
    /** Which of the two buffers is drawn into (`CELL`); flipped by every flush. */
    var i: bit
    var buf0: array<Cell>
    var buf1: array<Cell>
    /** The video of the last SGR rendered. */
    var video: Video
    /** The output accumulated for one flush. */
    var buffer: seq<byte>

    ghost predicate Valid()
      reads this`buf0, this`buf1, this`rows, this`cols
    {
      buf0 != buf1 && 0 <= rows && 0 <= cols && buf0.Length == rows * cols && buf1.Length == rows * cols
    }

    /** `t->buffers[t->i]`. */
    function Active(): array<Cell>
      reads this`i, this`buf0, this`buf1
    {
      if i == 0 then buf0 else buf1
    }

    /** `t->buffers[!t->i]`. */
    function Inactive(): array<Cell>
      reads this`i, this`buf0, this`buf1
    {
      if i == 0 then buf1 else buf0
    }

    function Cells(): seq<Cell>
      reads this`i, this`buf0, this`buf1, buf0, buf1
    {
      Active()[..]
    }

    /** `term_init(t, rows, cols)`. */
    constructor (rows0: int, cols0: int)
      requires 0 <= rows0 && 0 <= cols0
      ensures Valid() && rows == rows0 && cols == cols0
      ensures y == 0 && x == 0 && i == 0 && video == Normal && buffer == []
      ensures buf0[..] == Blank(rows0 * cols0) && buf1[..] == Blank(rows0 * cols0)
    {
      y, x, rows, cols, i := 0, 0, 0, 0, 0;
      buf0 := new Cell[0];
      buf1 := new Cell[0];
      video := Normal;
      buffer := [];
      new;
      Resize(rows0, cols0);
    }

    /** `term_resize(t, rows, cols)`: both buffers re-sized and zeroed; cursor and parity kept. */
    method Resize(r: int, c: int)
      requires 0 <= r && 0 <= c
      modifies this
      ensures Valid() && rows == r && cols == c && fresh(buf0) && fresh(buf1)
      ensures buf0[..] == Blank(r * c) && buf1[..] == Blank(r * c)
      ensures y == old(y) && x == old(x) && i == old(i) && video == old(video) && buffer == old(buffer)
    {
      buf0 := new Cell[r * c](_ => Empty);
      buf1 := new Cell[r * c](_ => Empty);
      rows, cols := r, c;
    }

    /** `term_move(t, y, x)`. */
    method Move(y': int, x': int)
      modifies this`y, this`x
      ensures y == y' && x == x'
    {
      y, x := y', x';
    }

    /** `term_clear(t)`: every cell of the active buffer emptied, the other buffer untouched. */
    method Clear()
      requires Valid()
      modifies Active()
      ensures Cells() == Blank(rows * cols)
      ensures Inactive()[..] == old(Inactive()[..])
    {
      var a := Active();
      for r := 0 to rows
        invariant forall k :: 0 <= k < cols * r ==> a[k] == Empty
      {
        RowIndex(rows, cols, r);
        BlankRow(a, cols * r, cols);
        assert cols * r + cols == cols * (r + 1);
      }
      assert a[..] == Blank(rows * cols);
    }

    /**
     * `term_write(t, v, s)`: each unit `utf8_next` finds goes into the cell under
     * the cursor with video `v`, and the cursor moves on by the unit's width.
     */
    method Write(v: Video, s: seq<byte>, wc: WcWidth)
      requires Valid() && NoNul(s) && Writable(rows * cols, cols * y, x, s, 0, wc)
      modifies this`x, Active()
      ensures Inactive()[..] == old(Inactive()[..])
      ensures WriteFrom(old(Cells()), cols * y, old(x), s, 0, v, wc) == Pen(Cells(), x)
    {
      var a := Active();
      ghost var start := a[..];
      var row := cols * y;
      var n := 0;
      while n < |s|
        invariant 0 <= n <= |s| && Writable(a.Length, row, x, s, n, wc)
        invariant WriteFrom(start, row, old(x), s, 0, v, wc) == WriteFrom(a[..], row, x, s, n, v, wc)
        decreases |s| - n
      {
        var bytes, width := Utf8Next(s, n, wc);
        var next := n + bytes;
        ghost var before, x0, n0 := a[..], x, n;
        WriteUnit(before, row, x0, s, n0, v, wc, NextResult(bytes, width), x0 + width, next);
        a[row + x] := Cell(v, s[n..next]);
        x := x + width;
        n := next;
        WriteStep(before, row, x0, s, n0, v, wc, a[..], x, n);
      }
    }

    /** `render(t, s)`. */
    method Render(s: seq<byte>)
      modifies this`buffer
      ensures buffer == old(buffer) + s
    {
      buffer := buffer + s;
    }

    /** `render_video(t)`. */
    method RenderVideo()
      modifies this`buffer
      ensures buffer == old(buffer) + Sgr(video)
    {
      Render(Sgr(video));
    }

    /** `skip_empty(t, y, x)`; `cells` is the active buffer. */
    method SkipEmpty(y': int, x': int, ghost cells: seq<Cell>) returns (n: nat)
      requires Valid() && 0 <= y' < rows && 0 <= x' <= cols && cells == Cells()
      ensures 0 <= cols * y' && cols * y' + cols <= |cells| && n == Skipped(cells, cols * y', cols, x')
    {
      RowIndex(rows, cols, y');
      var a := Active();
      var row := cols * y';
      n := 0;
      while x' + n < cols && IsEmpty(a[row + (x' + n)])
        invariant x' + n <= cols
        invariant Skipped(cells, row, cols, x') == n + Skipped(cells, row, cols, x' + n)
        decreases cols - n
      {
        n := n + 1;
      }
    }

    /**
     * The inner loop of `render_line`: the data of the cells from column `lo` on
     * while their video is `t->video`; returns the column where it stops.  `cells`
     * is the active buffer, which rendering does not change.
     */
    method RenderCells(y': int, lo: int, ghost cells: seq<Cell>) returns (hi: int)
      requires Valid() && 0 <= y' < rows && 0 <= lo <= cols && cells == Cells()
      modifies this`buffer
      ensures 0 <= cols * y' && cols * y' + cols <= |cells|
      ensures hi == RunEnd(cells, cols * y', cols, lo, video)
      ensures buffer == old(buffer) + Data(cells, cols * y', lo, hi)
    {
      RowIndex(rows, cols, y');
      var a := Active();
      var row := cols * y';
      hi := lo;
      while hi < cols && a[row + hi].video == video
        invariant lo <= hi <= cols
        invariant RunEnd(cells, row, cols, lo, video) == RunEnd(cells, row, cols, hi, video)
        invariant buffer == old(buffer) + Data(cells, row, lo, hi)
        decreases cols - hi
      {
        RunEndStep(cells, row, cols, hi, video);
        DataStep(cells, row, lo, hi);
        var c := a[row + hi];
        assert c == CellAt(cells, row, hi);
        Render(c.data);
        AppendAssoc(old(buffer), Data(cells, row, lo, hi), c.data);
        hi := hi + 1;
      }
      RunEndStop(cells, row, cols, hi, video);
    }

    /**
     * The second half of one pass of the loop of `render_line`: the SGR of the
     * cell at column `lo`, then the bytes of the cells of its run.
     */
    method RenderSpan(y': int, lo: int, ghost cells: seq<Cell>) returns (hi: int)
      requires Valid() && 0 <= y' < rows && 0 <= lo < cols && cells == Cells()
      modifies this`buffer, this`video
      ensures 0 <= cols * y' && cols * y' + cols <= |cells|
      ensures video == CellAt(cells, cols * y', lo).video
      ensures hi == RunEnd(cells, cols * y', cols, lo, video)
      ensures buffer == old(buffer) + (Sgr(video) + Data(cells, cols * y', lo, hi))
    {
      RowIndex(rows, cols, y');
      var a := Active();
      var first := a[cols * y' + lo];
      assert first == CellAt(cells, cols * y', lo);
      video := first.video;
      RenderVideo();
      ghost var b := buffer;
      hi := RenderCells(y', lo, cells);
      AppendAssoc(old(buffer), Sgr(video), Data(cells, cols * y', lo, hi));
    }

    /**
     * One pass of the loop of `render_line`: the cursor move when the run does not
     * follow the previous one, the run's SGR, then the bytes of its cells.
     */
    method RenderRun(y': int, x0: int, skip: nat, ghost cells: seq<Cell>, ghost r: Run) returns (x1: int)
      requires Valid() && 0 <= y' < rows && 0 <= x0 && x0 + skip < cols && cells == Cells()
      requires cols * y' + cols <= |cells| && skip == Skipped(cells, cols * y', cols, x0)
      requires r == FirstRun(cells, cols * y', cols, x0)
      modifies this`buffer, this`video
      ensures x1 == r.hi && video == r.video
      ensures buffer == old(buffer) + RunBytes(cells, cols * y', y', r)
    {
      RowIndex(rows, cols, y');
      if x0 == 0 || skip > 0 {
        Render(Cup(y', x0 + skip));
      }
      ghost var b1 := buffer;
      x1 := RenderSpan(y', x0 + skip, cells);
      RunSpliced(cells, cols * y', cols, x0, skip, y', r, old(buffer), b1, buffer, video, x1);
    }

    /** `render_line(t, y)`; `cells` is the active buffer, which rendering does not change. */
    method RenderLine(y': int, ghost cells: seq<Cell>)
      requires Valid() && 0 <= y' < rows && cells == Cells()
      modifies this`buffer, this`video
      ensures 0 <= cols * y' && cols * y' + cols <= |cells|
      ensures buffer == old(buffer) + Line(cells, cols * y', cols, y')
      ensures video == LineVideo(cells, cols * y', cols, old(video))
      ensures cells == Cells()
    {
      RowIndex(rows, cols, y');
      var row := cols * y';
      var xx := 0;
      while true
        invariant 0 <= xx <= cols && row + cols <= |cells| && cells == Cells()
        invariant old(buffer) + Line(cells, row, cols, y') == buffer + RenderRuns(cells, row, y', RunsFrom(cells, row, cols, xx))
        invariant LineVideo(cells, row, cols, old(video)) == LastVideo(RunsFrom(cells, row, cols, xx), video)
        decreases cols - xx
      {
        var skip := SkipEmpty(y', xx, cells);
        if xx + skip == cols {
          RunsFromDone(cells, row, cols, xx);
          assert buffer + [] == buffer;
          break;
        }
        ghost var r := FirstRun(cells, row, cols, xx);
        RunsFromStep(cells, row, cols, xx);
        ghost var rest := RunsFrom(cells, row, cols, r.hi);
        RenderRunsCons(cells, row, y', r, rest);
        LastVideoCons(r, rest, video);
        ghost var b0 := buffer;
        xx := RenderRun(y', xx, skip, cells, r);
        AppendAssoc(b0, RunBytes(cells, row, y', r), RenderRuns(cells, row, y', RunsFrom(cells, row, cols, xx)));
      }
    }

    /** `render_move(t, y, x)`. */
    method RenderMove(y': int, x': int)
      modifies this`buffer
      ensures buffer == old(buffer) + Cup(y', x')
    {
      Render(Cup(y', x'));
    }

    /** The `render_line` loop of `term_flush`: every row of the active buffer, top to bottom. */
    method RenderScreen(ghost cells: seq<Cell>)
      requires Valid() && cells == Cells()
      modifies this`buffer, this`video
      ensures buffer == old(buffer) + Screen(cells, rows, cols, rows)
      ensures video == ScreenVideo(cells, rows, cols, rows, old(video))
    {
      for r := 0 to rows
        invariant cells == Cells()
        invariant buffer == old(buffer) + Screen(cells, rows, cols, r)
        invariant video == ScreenVideo(cells, rows, cols, r, old(video))
      {
        RenderLine(r, cells);
        AppendAssoc(old(buffer), Screen(cells, rows, cols, r), Line(cells, cols * r, cols, r));
      }
    }

    /** `flush(t)`: hands the whole output buffer to `write(2)` and empties it. */
    method WriteOut() returns (out: seq<byte>)
      modifies this`buffer
      ensures out == old(buffer) && buffer == []
    {
      out := buffer;
      buffer := [];
    }

    /**
     * `term_flush(t)`: erase, every row, the cursor; the accumulated bytes are
     * what the `write(2)` loop hands to standard output, which leaves the
     * accumulator empty; then the parity bit flips, so the other buffer
     * becomes the active one.
     */
    method Flush() returns (out: seq<byte>)
      requires Valid()
      modifies this`buffer, this`video, this`i
      ensures out == old(buffer) + Frame(old(Cells()), rows, cols, y, x)
      ensures video == ScreenVideo(old(Cells()), rows, cols, rows, old(video))
      ensures buffer == [] && i == 1 - old(i)
    {
      ghost var cells := Cells();
      Render(Ed);
      ghost var b1 := buffer;
      RenderScreen(cells);
      ghost var b2 := buffer;
      RenderMove(y, x);
      Chain3(old(buffer), Ed, Screen(cells, rows, cols, rows), Cup(y, x), b1, b2, buffer);
      out := WriteOut();
      i := 1 - i;
    }
  }
}
