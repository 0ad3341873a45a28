# eria core, modelled in Dafny

eria is a terminal IRC client. This project models the parts of it that are
plain computation and proves what they promise:

- **the window layout tree** (`src/window.c`);
- **text metrics** over UTF-8 (`include/utf8.h`);
- **the cell grid and its renderer** (`src/term.c`);
- **the frame composer** (`src/ui.c`), which turns messages, the status line
  and the input line into terminal calls;
- **the regular-expression engine** (`src/re.c`);
- **the nick to time-stamp map** (`src/tsmap.c`);
- **the message markup formatter and sanitiser** (`src/message.c`);
- **the input-line editor and the key handler** (`src/input.c`).

## How the model is built

There is one Dafny module per source file, plus three shared modules:
`Bytes` (bytes, digits and C-string helpers), `Wrappers` (`Option`) and
`Keys` (the key table of `src/input.c`). `RegexParse`, `Classes`, `Nfa` and
`Match` split `src/re.c` into its parser, its character classes, Thompson's
construction and the matcher. `UiText`, `UiMessage` and `UiWindow` split
`src/ui.c` into inline text, one message, and one window plus the screen.
`Buffers` and `InputLine` hold the buffer record and the line editor.
`Client` holds the actions of `src/input.c` that change the whole client
state.

Code that changes state step by step is written as imperative Dafny. Each
such method is proved against a specification function:

- `Window.Layout` keeps the window tree as an arena `seq<Node>`. The root is
  index 0 and every child has a larger index than its parent. Parent links
  are `Option<nat>`, and deleted nodes are marked `Freed`.
- `Terminal.Term` keeps the two cell buffers as arrays, chosen by the
  parity bit `i`. It also keeps the byte accumulator `buffer`.
- `TsMap.Map` keeps its slot table as an array.
- `Nfa.Automaton` keeps its states as a sequence that `AddState` and
  `Transition` grow and patch.
- `Buffers.Buffer` and `Client.Eria` hold the input line and the client
  state.

The read-only loops are methods whose `ensures` ties them to a function:
`utf8_fit`, `calcwidth`, `drawtext`, the word wrap, `searchclass`, `domatch`,
`lookup` and the others.

A C string is a `seq<byte>` holding its content. The NUL at index `|s|` is
read by `Bytes.At`. `mk_wcwidth`, which lives in `unicode.h`, is a parameter
`wc: WcWidth`: any function from code points to -1..2. Several C behaviours
are written out explicitly:

- `char` is signed (x86) where `tsmap.c` hashes a nick, and in the
  as-written halves of two findings about `re.c`
  (`Match.FiresAsWritten`, `Classes.EntryAsWritten`); the compiled matcher
  itself compares and builds class entries unsigned (see "Left out");
- `int` division truncates;
- the djb2 hashes wrap at 2^32;
- the class count in `charclass` is a `uint8_t` that wraps at 256.

Loops the C code runs without end become a `None` result or a
precondition. `UiMessage.WrapFrom` is `None` where the wrap loop of
`draw_message` spins. `UiWindow.ScrollOffset` is `None` where the
scroll-offset loop spins. `Terminal.Writable` excludes strings on which
`term_write` loops forever. One such loop is not modelled: the one-byte
fallback of `drawtext` (see `UiText.DrawText` under "Left out"). The backtracking matcher, which has no
visited set, runs on fuel and reports `Unfinished` when the fuel runs out.

## Model

| member | source | states |
|---|---|---|
| Utf8.LeadLength | include/utf8.h:27-35 | the sequence length a lead byte announces is at most 4 |
| Utf8.Decode | include/utf8.h:11-52 | a decoded unit is 1 to 4 bytes long, stays inside the string and never exceeds a non-negative `len` |
| Utf8.DecodeFails | include/utf8.h:17-51 | decoding fails exactly for len 0, a NUL lead, a 0x80-0xBF lead, a lead at or above 0xF8, a `len` shorter than the sequence, or a NUL continuation byte |
| Utf8.DecodeLoop | include/utf8.h:27-49 | a multi-byte lead contributes its low bits and each continuation byte six more bits, as the loop does |
| Utf8.DecodeBound | include/utf8.h:17-51 | decoding with a smaller `len` gives the same unit when it still fits, and fails otherwise |
| Utf8.NextUtf8 | include/utf8.h:11-52 | `next_utf8` returns -1 exactly when the decoding fails; otherwise it returns the unit's length and code point |
| Utf8.Utf8Valid | include/utf8.h:54-68 | `utf8_valid` is true exactly when repeated decoding consumes the whole string without failing |
| Utf8.ValidHasNoNul | include/utf8.h:54-68 | a valid string holds no NUL byte |
| Utf8.ValidConcat | include/utf8.h:54-68 | two valid strings concatenated are valid |
| Utf8.ValidShift | include/utf8.h:54-68 | validity of a suffix does not depend on what precedes it |
| Utf8.DecodeShift | include/utf8.h:11-52 | decoding looks only forward from its position |
| Utf8.DecodeExtend | include/utf8.h:11-52 | a unit that decodes inside a prefix decodes the same after text is appended |
| Utf8.Scan | include/utf8.h:98-108 | a printable unit has 1 to 4 bytes, fits in `len` and has width at most 2 |
| Utf8.ScanOf | include/utf8.h:98-108 | invalid sequences, control code points and width -1 code points are skipped; every other unit is printable with `mk_wcwidth`'s width |
| Utf8.StepLength | include/utf8.h:130-146 | each step of the width scan advances 1 to `e - i` bytes |
| Utf8.Utf8Width | include/utf8.h:123-149 | the loop of `utf8_width` returns the left fold of the unit widths over the first `len` bytes |
| Utf8.WidthTurn | include/utf8.h:130-146 | one turn of the loop moves that many columns from the rest of the scan to the total |
| Utf8.WidthSplit | include/utf8.h:123-149 | the width is additive across any boundary the scan reaches |
| Utf8.WidthConcat | include/utf8.h:123-149 | the width of a concatenation of whole strings is the sum of their widths |
| Utf8.WidthShift | include/utf8.h:123-149 | the width of a suffix does not depend on what precedes it |
| Utf8.ColorLength | include/utf8.h:80-95 | a byte-3 colour code takes 1 to 16 bytes, never past the string |
| Utf8.ColorLengthShape | include/utf8.h:80-95 | the `#` form takes 16 bytes, clipped to the string; otherwise the code is byte 3 with up to two digits and a comma, and a background digit only after two digits and a comma |
| Utf8.FitFrom | include/utf8.h:70-121 | the fitted end stays in the string and the columns left never exceed the budget |
| Utf8.FitTurn | include/utf8.h:70-121 | one turn of `utf8_fit` either stops or advances at least one byte with the same outcome |
| Utf8.Utf8Fit | include/utf8.h:70-121 | the loop of `utf8_fit` returns the end `FitFrom` describes |
| Utf8.FitStops | include/utf8.h:110-111 | `utf8_fit` stops before the end only at a printable unit wider than the columns left |
| Utf8.FitNext | include/utf8.h:80-111 | colour codes and skipped bytes are consumed at zero width even with no columns left |
| Utf8.FitWidth | include/utf8.h:70-121 | on text without colour codes the consumed width is the budget minus what is left, so at most the budget |
| Utf8.NextFrom | include/utf8.h:151-180 | a unit ends in the string, has width 0 to 2, and keeps a positive width once it has one |
| Utf8.NextUnit | include/utf8.h:151-180 | `utf8_next`'s unit is the scan from width 0 |
| Utf8.NextStops | include/utf8.h:151-180 | the unit is empty exactly when the scan must stop at once, and it ends where the scan must stop |
| Utf8.NextWidth | include/utf8.h:151-180 | the unit's width is that of its one positive-width code point |
| Utf8.Utf8Next | include/utf8.h:151-180 | the loop of `utf8_next` returns that unit's length and width |
| WindowTree.Place | src/window.c:61-107 | a node placed on an axis gets that offset and extent and keeps the other axis, its parent and its payload |
| WindowTree.FirstShareIsCeiling | src/window.c:61-107 | the first child's share of an extent is its ceiling half and exceeds the second share by 0 or 1 |
| WindowTree.Root | src/window.c:53-59 | `root` of a live node is node 0, an ancestor of that node |
| WindowTree.ParentOf | src/window.c:53-59 | only the root has no parent, and a parent names its child |
| WindowTree.BelowIndex | src/window.c:53-59 | an ancestor has a smaller index than its descendants |
| WindowTree.BelowTrans | src/window.c:53-59 | being below is transitive |
| WindowTree.SiblingsDisjoint | src/window.c:32-51 | no node is below both children of a split |
| WindowTree.Find | src/window.c:32-51 | `find` returns a leaf below the node it starts from |
| WindowTree.FindContains | src/window.c:32-51 | in a tiled tree, `find` for a point inside a node returns the leaf whose rectangle holds that point |
| WindowTree.Spread | src/window.c:61-107 | one balancing step gives the children halves of the split axis and the parent's other axis, and changes no other node |
| WindowTree.Balanced | src/window.c:61-107 | balancing changes no link of the tree |
| WindowTree.BalancedUntouched | src/window.c:61-107 | balancing leaves the node itself and every node outside its subtree unchanged |
| WindowTree.BalancedSameExcept | src/window.c:61-107 | balancing changes only the balanced axis of any node |
| WindowTree.BalancedHalvesAt | src/window.c:61-107 | after balancing, every split under the node gives its first child the ceiling half and its second child the rest, placed right after the first |
| WindowTree.BalancedHalves | src/window.c:61-107 | after balancing, every split below the node halves the balanced axis between its children |
| WindowTree.BalancedTiled | src/window.c:61-107 | balancing keeps the tree well formed and tiled |
| WindowTree.SplitLeaf | src/window.c:267-305 | a split appends the two children and turns the leaf into a split naming them |
| WindowTree.SplitShares | src/window.c:272-273 | the two shares sum to the extent; with size -1 the first child gets the odd row or column; an explicit size is clamped to the extent |
| WindowTree.SplitChildren | src/window.c:272-304 | the children of `hsplit` share the width and x, the top at y and the bottom below it, the top keeping buffer, scroll and resize; `vsplit` mirrors this on x, and its left child keeps only the buffer; the new child shows the new buffer with scroll 0 |
| WindowTree.SplitLeafValid | src/window.c:267-305 | splitting a leaf keeps the tree well formed and tiled |
| WindowTree.GrowChild | src/window.c:205-253 | the child `grow_*` adjusts is a live ancestor of the window whose parent is a split of the matching kind |
| WindowTree.GrowChildNone | src/window.c:205-253 | no child is found exactly when no ancestor has the matching split |
| WindowTree.Grown | src/window.c:205-253 | growing changes no link of the tree |
| WindowTree.Adjusted | src/window.c:205-253 | the adjusted child gains `d` along the axis and its sibling loses `d`; nothing else changes on other nodes |
| WindowTree.GrownExtents | src/window.c:205-253 | after growing, the child has `d` more extent and its sibling `d` less, and their parent is unchanged |
| WindowTree.GrownValid | src/window.c:205-253 | growing keeps the tree well formed and tiled |
| WindowTree.Sibling | src/window.c:6 | a non-root node has a live sibling under the same parent |
| WindowTree.Unlinked | src/window.c:307-341 | deleting keeps the arena's size |
| WindowTree.UnlinkedAt | src/window.c:313-338 | the deleted window and its sibling are freed, the parent takes the sibling's payload, the sibling's children are re-parented, and no other node changes |
| WindowTree.Deleted | src/window.c:307-341 | deleting a leaf keeps the tree well formed |
| WindowTree.DeletedParent | src/window.c:323-335 | the parent gets the sibling's payload and keeps its own rectangle; the sibling's children now name the parent |
| WindowTree.DeletedValid | src/window.c:307-341 | deleting a leaf keeps the tree tiled |
| WindowTree.DeleteFocusAsWritten | src/window.c:340 | the call as written, with the parent's x as the row and its y as the column, returns a leaf below the deleted window's parent |
| WindowTree.DeleteFocus | src/window.c:307-341 | `find` from the parent, row first, returns a leaf below the deleted window's parent |
| WindowTree.DeleteFocusCorner | src/window.c:340 | in a tiled tree, the window returned covers the parent's top-left cell, which is what the parent's own rectangle makes it take over |
| WindowTree.SwappedFocusExample | src/window.c:340 | on a tiled 24x80 layout, deleting a window whose sibling is split top and bottom makes the call as written return the bottom leaf, which misses the parent's top-left cell; the corrected call returns the top leaf |
| WindowTree.Leaves | src/window.c:115-159 | the leaves of a node, left to right, are leaves below it, and there is at least one |
| WindowTree.LeavesDistinct | src/window.c:115-159 | no leaf appears twice in that order |
| WindowTree.LeavesComplete | src/window.c:115-159 | every leaf below the node appears in that order |
| WindowTree.LeavesOfSplit | src/window.c:115-159 | the leaves of a split are the leaves of its first child followed by those of its second |
| WindowTree.NextAcross | src/window.c:115-136 | the leaf after the last leaf of a first child is the first leaf of its sibling |
| WindowTree.NextWraps | src/window.c:115-136 | the leaf after the last leaf of the tree is its first leaf |
| WindowTree.NextThenPrev | src/window.c:115-159 | the cyclic order has one predecessor per leaf, so `window_prev` undoes `window_next` |
| WindowTree.CyclicNextUnique | src/window.c:115-136 | in the leaf order each leaf has exactly one next leaf |
| WindowTree.CyclicPrevUnique | src/window.c:138-159 | in the leaf order each leaf is the next of exactly one leaf |
| Window.Layout.constructor | src/window.c:109-113 | `window_root` makes a single leaf of the given size at the origin with no buffer |
| Window.Layout.New | src/window.c:14-30 | `new` appends a leaf with the given rectangle and parent, no buffer, scroll 0 and resize false |
| Window.Layout.Balance | src/window.c:61-107 | `hbalance`/`vbalance` leave the arena as `Balanced` describes |
| Window.Layout.HSplit | src/window.c:267-287 | `window_hsplit` leaves the arena as `SplitLeaf` describes and keeps it valid |
| Window.Layout.VSplit | src/window.c:289-305 | `window_vsplit` leaves the arena as `SplitLeaf` describes and keeps it valid |
| Window.Layout.FindGrowChild | src/window.c:205-253 | the upward search of `grow_*` finds the child `GrowChild` names |
| Window.Layout.Adjust | src/window.c:205-253 | the in-place adjustment of one split is `Adjusted` |
| Window.Layout.Grow | src/window.c:205-253 | growing leaves the arena as `Grown` describes and keeps it valid |
| Window.Layout.GrowY | src/window.c:205-228 | `window_grow_y` is a grow along y |
| Window.Layout.GrowX | src/window.c:230-253 | `window_grow_x` is a grow along x |
| Window.Layout.SetHeight | src/window.c:255-259 | `window_set_height` grows y by the difference from the current height |
| Window.Layout.SetWidth | src/window.c:261-265 | `window_set_width` grows x by the difference from the current width |
| Window.Layout.Delete | src/window.c:307-341 | `window_delete` on the root returns it unchanged; otherwise it leaves the arena as `Deleted` describes and returns the leaf `DeleteFocus` names, with `find`'s row and column in the intended order (see Findings) |
| Window.Layout.Right | src/window.c:161-170 | returns a leaf: the window itself at the right edge, otherwise the leaf holding the point just right of it |
| Window.Layout.Left | src/window.c:172-181 | returns a leaf: the window itself at the left edge, otherwise the leaf holding the point just left of it |
| Window.Layout.Up | src/window.c:183-192 | returns a leaf: the window itself at the top edge, otherwise the leaf holding the point just above it |
| Window.Layout.Down | src/window.c:194-203 | returns a leaf: the window itself at the bottom edge, otherwise the leaf holding the point just below it |
| Window.Layout.Probe | src/window.c:32-51 | the probe from the root returns the leaf that holds a point inside the screen |
| Window.Layout.ClimbWhileSecond | src/window.c:115-136 | climbing while the node is a second child stops at the highest node whose last leaf is the window |
| Window.Layout.ClimbWhileFirst | src/window.c:138-159 | climbing while the node is a first child stops at the highest node whose first leaf is the window |
| Window.Layout.DescendFirst | src/window.c:115-136 | descending through first children ends at the node's first leaf |
| Window.Layout.DescendLast | src/window.c:138-159 | descending through second children ends at the node's last leaf |
| Window.Layout.Next | src/window.c:115-136 | `window_next` returns the leaf after the window in the cyclic left-to-right order of all leaves |
| Window.Layout.Prev | src/window.c:138-159 | `window_prev` returns the leaf before the window in that order |
| Terminal.Sgr | src/term.c:75-112 | the SGR sequence is never empty |
| Terminal.RenderVideoBytes | src/term.c:75-112 | `render_video` writes `ESC[0;`, the flag parameters, the two direct colours (defaults 220,220,220 and 20,20,20) and ends the last `;` as `m` |
| Terminal.ParamsText | src/term.c:75-112 | those bytes are `ESC[` followed by every SGR parameter in order, each ended by `;` |
| Terminal.FlagsText | src/term.c:92-95 | the bold, italic, underline and reverse flags give `1;`, `3;`, `4;` and `7;` when set |
| Terminal.ColorsText | src/term.c:97-107 | the colours give `38;2;r;g;b;48;2;r;g;b;` |
| Terminal.Skipped | src/term.c:122-131 | `skip_empty` never passes the end of the row |
| Terminal.SkippedEmpty | src/term.c:122-131 | the cells skipped are empty, and the scan stops at the end of the row or at a non-empty cell |
| Terminal.RunEndSame | src/term.c:133-150 | a run covers the cells with the same Video and stops at the end of the row or at a different Video |
| Terminal.RunEnd | src/term.c:141-147 | a run stays in the row and takes at least its first cell when that cell has the run's Video |
| Terminal.FirstRun | src/term.c:133-150 | the run after skipped empty cells is non-empty and inside the row |
| Terminal.RunsGood | src/term.c:133-150 | every run `render_line` makes lies inside the row, starts at a non-empty cell and is a maximal same-Video run |
| Terminal.RunMoves | src/term.c:133-150 | a run starts with a cursor move exactly at the row's start or after skipped empty cells |
| Terminal.RunsCoverCells | src/term.c:133-150 | every non-empty cell of the row is in some run |
| Terminal.RunsCoverRow | src/term.c:133-150 | the runs together write the bytes of every cell of the row in column order |
| Terminal.SilentIffEmpty | src/term.c:133-150 | a row writes nothing exactly when all its cells are empty |
| Terminal.WriteFrom | src/term.c:189-203 | writing keeps the grid's size and never moves the pen left |
| Terminal.WriteUnit | src/term.c:195-202 | one turn of `term_write` stores the unit and the Video in the pen's cell and moves the pen by the unit's width |
| Terminal.WriteEffect | src/term.c:189-203 | after a write the pen has moved by the sum of the widths, cells where no unit started are unchanged, and the first cell holds the first unit |
| Terminal.WideUnitSkipsCell | src/term.c:197-200 | a width-2 unit is written into one cell and the next cell is skipped |
| Terminal.Starts | src/term.c:189-203 | every cell a write starts a unit in lies between the pen and the end of the grid |
| Terminal.Term.constructor | src/term.c:167-180 | `term_init` sets the size, puts the pen at the origin with parity 0, empties the accumulator and blanks both buffers |
| Terminal.Term.Resize | src/term.c:152-165 | `term_resize` makes both buffers rows·cols empty cells and sets the size; pen, parity, Video and accumulator are unchanged |
| Terminal.Term.Move | src/term.c:182-187 | `term_move` sets only y and x |
| Terminal.Term.Clear | src/term.c:236-242 | `term_clear` empties every cell of the active buffer and leaves the other buffer untouched |
| Terminal.Term.Write | src/term.c:189-203 | `term_write` changes the active buffer and the pen as `WriteFrom` describes and leaves the other buffer untouched |
| Terminal.Term.Render | src/term.c:69-73 | `render` appends the bytes to the accumulator |
| Terminal.Term.RenderVideo | src/term.c:75-112 | `render_video` appends the SGR sequence of the Video |
| Terminal.Term.RenderMove | src/term.c:114-120 | `render_move` appends a CUP to the one-based row and column |
| Terminal.Term.SkipEmpty | src/term.c:122-131 | the loop of `skip_empty` counts the empty cells `Skipped` counts |
| Terminal.Term.RenderCells | src/term.c:141-147 | the inner loop of `render_line` appends the bytes of the cells of one run |
| Terminal.Term.RenderSpan | src/term.c:138-148 | a run appends its SGR followed by its cells' bytes |
| Terminal.Term.RenderRun | src/term.c:133-150 | one run appends an optional CUP, its SGR and its cells' bytes |
| Terminal.Term.RenderLine | src/term.c:133-150 | `render_line` appends the row's bytes as `Line` describes |
| Terminal.Term.RenderScreen | src/term.c:249-250 | the rows are appended in order |
| Terminal.Term.WriteOut | src/term.c:20-32 | `flush` hands over the accumulated bytes and empties the accumulator |
| Terminal.Term.Flush | src/term.c:244-257 | `term_flush` writes ED `ESC[2J`, then every row in order, then a CUP to the pen; then it flips the parity bit |
| UiText.ColorCode | src/ui.c:86-131 | `colorcode` fails only on a `#` not followed by six hex digits, and never moves past the string |
| UiText.ColorCodeNumber | src/ui.c:117-130 | on digits it returns `table[(i+1) % 17]` and consumes one or two digits; on anything but a digit or `#` it returns the default and consumes nothing |
| UiText.ColorCodeWraps | src/ui.c:130 | colour 16 wraps to the first table entry, the default sentinel |
| UiText.ColorCodeReadsFormatter | src/ui.c:109-115 | `colorcode` reads back both colours of a code the formatter writes |
| UiText.TokenAt | src/ui.c:141-172 | every token takes at least one byte and stays in the string |
| UiText.ReadToken | src/ui.c:141-172 | the `switch` of `calcwidth` and `drawtext` reads the token `TokenAt` describes |
| UiText.CalcWidth | src/ui.c:133-175 | the loop of `calcwidth` returns the width `WidthFrom` describes |
| UiText.WidthTurn | src/ui.c:141-172 | one turn adds the token's width to the total |
| UiText.CalcWidthAgrees | src/ui.c:133-175 | on text without colour codes `calcwidth` equals `utf8_width` |
| UiText.TokenWidth | src/ui.c:162-171 | a token other than a colour code has the width `utf8_width` gives its bytes |
| UiText.WidthSkipsFormatterCode | src/ui.c:146-149 | a colour code written by the formatter counts zero columns |
| UiText.DrawText | src/ui.c:177-230 | the loop of `drawtext` issues the terminal writes `DrawFrom` describes |
| UiText.DrawWrites | src/ui.c:177-230 | `drawtext` only writes; it never moves the pen |
| UiText.SentinelBackground | src/ui.c:193-200 | a default-sentinel background in a colour code falls back to the starting background |
| UiText.StyleKept | src/ui.c:186-218 | an attribute stays as it is while no byte turns it the other way and no byte 15 restores a different start |
| UiText.RestyleKeeps | src/ui.c:186-218 | one token keeps an attribute unless it is the byte that turns it |
| UiText.TabFallbackSpins | src/ui.c:219-228 | a tab is drawn as the one-byte fallback: the model records `term_write` of the tab alone, a string on which `term_write` never finishes |
| UiText.DrawPlain | src/ui.c:219-228 | plain text is written unit by unit in the current Video, and the units together are the text |
| UiText.FormatterCodeToken | src/ui.c:146-149 | a colour code written by the formatter is one token that sets both colours |
| UiText.DrawFormatterCode | src/ui.c:193-200 | drawing a formatter's colour code sets the foreground and the background, with the default background falling back to the start |
| UiMessage.Printed | src/term.c:219-234 | `term_mvprintf` keeps at most 1023 bytes of the text, as a prefix |
| UiMessage.BackToSpace | src/ui.c:262-264 | the backward search stops at a space or at 0, passing no space |
| UiMessage.BlockAt | src/ui.c:260-269 | a block stays inside the body |
| UiMessage.PastSpace | src/ui.c:270-273 | skipping the space after a block never moves back or past the body |
| UiMessage.Block | src/ui.c:261-266 | the inner loop computes the block `BlockAt` describes |
| UiMessage.Wrap | src/ui.c:260-274 | the wrap loop pushes the blocks `WrapFrom` describes |
| UiMessage.WrapTurn | src/ui.c:260-274 | one turn pushes one block and goes on after it and its space |
| UiMessage.WrapTiles | src/ui.c:260-274 | the blocks and the single spaces between them cover the body exactly |
| UiMessage.BlockBreaks | src/ui.c:261-266 | a block is a prefix of what fits; it ends before a space unless what fits reaches the end or holds no space |
| UiMessage.WrapEnds | src/ui.c:260-274 | with at least two columns the wrap ends |
| UiMessage.NarrowWindowSpins | src/ui.c:260-274 | with no column left for the body, `utf8_fit` returns 0 and the wrap loop never ends |
| UiMessage.Pads | src/ui.c:294-295 | the title is padded with one space per missing column, none when the pad is negative |
| UiMessage.Clipped | src/ui.c:289-293 | the title is cut to at most 511 bytes, as a prefix |
| UiMessage.BlockRows | src/ui.c:301-312 | the body's blocks go on consecutive rows, skipping those above the window |
| UiMessage.HeaderMoves | src/ui.c:279-299 | the header starts at the window's left column on the first block's row |
| UiMessage.HeadMoves | src/ui.c:276-299 | the header moves only at the window's left column, and only when its row is inside the window |
| UiMessage.BlockMoves | src/ui.c:301-312 | the blocks move only at the body column, one row each from the first row inside the window |
| UiMessage.JoinedPlaced | src/ui.c:248-315 | a header and blocks placed that way make a message bottom-aligned on the given row |
| UiMessage.LayoutPlacement | src/ui.c:248-315 | a message takes as many rows as blocks, placed bottom-aligned on the given row, with its header only when the first row is inside the window |
| UiMessage.MessageOps | src/ui.c:248-315 | `draw_message` returns as many rows as the wrap gives blocks, and what it draws is bottom-aligned on the given row, inside the window |
| UiWindow.CursorIn | src/ui.c:466-472 | the cursor in the compacted input counts the non-NUL bytes before the stored cursor |
| UiWindow.Compact | src/ui.c:466-474 | the copy loop keeps the non-NUL bytes and computes that cursor |
| UiWindow.Spaces | src/ui.c:447-448 | the padding is that many spaces |
| UiWindow.Pad | src/ui.c:445-449 | the padding loop pads the status as `Padded` describes |
| UiWindow.PaddedWidth | src/ui.c:445-449 | the padded status is as wide as the window or as its own text, whichever is wider |
| UiWindow.SpacesWidth | src/ui.c:447-448 | a run of spaces is as wide as it is long |
| UiWindow.ScrollOffset | src/ui.c:482-484 | the offset loop has no result (spins) exactly when the cursor is past the space and `space / 2` is not positive |
| UiWindow.TurnsLeast | src/ui.c:482-484 | the loop runs the least number of turns that puts the cursor inside the space |
| UiWindow.OffsetLeast | src/ui.c:479-484 | the offset is the least multiple of `space / 2` that puts the cursor inside the space |
| UiWindow.OffsetTurns | src/ui.c:482-484 | from any turn before the last, the loop ends at the same offset |
| UiWindow.Offset | src/ui.c:482-484 | the loop computes that offset |
| UiWindow.FieldFits | src/ui.c:487-488 | the hidden part is at most `offset` columns and the shown part at most `space` |
| UiWindow.Member | src/ui.c:390-400 | a member line is stored like a message, not important |
| UiWindow.Members | src/ui.c:390-400 | the member list becomes one numbered line per member |
| UiWindow.History | src/ui.c:405-414 | the message loop draws from the newest message down as `HistoryFrom` describes |
| UiWindow.HistoryRows | src/ui.c:395-414 | everything the history draws lies inside the window, between its top and the starting row |
| UiWindow.PlacedRows | src/ui.c:404-415 | a placed message moves only to rows from the window's top to the given row |
| UiWindow.ShownRows | src/ui.c:404-415 | a message followed by older ones drawn above it stays inside the window |
| UiWindow.DrawHistory | src/ui.c:375-415 | the history starts from message `count - (scroll + 1)` at row `height - 3`, from members in the nick list view |
| UiWindow.Shift | src/ui.c:486-493 | the visible part of the input and the cursor column are as `Scrolled` describes |
| UiWindow.ScrollInput | src/ui.c:476-493 | the input row is drawn as `InputAt` describes |
| UiWindow.DrawInput | src/ui.c:458-497 | the input part of `draw_window` gives the calls `InputOps` describes |
| UiWindow.DrawBar | src/ui.c:417-464 | the status line and prompt are drawn as `BarOps` describes |
| UiWindow.DrawLeaf | src/ui.c:361-498 | the leaf case of `draw_window` gives the calls `LeafOps` describes |
| UiWindow.InputCursor | src/ui.c:492-496 | the cursor goes on the last row, after the prompt for an empty input, otherwise inside the window past the prompt |
| UiWindow.BarMoves | src/ui.c:455-464 | the status line is on row `height - 2` and the prompt on row `height - 1` |
| UiWindow.HistoryInside | src/ui.c:375-415 | the history stays above the status line |
| UiWindow.LeafRows | src/ui.c:361-498 | a leaf draws the history, then the status line, then the input, each on its own rows |
| UiWindow.AssembleStacked | src/ui.c:361-498 | history above the status line, the bar on its two rows and an input that only writes make a stacked leaf |
| UiWindow.LeafWithRows | src/ui.c:361-498 | a leaf with any status text is stacked |
| UiWindow.LeafCursor | src/ui.c:492-496 | the cursor a leaf reports is on its last row, inside the window |
| UiWindow.TreeLeaves | src/ui.c:352-360 | `draw_window` on a subtree draws its leaves left to right |
| UiWindow.SequencedAppend | src/ui.c:352-360 | drawing two lists of leaves is drawing their concatenation |
| UiWindow.FrameOrder | src/ui.c:501-515 | `ui_draw` clears, draws every leaf, draws the focused window again, draws the room list when shown, moves the cursor and flushes once |
| UiWindow.FrameCursor | src/ui.c:501-515 | the cursor goes where the focused window's last draw put it |
| UiWindow.DrawWindow | src/ui.c:352-360 | the recursion of `draw_window` draws as `TreeOps` describes |
| UiWindow.UiDraw | src/ui.c:501-515 | `ui_draw` issues the calls `FrameOps` describes |
| UiWindow.ScreenCursor | src/ui.c:492-515 | the screen cursor ends on the focused window's last row, past its prompt |
| RegexParse.And | src/re.c:311-327 | `and` returns the other side when one is missing and a concatenation otherwise |
| RegexParse.Or | src/re.c:293-309 | `or` returns the other side when one is missing and an alternation otherwise |
| RegexParse.ItemEnd | src/re.c:492-499 | a class item takes one byte or a three-byte range |
| RegexParse.Fill | src/re.c:505-512 | the fill loop reads as many entries as counted and stays in the pattern |
| RegexParse.ClassOf | src/re.c:481-544 | a parsed class consumes at least one byte and is a class or a negated class |
| RegexParse.SeqOf | src/re.c:335-349 | the sequence loop never moves past the pattern |
| RegexParse.RegExpOf | src/re.c:329-367 | `regexp` never moves past the pattern |
| RegexParse.SubExpOf | src/re.c:369-395 | a parsed sub-expression consumes at least one byte |
| RegexParse.AtomOf | src/re.c:397-455 | a parsed atom consumes at least one byte |
| RegexParse.RegExp | src/re.c:329-367 | the loop of `regexp` builds the tree `RegExpOf` describes |
| RegexParse.SubExp | src/re.c:369-395 | `subexp` builds the tree `SubExpOf` describes |
| RegexParse.Atom | src/re.c:397-455 | `atom` builds the tree `AtomOf` describes |
| RegexParse.Parse | src/re.c:546-550 | `parse` is `regexp` from the start with no trailing text allowed |
| RegexParse.CountItems | src/re.c:491-499 | the counting loop counts the items modulo 256, as a `uint8_t` |
| RegexParse.FillItems | src/re.c:501-512 | the fill loop stores the entries `Fill` describes, each the intended unsigned `Entry` (see Findings) |
| RegexParse.SortInPlace | src/re.c:522 | `qsort` with `classcmp` leaves the entries sorted |
| RegexParse.AbsorbFrom | src/re.c:525-531 | the inner merge loop absorbs the following overlapping or adjacent entries |
| RegexParse.MoveDown | src/re.c:533 | `memmove` shifts the rest down and keeps what precedes it |
| RegexParse.MergeAt | src/re.c:524-535 | one turn of the merge loop keeps the merged result of the rest the same |
| RegexParse.MergeInPlace | src/re.c:524-535 | the merge loop leaves `Merged` of the sorted entries |
| RegexParse.CharClass | src/re.c:481-544 | `charclass` builds the class `ClassOf` describes |
| RegexParse.PlainParses | src/re.c:329-367 | a pattern of plain bytes parses to their concatenation, and only the empty pattern fails |
| RegexParse.Lits | src/re.c:335-349 | a run of literals is missing only when there was nothing before it and it is empty |
| RegexParse.LitsSpell | src/re.c:335-349 | a run of literals spells what came before followed by the run |
| RegexParse.SeqConsumes | src/re.c:335-349 | at the top level, a sequence that parses consumes the rest of the pattern |
| RegexParse.TrailingEscape | src/re.c:437-442 | a pattern ending in a backslash is refused |
| RegexParse.TrailingPipe | src/re.c:360-364 | a pattern ending in the alternation bar is refused |
| RegexParse.StrayClose | src/re.c:400-402 | a `)` with no group open is refused |
| RegexParse.UnclosedGroup | src/re.c:411-416 | an unclosed `(` is refused |
| RegexParse.PlainGroup | src/re.c:411-418 | a group of plain bytes parses to its contents |
| RegexParse.EmptyLeft | src/re.c:355-366 | the bar followed by `a` parses to an alternation with nothing on its left |
| RegexParse.LeadingQuantifier | src/re.c:448-453 | a quantifier with nothing before it is a literal byte |
| RegexParse.ParseConsumes | src/re.c:329-367 | a pattern that parses is consumed whole |
| RegexParse.ClassNormal | src/re.c:521-535 | after normalisation the ranges leave gaps between them, are fully normal (sorted, disjoint, non-adjacent, low not above high) when every parsed entry is well formed, and hold the same members as the parsed entries |
| RegexParse.ClassCountWraps | src/re.c:491 | a class of 256 items wraps the count to 0 and matches nothing |
| RegexParse.SimpleItems | src/re.c:491-499 | a class of single bytes has one item per byte |
| Classes.ClassCmp | src/re.c:473-479 | `classcmp` orders entries by their low byte, then their high byte |
| Classes.EntryAsWrittenWidens | src/re.c:507 | as written, an entry whose upper byte is 0x80 or more gets a lower bound one too low |
| Classes.EntryAsWrittenExample | src/re.c:510 | as written, `[é]` holds 0xE8 as well as 0xE9 |
| Classes.Entry | src/re.c:505-511 | an entry holds exactly the bytes between its two ends |
| Classes.Sort | src/re.c:522 | sorting gives a sorted permutation of the entries |
| Classes.Insert | src/re.c:522 | inserting an entry adds exactly that entry to the multiset |
| Classes.InsertSorted | src/re.c:522 | inserting into sorted entries keeps them sorted |
| Classes.SortMembers | src/re.c:522 | sorting keeps the members |
| Classes.Absorb | src/re.c:525-531 | absorbing stops before the first entry that starts past the high byte plus one |
| Classes.AbsorbMembers | src/re.c:525-531 | the widened range holds exactly the members of the entries it absorbed |
| Classes.Merged | src/re.c:524-535 | merging never gives more ranges than entries |
| Classes.MergedFirst | src/re.c:524-535 | the first merged range runs from the first entry's low byte to the high byte its absorption reaches, followed by the merge of the rest |
| Classes.MergedWellFormed | src/re.c:524-535 | merging well-formed entries gives well-formed ranges |
| Classes.MergedGaps | src/re.c:524-535 | merged ranges leave gaps between them |
| Classes.MergedMembers | src/re.c:524-535 | merging sorted entries keeps the members |
| Classes.Normalised | src/re.c:521-535 | sorting then merging leaves gaps between the ranges, gives normal ranges from well-formed entries, and keeps the members |
| Classes.SearchClass | src/re.c:457-471 | the loop of `searchclass` is the binary search `Bsearch` |
| Classes.BsearchExact | src/re.c:457-471 | on normal ranges the binary search finds a byte exactly when a range in its bounds holds it |
| Classes.SearchExact | src/re.c:457-471 | `searchclass` is true exactly when the byte is in some range |
| Nfa.LinkFacts | src/re.c:107-121 | `transition` fills the first unset slot of the state and changes nothing else |
| Nfa.Build | src/re.c:140-274 | building a fragment adds `Size` states, ending in a fresh end state, sets the start's first slot and keeps every other old state |
| Nfa.Step | src/re.c:148-170 | a single-transition fragment adds one state, its end, and links the start to it |
| Nfa.LinkClosed | src/re.c:107-121 | a transition to an existing state keeps every target in range |
| Nfa.BlanksClosed | src/re.c:87-105 | appending fresh states keeps every target in range |
| Nfa.BuildAlt | src/re.c:172-196 | the alternation fragment grows the array that way |
| Nfa.BuildStar | src/re.c:197-219 | the star fragment grows the array that way |
| Nfa.BuildPlus | src/re.c:220-239 | the plus fragment grows the array that way |
| Nfa.BuildOpt | src/re.c:240-259 | the option fragment grows the array that way |
| Nfa.BuildConcat | src/re.c:268-270 | the concatenation fragment grows the array that way |
| Nfa.Join | src/re.c:186-194 | an alternation links both ends to the end state and the start to both sides |
| Nfa.Loop | src/re.c:207-237 | a star or plus loops the operand's end back and out, and links the start in (and past, for a star) |
| Nfa.Maybe | src/re.c:250-257 | an option links the operand's end and the start to the end state, the skip first |
| Nfa.BuildWired | src/re.c:140-274 | the transitions of the start and of the new states target new states, every target exists, and every new state but the end has a first transition |
| Nfa.CompiledShape | src/re.c:631-658 | the compiled automaton has `1 + Size` states, every target exists, and exactly the final state has no transition |
| Nfa.Automaton.constructor | src/re.c:641-643 | a new automaton has no states |
| Nfa.Automaton.AddState | src/re.c:87-105 | `addstate` appends one state with both slots unset and returns the previous count |
| Nfa.Automaton.Transition | src/re.c:107-121 | `transition` patches the state as `Link` describes |
| Nfa.Automaton.ToNfa | src/re.c:140-274 | `tonfa` leaves the states and returns the end that `Build` describes |
| Nfa.Automaton.AltNfa | src/re.c:172-196 | the alternation case does what `BuildAlt` describes |
| Nfa.Automaton.StarNfa | src/re.c:197-219 | the star case does what `BuildStar` describes |
| Nfa.Automaton.PlusNfa | src/re.c:220-239 | the plus case does what `BuildPlus` describes |
| Nfa.Automaton.OptNfa | src/re.c:240-259 | the option case does what `BuildOpt` describes |
| Nfa.Compile | src/re.c:631-658 | `re_compile` refuses exactly the patterns that do not parse, faults on an alternation with nothing on its left, and otherwise builds the automaton from state 0 |
| Match.Fires | src/re.c:552-565 | a transition consumes one byte for CHAR, ANYCHAR, CLASS and NCLASS, and none for EPSILON, BEGIN and END |
| Match.HighCharNeverFires | src/re.c:562 | as written, a CHAR transition for a byte of 0x80 or more never fires |
| Match.LowCharAgrees | src/re.c:562 | below 0x80 the code as written and the corrected compare agree |
| Match.CharFires | src/re.c:562 | a CHAR transition fires exactly on its byte |
| Match.ClassFires | src/re.c:560-561 | CLASS fires exactly on a member byte and NCLASS exactly on a non-member, never at the end |
| Match.NothingPastEnd | src/re.c:557-562 | at the end of the subject only EPSILON, BEGIN and END fire |
| Match.CharMatch | src/re.c:552-565 | `charmatch` is `Fires`, with the CHAR compare unsigned as intended (see Findings) |
| Match.Push | src/re.c:597-600 | a push keeps the stack below it |
| Match.PushSuccessors | src/re.c:597-600 | `domatch` pushes the second transition's successor and then the first's, those that fire, as `Expand` describes |
| Match.Expand | src/re.c:597-600 | the pushed frames are states of the automaton at positions inside the subject |
| Match.ExpandFrom | src/re.c:597-600 | pushing never moves a frame before its parent's position |
| Match.Successor | src/re.c:582-601 | an accepting path from a frame continues from a frame on the new stack |
| Match.DoMatch | src/re.c:567-604 | `domatch` runs the stack loop `Run` describes from the start state |
| Match.RunLoop | src/re.c:582-601 | the loop computes `Run` |
| Match.RunTurn | src/re.c:582-601 | one turn accepts at a state without a first transition, or pushes its successors |
| Match.RunSound | src/re.c:567-604 | an accepted position is reached by a path from a frame on the stack |
| Match.RunComplete | src/re.c:567-604 | when the run ends without a match, no frame on the stack has an accepting path |
| Match.AcceptBound | src/re.c:567-604 | an accepted position lies between the start and the end of the subject |
| Match.ReMatch | src/re.c:606-629 | `re_match` tries the starts as written (never the end of a non-empty subject, and a read past an empty one), each with the matcher that compares bytes unsigned |
| Match.ScanLeftmost | src/re.c:618-626 | the corrected scan reports the first start that matches, with `start <= end`, or that none does |
| Match.SearchLeftmost | src/re.c:606-629 | the corrected search finds the leftmost start, including the end of the subject, and never reads past the terminator |
| Match.ScanAgrees | src/re.c:618-626 | where the scan as written finds a match, it is the corrected one |
| Match.EndNeverTried | src/re.c:618 | as written, `$` never matches `a`, because the end position is never tried |
| Match.EmptySubjectOverrun | src/re.c:618 | as written, a failed match on the empty subject reads past its terminator |
| Match.OptionIsLazy | src/re.c:250-257 | `a?` matches `a` as the empty string at 0, because the skip is pushed last and so tried first |
| Match.OptRuns | src/re.c:567-604 | on the automaton of `a?`, `domatch` accepts at 0 although a path to 1 exists |
| Match.EndTries | src/re.c:567-604 | on the automaton of `$`, `domatch` rejects at 0 and accepts at the end |
| Match.CharTry | src/re.c:567-604 | on the automaton of `a`, `domatch` rejects the empty subject at 0 |
| TsMap.HashOf | src/tsmap.c:27-37 | the loop of `hash` computes djb2 over the signed bytes, modulo 2^32 |
| TsMap.Home | src/tsmap.c:43 | the masked hash is a slot index |
| TsMap.Slot | src/tsmap.c:46 | each probe step stays inside the table |
| TsMap.ProbeFree | src/tsmap.c:77-83 | a probe that reaches an empty slot has passed the only place a key could be, so the key is absent |
| TsMap.ModelFill | src/tsmap.c:101-103 | filling an empty slot adds that nick and its stamp and counts one more used slot |
| TsMap.NoneUsed | src/tsmap.c:108-124 | a table of empty slots holds no nick and no used slot |
| TsMap.ModelHas | src/tsmap.c:77-83 | in a table with unique nicks, a used slot's nick maps to that slot's stamp |
| TsMap.ModelLacks | src/tsmap.c:77-83 | a nick in no used slot is absent from the map |
| TsMap.ModelStamp | src/tsmap.c:104-105 | restamping an entry changes only that nick's stamp |
| TsMap.FillTable | src/tsmap.c:39-49 | placing a new nick on its probe path keeps the table well formed |
| TsMap.FreeSlot | src/tsmap.c:89-90 | a table less than full has a free slot, so probing ends |
| TsMap.Put | src/tsmap.c:39-49 | `put` adds the entry to the map and keeps the table well formed |
| TsMap.Rehash | src/tsmap.c:59-64 | re-inserting every entry into a larger empty table keeps every nick and stamp |
| TsMap.Seek | src/tsmap.c:92-99 | the probe loop stops at the nick's entry or at the first empty slot on its path |
| TsMap.Map.constructor | src/tsmap.c:108-124 | `tsmap_new` makes 16 empty slots with `used` and `t` 0 |
| TsMap.Map.Get | src/tsmap.c:71-84 | `tsmap_get` returns the nick's stamp, or 0 for a nick never updated |
| TsMap.Map.Grow | src/tsmap.c:51-69 | `grow` doubles the table and keeps every nick and stamp |
| TsMap.Map.Update | src/tsmap.c:86-106 | `tsmap_update` doubles the table first when `used * 2 > count`, returns `t + 1`, stores it for the nick and counts a slot only for a new nick |
| TsMap.Map.Stamp | src/tsmap.c:92-105 | the search and write part of `tsmap_update` stamps the nick without growing |
| Messages.RgbHex | src/message.c:15-24 | a colour is written as six hex digits |
| Messages.HexColorOf | src/message.c:15-24 | those digits read back as the colour |
| Messages.ColorCode | src/message.c:15-24 | `color` writes the 16 bytes `\003#rrggbb,#rrggbb` with no NUL |
| Messages.ColorCodeColors | src/message.c:15-24 | both colours read back from the code |
| Messages.Directive | src/message.c:40-74 | one turn of `fmt` consumes at least one format byte |
| Messages.FormatNoNul | src/message.c:27-79 | with no NUL in the format or the strings, the formatted text has no NUL |
| Messages.FormatStep | src/message.c:40-74 | formatting proceeds one directive at a time |
| Messages.Fmt | src/message.c:27-79 | the loop of `fmt` writes the formatted text and a NUL and leaves the next unused argument |
| Messages.DirectiveNoNul | src/message.c:40-74 | one directive writes no NUL when the format and the strings have none |
| Messages.CStringOf | src/message.c:89-104 | a NUL-terminated string inside a buffer reads back as itself |
| Messages.CStringPair | src/message.c:89-104 | a title and a body stored one after the other, each with its NUL, read back as themselves |
| Messages.Msg | src/message.c:81-107 | `msg` stores the formatted title at 0 and the formatted body at `body`, each NUL-terminated and ending the data, and the message is not important |
| Messages.MircEnd | src/message.c:124-130 | the scan over an mIRC colour code's digits and comma ends inside the string |
| Messages.SkipIf | src/message.c:124-130 | each optional skip of a digit or comma stays inside the string |
| Messages.MircShift | src/message.c:124-130 | the end of an mIRC code does not depend on what precedes it |
| Messages.WriteSanitized | src/message.c:109-136 | the loop of `write_sanitized` writes the bytes `Sanitize` keeps |
| Messages.SanitizeShift | src/message.c:109-136 | sanitising a suffix does not depend on what precedes it |
| Messages.SanitizePlain | src/message.c:109-136 | plain bytes are copied in order |
| Messages.SanitizeToggle | src/message.c:114-120 | the toggles are dropped |
| Messages.SanitizeCode | src/message.c:121-123 | a 16-byte code from `color` is dropped whole |
| Messages.SanitizeDirective | src/message.c:27-136 | sanitising what one directive writes keeps exactly its visible part |
| Messages.SanitizeFormat | src/message.c:27-136 | sanitising what `fmt` writes leaves exactly the visible text: escaped and literal bytes and the string arguments |
| Buffers.EchoTitleAsWritten | src/input.c:113 | as written, the echo's title is the coloured nick followed by a stray `s` |
| Buffers.EchoBodyAsWritten | src/input.c:113 | as written, the echo's body is the line followed by a stray `s` |
| Buffers.EchoReady | src/input.c:113 | with `^%^` and `%` the title is the coloured nick and the body is the line |
| Buffers.EchoTitleFixedReads | src/input.c:113 | the title format `^%^` gives the coloured nick and uses two arguments |
| Buffers.EchoBodyFixedReads | src/input.c:113 | the body format `%` gives the line and uses the third argument |
| Buffers.Edited | src/input.c:27-87 | every line-editing action keeps the line well formed |
| Buffers.Buffer.Backspace | src/input.c:27-44 | `backspace` edits the line as `Backspaced` describes |
| Buffers.Buffer.Left | src/input.c:46-57 | `left` moves the cursor as `Lefted` describes |
| Buffers.Buffer.Right | src/input.c:59-69 | `right` moves the cursor as `Righted` describes |
| Buffers.Buffer.GotoStart | src/input.c:71-75 | `goto_start` puts the cursor at 0 and keeps the text |
| Buffers.Buffer.GotoEnd | src/input.c:77-81 | `goto_end` puts the cursor at the end and keeps the text |
| Buffers.Buffer.CutRest | src/input.c:83-87 | `cut_rest` drops the text after the cursor |
| Buffers.Buffer.EditKey | src/input.c:27-87 | a line-editing key edits the line as `Edited` describes |
| Buffers.Buffer.Insert | src/input.c:447-455 | inserting text edits the line as `Inserted` describes |
| Buffers.Buffer.Enter | src/input.c:89-118 | `enter` on an empty input changes nothing; otherwise it sends the non-NUL bytes in order, appends the echo and empties the input |
| InputLine.Back | src/input.c:37-39 | the backward scan stops at a chunk start and passes no NUL |
| InputLine.BackStops | src/input.c:37-39 | the backward scan ends at the nearest chunk start |
| InputLine.NulFrom | src/input.c:68 | `strlen` from the cursor finds the next NUL, passing no other |
| InputLine.NulFinds | src/input.c:68 | `strlen` from a position returns the first NUL after it |
| InputLine.Backspaced | src/input.c:27-44 | backspace keeps the line well formed |
| InputLine.Lefted | src/input.c:46-57 | `left` keeps the text and moves the cursor back unless it is at 0 |
| InputLine.Righted | src/input.c:59-69 | `right` keeps the text and moves the cursor forward unless it is at the end |
| InputLine.Inserted | src/input.c:447-455 | inserting adds the text and its NUL and keeps the bytes before the cursor |
| InputLine.Cut | src/input.c:83-87 | `cut_rest` leaves the text before the cursor, with the cursor at the end |
| InputLine.StripNoNul | src/input.c:98-101 | compaction leaves no NUL and never grows the text |
| InputLine.StripShorter | src/input.c:98-101 | compaction of a non-empty line drops at least one NUL |
| InputLine.StripAppend | src/input.c:98-101 | compaction distributes over concatenation |
| InputLine.StripText | src/input.c:98-101 | compaction of a text and its NUL gives the text |
| InputLine.StripPlain | src/input.c:98-101 | compaction keeps a text with no NUL |
| InputLine.InsertedSends | src/input.c:447-455 | inserted text is sent at the cursor's place |
| InputLine.BackspaceUndoesInsert | src/input.c:27-44 | backspace right after inserting a text restores the line |
| InputLine.LeftUndoesRight | src/input.c:46-69 | `left` undoes `right` |
| InputLine.RightUndoesLeft | src/input.c:46-69 | `right` undoes `left` |
| InputLine.BackspaceSends | src/input.c:27-44 | backspace removes exactly the chunk before the cursor from what is sent |
| Keys.Compare | src/input.c:428 | `strcmp` gives 0 exactly for equal keys |
| Keys.CompareFlips | src/input.c:428 | swapping the keys flips the sign |
| Keys.CompareTransitive | src/input.c:428 | the order is transitive |
| Keys.Ascending | src/input.c:388-418 | every prefix of the key table is strictly ascending under `strcmp` |
| Keys.TableSorted | src/input.c:388-418 | the key table is sorted by `strcmp` |
| Keys.BoundFinds | src/input.c:420-435 | reading the table in order finds nothing exactly when no row has the key, and otherwise the action of a row that has it |
| Keys.BoundAt | src/input.c:388-435 | every listed key finds its own action |
| Keys.Lookup | src/input.c:420-435 | the binary search of `lookup` finds the same action as reading the table in order |
| Client.RankInjective | src/input.c:120-162 | different buffers have different places in the walk order |
| Client.NextPlace | src/input.c:142-162 | `next_buffer`'s cases give the buffer one place later in the walk, wrapping at the end |
| Client.PrevPlace | src/input.c:120-140 | `prev_buffer`'s cases give the buffer one place earlier, wrapping at the start |
| Client.PrevAfterNext | src/input.c:120-162 | `prev_buffer` undoes `next_buffer` |
| Client.NextAfterPrev | src/input.c:120-162 | `next_buffer` undoes `prev_buffer` |
| Client.ScrollStaysInside | src/input.c:164-180 | scrolling up stays within the message count and scrolling down stays non-negative, each moving unless at its bound |
| Client.ScrollUndoes | src/input.c:164-180 | away from the bounds, scrolling down undoes scrolling up and the other way round |
| Client.Replaced | src/input.c:256-270 | `replace_buffer` swaps the buffer in every leaf of the subtree showing the old one and changes nothing else |
| Client.ReplaceBuffer | src/input.c:256-270 | the recursion leaves the arena as `Replaced` describes and keeps it valid |
| Client.SeekPlace | src/input.c:372-380 | `jump_active` walks forward to the first active buffer, or all the way round, skipping only inactive buffers |
| Client.WalkAtRank | src/input.c:120-162 | each buffer's place in the walk is inside the walk and names it |
| Client.RelabelsValid | src/input.c:256-270 | changing only the buffers of leaves keeps the tree well formed and tiled |
| Client.SplitShowing | src/input.c:182-194 | a split showing the window's own buffer keeps every window showing a listed buffer |
| Client.DeletedShowing | src/input.c:196-200 | deleting a window keeps every window showing a listed buffer |
| Client.ReplyKinds | src/input.c:437-445 | a line-editing key replies nothing, and only `enter` depends on the input |
| Client.Eria.constructor | src/window.c:109-113 | the client starts with one window over the whole screen, focused, showing the first buffer of the first network, not in resize mode |
| Client.Eria.PositionInjective | src/input.c:120-162 | different buffers have different places in the walk |
| Client.Eria.Following | src/input.c:142-162 | the buffer `next_buffer` goes to is one place later in the walk |
| Client.Eria.Preceding | src/input.c:120-140 | the buffer `prev_buffer` goes to is one place earlier in the walk |
| Client.Eria.Seek | src/input.c:372-380 | the search of `jump_active` stops at the first buffer with activity, or back at the start, passing only quiet buffers |
| Client.Eria.GrowFocus | src/input.c:208-254 | a resize key grows the focused window as `Grown` describes |
| Client.Eria.EditLine | src/input.c:27-87 | a line-editing key edits the shown buffer's line as `Edited` describes |
| Client.Eria.Act | src/input.c:388-418 | a key table action replies as `Reply` says, changes the layout, focus and resize flag as `Change` says for that action, and edits the line for a line-editing key |
| Client.Eria.ActOnInput | src/input.c:27-118 | the line-editing keys and `enter` reply as `Reply` says and leave the layout, focus and resize flag alone |
| Client.Eria.ActOnLine | src/input.c:27-87 | a line-editing key edits the shown line as `Edited` describes and replies nothing |
| Client.Eria.ActOnEnter | src/input.c:89-118 | `enter` replies as `Reply` says for the input and leaves the layout alone |
| Client.Eria.ActOnRest | src/input.c:120-254 | every other action changes the state as `Change` says and replies without reading the input |
| Client.Eria.ActOnLayout | src/input.c:120-254 | the buffer, scroll, split, close, resize and focus-moving actions change the state as `Change` says |
| Client.Eria.ActOnPane | src/input.c:120-180 | the buffer and scroll actions change only the focused window's pane, as `Change` says |
| Client.Eria.ActOnBuffer | src/input.c:120-162 | `next_buffer`, `prev_buffer`, `jump_active` and `jump_server` show the buffer `Change` names |
| Client.Eria.ActOnScroll | src/input.c:164-180 | scrolling sets the focused window's scroll as `Change` says |
| Client.Eria.ActOnTiling | src/input.c:182-206 | splitting, closing and the resize toggle change the layout as `Change` says |
| Client.Eria.ActOnClose | src/input.c:196-200 | closing deletes the focused window and focuses the window `DeleteFocus` names |
| Client.Eria.ActOnSplit | src/input.c:182-194 | a split leaves the arena as `SplitLeaf` describes and focuses the new first child |
| Client.Eria.ActOnFocus | src/input.c:208-254 | the four direction keys grow the window in resize mode and move the focus otherwise, as `Moved` says |
| Client.Eria.KeepCompletion | src/input.c:443-444 | the completion flag stays set only for the completion key, and nothing else changes |
| Client.Eria.ActOn | src/input.c:437-445 | a bound action replies as `Reply` says, changes the layout, focus and resize flag as `Change` says, edits the line for a line-editing key, and leaves the completion flag set only after `complete` |
| Client.Eria.NextBuffer | src/input.c:142-162 | the focused window shows the buffer one place later in the walk, and nothing else changes |
| Client.Eria.PrevBuffer | src/input.c:120-140 | the focused window shows the buffer one place earlier in the walk |
| Client.Eria.JumpActive | src/input.c:372-380 | the focused window shows the next active buffer, or the same one when none is active |
| Client.Eria.JumpServer | src/input.c:382-386 | the focused window shows the server buffer of its network |
| Client.Eria.ScrollUp | src/input.c:164-171 | the focused window's scroll grows by 5, capped at the message count |
| Client.Eria.ScrollDown | src/input.c:173-180 | the focused window's scroll shrinks by 5, floored at 0 |
| Client.Eria.HSplit | src/input.c:182-187 | the focused window is split top and bottom with its own buffer, and focus moves to the top child |
| Client.Eria.VSplit | src/input.c:189-194 | the focused window is split left and right with its own buffer, and focus moves to the left child |
| Client.Eria.CloseWindow | src/input.c:196-200 | the focused window is deleted and focus moves to the window `DeleteFocus` names, the root staying focused when it is the only window |
| Client.Eria.ResizeWindow | src/input.c:202-206 | the resize mode flips |
| Client.Eria.WDown | src/input.c:208-218 | in resize mode the window shrinks along y unless it is the root; otherwise focus moves down |
| Client.Eria.WLeft | src/input.c:220-230 | in resize mode the window shrinks along x unless it is the root; otherwise focus moves left |
| Client.Eria.WRight | src/input.c:232-242 | in resize mode the window grows along x unless it is the root; otherwise focus moves right |
| Client.Eria.WUp | src/input.c:244-254 | in resize mode the window grows along y unless it is the root; otherwise focus moves up |
| Client.Eria.HandleText | src/input.c:447-455 | typed text is inserted at the cursor and the completion flag is cleared |
| Client.Eria.Send | src/input.c:89-118 | `enter` sends the compacted line and appends its echo, or does nothing on an empty input |
| Client.Eria.HandleKey | src/input.c:437-445 | a bound key replies as `Reply` says and changes the layout, focus and resize flag as `Change` says for its action, a line-editing key edits the line as `Edited` describes, an unbound key changes nothing, and the completion flag survives only a completion key |

## Left out

- `Utf8.Decode`: no continuation-bit, overlong or surrogate checks, because the source makes none.
- `mk_wcwidth` is not part of this model. It is the parameter `wc`, and every property holds for any function into -1..2.
- `flush`'s `write(2)` retry loop is I/O. `Terminal.Term.WriteOut` hands over the accumulated bytes instead.
- `Terminal.Term.Write` requires `Terminal.Writable`: the string must stay inside the grid and have no unit of zero bytes. `term_write` has no column bound, and it loops forever on a control or invalid byte (src/term.c:195-202).
- `Terminal.Term.Write`: a unit longer than the 15 bytes `Cell.data[16]` holds is not truncated. `utf8_next` units are short in practice.
- `cell_equal`, `color_equal`, `video_equal` and the unused second buffer's diffing: the flush always redraws everything. Only `cell_empty` (`Terminal.IsEmpty`) is used.
- `term_printf` and the `vsnprintf` formats of `term_mvprintf` are not modelled. Their results are the text arguments, cut to 1023 bytes (`UiMessage.Printed`).
- `window_resize` is declared and called from `sigwinch` but has no definition, so it is not modelled. `sigwinch`, `ui_init` and `ui_cleanup` are signals, terminal settings and raw writes.
- `ui_nick_color`, `hsl_to_rgb` and `hue_to_rgb` use floating point and `rand`. The nick colour is a parameter of `Buffers.Buffer.Enter`.
- `draw_rooms` and the `irc_*` calls of `draw_window` are not modelled. Nick, host, member list and the formatted room list are inputs (`UiWindow.Pane`, the `rooms` of `UiWindow.FrameOps`).
- `UiWindow.ViewOf`: the `search` and `nicks` flags of a window are read as false. `new` never initialises them, no code of the client sets them, and the C code reads uninitialised memory there. The search filter and the nick list are still modelled for a `View` that sets them.
- `UiText.DrawText`: where `utf8_next` takes no byte (a tab, another control byte, a lone continuation byte or a cut-off sequence), `drawtext` passes that one byte to `term_write`, which then never returns (src/ui.c:222-227, src/term.c:195-202). `UiText.DrawFrom` records the write and goes on drawing, so `UiText.DrawPlain`, `UiMessage.MessageOps`, `UiWindow.DrawLeaf` and `UiWindow.UiDraw` describe a frame the program never finishes on such text (`UiText.TabFallbackSpins`).
- `UiText.ColorCode`: any `#` not followed by six hex digits is a `None` result. This includes inputs that `sscanf("%2x%2x%2x%n")` partly or wholly converts, since `%2x` also takes one-digit fields, leading blanks and a sign (`#12345g` converts to 0x12, 0x34, 0x5 and advances six bytes); only a conversion that fails before `%n` leaves `n` unset.
- `UiMessage.WrapFrom` is `None` where the wrap loop of `draw_message` spins (no column left, `UiMessage.NarrowWindowSpins`).
- `UiWindow.ScrollOffset` is `None` where the offset loop spins (`space / 2 <= 0` with the cursor past the space).
- Fixed C buffers are not modelled: the 64-entry member title and 256-byte body of `draw_window`, the 512-byte `status` (beyond what `UiMessage.Clipped` keeps for titles), the 16-byte unit copy `b` of `calcwidth` and `drawtext`, and the 64 KiB buffer of `msg` (a precondition of `Messages.Msg`).
- `msg_log` is file output: its time stamp, tabs and newline are not modelled, and the title and body it writes are `Messages.WriteSanitized` of each.
- `strftime` and the message time are not modelled: a message's formatted stamp is an input.
- Allocation failures are not modelled: `mkre`, the `malloc` of `charclass`, the `realloc` assert of `addstate` and `domatch`'s stack growth. `freere` and all memory ownership are moot in Dafny.
- `complete` in `src/re.c`, which turns target indices into pointers, is not modelled: transitions keep the target index.
- `Nfa.Compile` reports `Faults` for a pattern such as `|a`: the parser builds an alternation with a NULL left side, and `tonfa` dereferences it.
- `Match.Run` runs on fuel: `domatch` keeps no visited set and does not end on epsilon cycles such as `(a*)*`. Running out of fuel is `Unfinished`.
- `RegexParse.ClassCountWraps`: a class of 256 or more items wraps the `uint8_t` count and loses items; this is modelled as written.
- `Window.Layout.Delete` returns the window `find(parent, parent->y, parent->x)` reaches, not the swapped call as written (see Findings); `WindowTree.DeleteFocusAsWritten` models the call as written.
- `Client.Eria.CloseWindow` focuses the window `WindowTree.DeleteFocus` names, through `Window.Layout.Delete`: `close_window` as written focuses what the swapped `find` returns (`WindowTree.DeleteFocusAsWritten`, see Findings).
- `Client.Eria.ActOnClose` inherits the corrected focus of `Client.Eria.CloseWindow`, for the same reason.
- `Match.CharMatch` is the corrected `Fires`: it compares the subject byte unsigned, where `charmatch` (src/re.c:562) compares a signed `char` and never fires on a byte of 0x80 or more (`Match.FiresAsWritten`, see Findings).
- `Match.DoMatch` runs the matcher over that unsigned compare, so it accepts where `domatch` as written does not on pattern bytes of 0x80 or more.
- `Match.ReMatch` uses that matcher and the unsigned class entries: the one-byte pattern 0xE9 on the subject 0xE9 is found here and not by `re_match` as written, and the class `[` 0xE9 `]` on the subject 0xE8 is not found here but is by `re_match` as written.
- `RegexParse.FillItems` stores the corrected `Classes.Entry` of each item, where src/re.c:507-510 builds it from signed `char`s (`Classes.EntryAsWritten`, see Findings).
- `RegexParse.CharClass` builds its class from those corrected entries, for the same reason.
- `Window.Layout.Delete` requires a leaf, as its only caller passes the focused window.
- With size -1, `window_hsplit` and `window_vsplit` give the first child (top or left) the odd row or column, as the code does (src/window.c:272-273, 294-295).
- `window_vsplit` gives the left child only the old buffer; its scroll and resize flag start at 0 and false, as the code does.
- The input scroll offset only moves forward in multiples of `space / 2` from 0, as the code does.
- `TsMap.Map.Update` requires a nick of at most 51 bytes (`nick[52]`) with no NUL.
- The uintmax_t counter `t` of the time-stamp map is unbounded.
- `Buffers.Buffer.Enter` stores the corrected echo (`^%^` and `%`), not the stray `s` the code as written adds (see Findings).
- `Client.Eria.Send` ensures the corrected echo through `Buffers.Buffer.Enter`: `enter` as written stores the nick and the line each followed by a stray `s` (see Findings).
- `quit`, the `irc_printf` calls of `enter`, and `leave_buffer` (PART, with a `memmove` sized by `sizeof (Buffer)`) are not modelled. `complete` in `src/input.c` depends on the member lists of the IRC library and on hidden statics. `Client.Reply` reports these actions as `Exit`, `Sent` or `Skipped`.
- The event loop, the IRC reactor and connection setup of `src/eria.c`, and `src/util.c`, `src/panic.c`, `src/log.c` and `src/buffer.c` are not modelled.

## Findings

| source | as written | input that shows it | evidently intended | confidence | as-written member | corrected member |
|---|---|---|---|---|---|---|
| src/re.c:562 | `**s == tr->c` compares a signed `char` with an unsigned byte, so a byte of 0x80 or more in the subject never equals the pattern's byte | pattern `é` (0xE9), subject `é`: no match | a CHAR transition fires exactly on its byte | not executed; high on x86, where `char` is signed | Match.HighCharNeverFires | Match.CharFires |
| src/re.c:507-510 | an entry is built as `(low << 8) + high` from signed `char`s, so a high byte of 0x80 or more is negative and borrows one from the low byte | class `[é]` becomes the range 0xE8-0xE9 and matches 0xE8 | an entry holds exactly the bytes between its ends | not executed; high on x86 | Classes.EntryAsWrittenExample | Classes.Entry |
| src/re.c:618 | `while (*++s)` skips the end position of a non-empty subject | pattern `$`, subject `a`: no match | the end position is tried like every other | not executed; high | Match.EndNeverTried | Match.SearchLeftmost |
| src/re.c:618 | `*++s` on the empty subject reads the byte after its terminator | pattern `a`, subject empty: reads past the string | no start after the end is tried | not executed; high | Match.EmptySubjectOverrun | Match.SearchLeftmost |
| src/window.c:340 | `find(parent, parent->x, parent->y)` passes the parent's column as the row and its row as the column | a 24x80 screen split left and right, whose right half holds a window beside a pair split top and bottom; deleting that window makes the call return the bottom leaf of the pair, which does not hold the parent's top-left cell | `find(parent, parent->y, parent->x)`, focusing the window at the parent's top-left cell | not executed; high, since `find` is declared with the row first (src/window.c:32-33) | WindowTree.SwappedFocusExample | WindowTree.DeleteFocusCorner |
| src/input.c:113 | `msg("^%s^", "%s", ...)`: in the markup of `fmt` (src/message.c:64-70) `%` alone inserts a string, so the `s` after it is copied as text | any line `hi` from nick `bob`: title `bobs`, body `his` | the nick and the line with nothing after them, e.g. `msg("^%^", "%", ...)` | not executed; medium, since the other callers of `msg` write `%s` too and the fix may belong in `fmt` instead | Buffers.EchoTitleAsWritten | Buffers.EchoReady |
