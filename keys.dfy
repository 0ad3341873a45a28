/**
 * The key bindings of the input handler: the table of key names and their
 * actions, kept sorted by `strcmp` so that `lookup` can binary-search it.
 * Key names are the strings the terminal key library reports; they are taken
 * here as strings of characters compared by code point, which orders them as
 * `strcmp` orders their UTF-8 bytes.
 */
module Keys {
  import opened Wrappers

  /** The static functions of the input handler that the table binds. */
  datatype Action =
    | Backspace | GotoStart | Quit | GotoEnd | CutRest | JumpActive | HSplit | ResizeWindow
    | JumpServer | VSplit | LeaveBuffer | CloseWindow | Enter | Left | PrevBuffer | NextBuffer
    | ScrollDown | ScrollUp | Right | WDown | WLeft | WRight | WUp | Complete

  datatype Binding = Binding(key: string, action: Action)

  /** `COUNTOF(keys)`. */
  const Count: nat := 25

  /** Row `i` of `keys[]`. */
  function Row(i: nat): Binding
    requires i < Count
  {
    if i == 0 then Binding("Backspace", Backspace)
    else if i == 1 then Binding("C-a", GotoStart)
    else if i == 2 then Binding("C-c", Quit)
    else if i == 3 then Binding("C-e", GotoEnd)
    else if i == 4 then Binding("C-k", CutRest)
    else if i == 5 then Binding("C-n", JumpActive)
    else if i == 6 then Binding("C-q", HSplit)
    else if i == 7 then Binding("C-r", ResizeWindow)
    else if i == 8 then Binding("C-s", JumpServer)
    else if i == 9 then Binding("C-v", VSplit)
    else if i == 10 then Binding("C-w", LeaveBuffer)
    else if i == 11 then Binding("C-x", CloseWindow)
    else if i == 12 then Binding("DEL", Backspace)
    else if i == 13 then Binding("Enter", Enter)
    else if i == 14 then Binding("Left", Left)
    else if i == 15 then Binding("M-Left", PrevBuffer)
    else if i == 16 then Binding("M-Right", NextBuffer)
    else if i == 17 then Binding("PageDown", ScrollDown)
    else if i == 18 then Binding("PageUp", ScrollUp)
    else if i == 19 then Binding("Right", Right)
    else if i == 20 then Binding("S-Down", WDown)
    else if i == 21 then Binding("S-Left", WLeft)
    else if i == 22 then Binding("S-Right", WRight)
    else if i == 23 then Binding("S-Up", WUp)
    else Binding("Tab", Complete)
  }

  /** The sign of `strcmp(a, b)`: the first differing character decides, and a proper prefix comes first. */
  function Compare(a: string, b: string): (o: int)
    ensures -1 <= o <= 1
    ensures o == 0 <==> a == b
    decreases |a|
  {
    if a == [] && b == [] then 0
    else if a == [] then -1
    else if b == [] then 1
    else if a[0] < b[0] then -1
    else if a[0] > b[0] then 1
    else
      var o := Compare(a[1..], b[1..]);
      assert o == 0 ==> a == [a[0]] + a[1..] && b == [b[0]] + b[1..];
      o
  }

  /** Swapping the operands flips the sign. */
  lemma {:induction false} CompareFlips(a: string, b: string)
    ensures Compare(b, a) == -Compare(a, b)
    decreases |a|
  {
    if a != [] && b != [] && a[0] == b[0] {
      CompareFlips(a[1..], b[1..]);
    }
  }

  /** The order `strcmp` defines is transitive. */
  lemma {:induction false} CompareTransitive(a: string, b: string, c: string)
    requires Compare(a, b) < 0 && Compare(b, c) < 0
    ensures Compare(a, c) < 0
    decreases |a|
  {
    if a != [] && b != [] && c != [] && a[0] == b[0] && b[0] == c[0] {
      CompareTransitive(a[1..], b[1..], c[1..]);
    }
  }

  /** Two strings that agree on their first `k` characters and differ at `k` compare as that character does. */
  lemma {:induction false} DiffersAt(a: string, b: string, k: nat)
    requires k < |a| && k < |b| && a[..k] == b[..k] && a[k] < b[k]
    ensures Compare(a, b) < 0
    decreases k
  {
    if k > 0 {
      assert a[0] == a[..k][0] && b[0] == b[..k][0];
      assert a[1..][..k - 1] == a[..k][1..] && b[1..][..k - 1] == b[..k][1..];
      DiffersAt(a[1..], b[1..], k - 1);
    }
  }

  /** Rows 0 to 12 ascend. */
  lemma RowsAscendLow(i: nat)
    requires 1 <= i < 13
    ensures Compare(Row(i - 1).key, Row(i).key) < 0
  {
    if i == 1 {
      DiffersAt("Backspace", "C-a", 0);
    } else if i == 2 {
      DiffersAt("C-a", "C-c", 2);
    } else if i == 3 {
      DiffersAt("C-c", "C-e", 2);
    } else if i == 4 {
      DiffersAt("C-e", "C-k", 2);
    } else if i == 5 {
      DiffersAt("C-k", "C-n", 2);
    } else if i == 6 {
      DiffersAt("C-n", "C-q", 2);
    } else if i == 7 {
      DiffersAt("C-q", "C-r", 2);
    } else if i == 8 {
      DiffersAt("C-r", "C-s", 2);
    } else if i == 9 {
      DiffersAt("C-s", "C-v", 2);
    } else if i == 10 {
      DiffersAt("C-v", "C-w", 2);
    } else if i == 11 {
      DiffersAt("C-w", "C-x", 2);
    } else {
      DiffersAt("C-x", "DEL", 0);
    }
  }

  /** Rows 12 to 24 ascend. */
  lemma RowsAscendHigh(i: nat)
    requires 13 <= i < 25
    ensures Compare(Row(i - 1).key, Row(i).key) < 0
  {
    if i == 13 {
      DiffersAt("DEL", "Enter", 0);
    } else if i == 14 {
      DiffersAt("Enter", "Left", 0);
    } else if i == 15 {
      DiffersAt("Left", "M-Left", 0);
    } else if i == 16 {
      DiffersAt("M-Left", "M-Right", 2);
    } else if i == 17 {
      DiffersAt("M-Right", "PageDown", 0);
    } else if i == 18 {
      DiffersAt("PageDown", "PageUp", 4);
    } else if i == 19 {
      DiffersAt("PageUp", "Right", 0);
    } else if i == 20 {
      DiffersAt("Right", "S-Down", 0);
    } else if i == 21 {
      DiffersAt("S-Down", "S-Left", 2);
    } else if i == 22 {
      DiffersAt("S-Left", "S-Right", 2);
    } else if i == 23 {
      DiffersAt("S-Right", "S-Up", 2);
    } else {
      DiffersAt("S-Up", "Tab", 0);
    }
  }

  /** The keys of rows `0` to `n - 1`, in order. */
  function KeysBelow(n: nat): (ks: seq<string>)
    requires n <= Count
    ensures |ks| == n && forall i :: 0 <= i < n ==> ks[i] == Row(i).key
  {
    if n == 0 then [] else KeysBelow(n - 1) + [Row(n - 1).key]
  }

  /** The strings strictly increase. */
  predicate Ascends(ks: seq<string>)
  {
    forall i, j :: 0 <= i < j < |ks| ==> Compare(ks[i], ks[j]) < 0
  }

  /** The rows below `n` strictly increase. */
  predicate SortedBelow(n: nat)
    requires n <= Count
  {
    forall i, j :: 0 <= i < j < n ==> Compare(Row(i).key, Row(j).key) < 0
  }

  /** An ascending list stays ascending when a string above its last is added. */
  lemma AscendsExtend(ks: seq<string>, k: string)
    requires Ascends(ks) && ks != [] && Compare(ks[|ks| - 1], k) < 0
    ensures Ascends(ks + [k])
  {
    var ks' := ks + [k];
    forall i, j | 0 <= i < j < |ks'|
      ensures Compare(ks'[i], ks'[j]) < 0
    {
      if j < |ks| {
        assert ks'[i] == ks[i] && ks'[j] == ks[j];
      } else if i < |ks| - 1 {
        CompareTransitive(ks[i], ks[|ks| - 1], k);
      }
    }
  }

  lemma {:induction false} Ascending(n: nat)
    requires 0 < n <= Count
    ensures Ascends(KeysBelow(n))
    decreases n
  {
    if n > 1 {
      Ascending(n - 1);
      var l := n - 1;
      if l < 13 {
        RowsAscendLow(l);
      } else {
        RowsAscendHigh(l);
      }
      AscendsExtend(KeysBelow(l), Row(l).key);
    }
  }

  /** The comment in the source holds: the table is sorted for binary search. */
  lemma TableSorted()
    ensures SortedBelow(Count)
  {
    Ascending(Count);
    var ks := KeysBelow(Count);
    forall i, j | 0 <= i < j < Count
      ensures Compare(Row(i).key, Row(j).key) < 0
    {
      assert Compare(ks[i], ks[j]) < 0;
    }
  }

  /** The action bound to `key` among rows `i` onwards, found by reading the table in order. */
  function Bound(key: string, i: nat): Option<Action>
    requires i <= Count
    decreases Count - i
  {
    if i == Count then None
    else if Row(i).key == key then Some(Row(i).action)
    else Bound(key, i + 1)
  }

  /**
   * `Bound` finds nothing only when no row from `i` on has the key, and otherwise
   * the action of a row from `i` on that has it; so it finds nothing exactly
   * when no such row exists.
   */
  lemma {:induction false} BoundFinds(key: string, i: nat)
    requires i <= Count
    ensures Bound(key, i).None? ==> forall j :: i <= j < Count ==> Row(j).key != key
    ensures Bound(key, i).Some? ==> exists j :: i <= j < Count && Row(j) == Binding(key, Bound(key, i).value)
    decreases Count - i
  {
    if i < Count {
      var row := Row(i);
      if row.key != key {
        BoundFinds(key, i + 1);
      } else {
        assert row == Binding(key, row.action);
      }
    }
  }

  /** With distinct keys, the action bound to a key is the one its row names. */
  lemma BoundAt(i: nat)
    requires i < Count
    ensures Bound(Row(i).key, 0) == Some(Row(i).action)
  {
    TableSorted();
    BoundFinds(Row(i).key, 0);
    var r := Bound(Row(i).key, 0);
    var j :| 0 <= j < Count && Row(j) == Binding(Row(i).key, r.value);
    assert Compare(Row(j).key, Row(i).key) == 0 && Compare(Row(i).key, Row(j).key) == 0;
    assert j == i;
  }

  /** `lookup(key)`: binary search for `key`; `None` (NULL) when no row has it. */
  method Lookup(key: string) returns (r: Option<Action>)
    ensures r == Bound(key, 0)
  {
    TableSorted();
    var lo, hi := 0, Count - 1;
    while lo <= hi
      invariant 0 <= lo && hi < Count
      invariant forall i :: 0 <= i < Count && Row(i).key == key ==> lo <= i <= hi
      decreases hi - lo
    {
      var m := (lo + hi) / 2;
      var o := Compare(key, Row(m).key);
      if o < 0 {
        forall i | m <= i < Count ensures Row(i).key != key {
          if m < i {
            CompareTransitive(key, Row(m).key, Row(i).key);
          }
        }
        hi := m - 1;
      }
      if o > 0 {
        forall i | 0 <= i <= m ensures Row(i).key != key {
          CompareFlips(key, Row(m).key);
          if i < m {
            CompareTransitive(Row(i).key, Row(m).key, key);
          }
        }
        lo := m + 1;
      }
      if o == 0 {
        BoundAt(m);
        return Some(Row(m).action);
      }
    }
    BoundFinds(key, 0);
    return None;
  }
}
