/**
 * The nick-to-timestamp map that ranks nick completion: an open-addressing
 * hash table with linear probing, a power-of-two number of slots that doubles
 * once more than half of them have been taken, and a counter that stamps every
 * update.
 *
 * A slot is free when its nick is empty (`nick[0] == '\0'`); the timestamp
 * and hash of a free slot are never read.  Probe indices are `h & (count - 1)`
 * and `(i + 1) & (count - 1)`; as the count is a power of two these are
 * `h % count` and the successor of `i` wrapping to 0, which is how they are
 * written here.
 */
module TsMap {
  import opened Bytes

  /** One slot: `uintmax_t ts`, `uint32_t hash` and `char nick[52]`. */
  datatype Entry = Entry(ts: nat, hash: u32, nick: seq<byte>)

  /** What `tsmap_new` and `grow` leave in a slot they clear. */
  const Free := Entry(0, 0, [])

  /** The longest nick a slot holds: 51 bytes and the terminator. */
  const NickMax := 51

  /** The slot holds a nick. */
  predicate Used(e: Entry)
  {
    e.nick != []
  }

  /** `(uint32_t)c` for a `char` byte: `char` is signed, so bytes from 0x80 sign-extend. */
  function CharValue(b: byte): u32
  {
    if b < 128 then b else b - 256 + 0x1_0000_0000
  }

  /** djb2: `h = h * 33 + c` from 5381 over the bytes of `s`, wrapping at 32 bits. */
  function Hash(s: seq<byte>): u32
  {
    if s == [] then 5381 else (Hash(s[..|s| - 1]) * 33 + CharValue(s[|s| - 1])) % 0x1_0000_0000
  }

  /** `hash(s)`: the `while` loop, with `(h << 5) + h` as `h * 33`. */
  method HashOf(s: seq<byte>) returns (h: u32)
    ensures h == Hash(s)
  {
    h := 5381;
    var k := 0;
    while k < |s|
      invariant 0 <= k <= |s| && h == Hash(s[..k])
    {
      assert s[..k + 1][..k] == s[..k];
      h := (h * 33 + CharValue(s[k])) % 0x1_0000_0000;
      k := k + 1;
    }
    assert s[..k] == s;
  }

  /** `n` is a power of two. */
  predicate Pow2(n: nat)
    decreases n
  {
    n == 1 || (n > 1 && n % 2 == 0 && Pow2(n / 2))
  }

  /** The first probe index of hash `h` in `n` slots. */
  function Home(h: u32, n: nat): (i: nat)
    requires n > 0
    ensures i < n
  {
    h % n
  }

  /** The index `d` probes after `h`. */
  function Slot(h: nat, d: nat, n: nat): (i: nat)
    requires h < n && d < n
    ensures i < n
  {
    if h + d < n then h + d else h + d - n
  }

  /** How many probes after `h` the index `j` comes. */
  function Dist(h: nat, j: nat, n: nat): (d: nat)
    requires h < n && j < n
    ensures d < n && Slot(h, d, n) == j
  {
    if j >= h then j - h else j + n - h
  }

  /** The first `d` indices of the probe sequence from `h` are all used. */
  ghost predicate Reached(s: seq<Entry>, h: nat, d: nat)
    requires h < |s| && d <= |s|
  {
    forall e :: 0 <= e < d ==> Used(s[Slot(h, e, |s|)])
  }

  /** None of the first `d` indices of the probe sequence from `h` holds `k`. */
  ghost predicate Missed(s: seq<Entry>, h: nat, d: nat, k: seq<byte>)
    requires h < |s| && d <= |s|
  {
    forall e :: 0 <= e < d ==> s[Slot(h, e, |s|)].nick != k
  }

  /**
   * One probe past a used slot that does not hold `k`: a free slot `f` lies
   * further along, so the probe moves to the next index, `(i + 1) & (n - 1)`,
   * and the slots behind it stay used and without `k`.
   */
  lemma ProbeStep(s: seq<Entry>, h: nat, f: nat, d: nat, k: seq<byte>)
    requires h < |s| && f < |s| && !Used(s[f]) && d <= Dist(h, f, |s|)
    requires Reached(s, h, d) && Missed(s, h, d, k)
    requires Used(s[Slot(h, d, |s|)]) && s[Slot(h, d, |s|)].nick != k
    ensures d < Dist(h, f, |s|)
    ensures var i := Slot(h, d, |s|); (if i + 1 < |s| then i + 1 else 0) == Slot(h, d + 1, |s|)
    ensures Reached(s, h, d + 1) && Missed(s, h, d + 1, k)
  {
  }

  /** A used slot holds a nick of at most 51 bytes together with its hash. */
  ghost predicate Stored(s: seq<Entry>, j: nat)
    requires j < |s|
  {
    Used(s[j]) ==> s[j].hash == Hash(s[j].nick) && |s[j].nick| <= NickMax
  }

  /** Every slot from the home of the nick in slot `j` up to slot `j` is used. */
  ghost predicate Placed(s: seq<Entry>, j: nat)
    requires j < |s|
  {
    Used(s[j]) ==> Reached(s, Home(s[j].hash, |s|), Dist(Home(s[j].hash, |s|), j, |s|))
  }

  /** No nick is in two slots. */
  ghost predicate Unique(s: seq<Entry>)
  {
    forall j, k :: 0 <= j < k < |s| && Used(s[j]) ==> s[j].nick != s[k].nick
  }

  /**
   * The table invariant: every used slot holds a short nick with its hash, no
   * nick is stored twice, and every slot between a nick's home and its slot is
   * used, so that probing from the home meets the nick before a free slot.
   */
  ghost predicate Table(s: seq<Entry>)
  {
    && |s| > 0
    && (forall j :: 0 <= j < |s| ==> Stored(s, j))
    && Unique(s)
    && (forall j :: 0 <= j < |s| ==> Placed(s, j))
  }

  /** The nicks of the slots and their timestamps, a later slot overriding an earlier one. */
  function Model(s: seq<Entry>): map<seq<byte>, nat>
  {
    if s == [] then map[]
    else
      var m := Model(s[..|s| - 1]);
      if Used(s[|s| - 1]) then m[s[|s| - 1].nick := s[|s| - 1].ts] else m
  }

  /** The number of used slots. */
  function Occupied(s: seq<Entry>): (c: nat)
    ensures c <= |s|
  {
    if s == [] then 0 else Occupied(s[..|s| - 1]) + (if Used(s[|s| - 1]) then 1 else 0)
  }

  /** Slots that are all free hold nothing. */
  lemma {:induction false} NoneUsed(s: seq<Entry>)
    requires forall j :: 0 <= j < |s| ==> !Used(s[j])
    ensures Model(s) == map[] && Occupied(s) == 0
  {
    if s != [] {
      NoneUsed(s[..|s| - 1]);
    }
  }

  /** A nick that no used slot holds is not in the model. */
  lemma {:induction false} ModelLacks(s: seq<Entry>, k: seq<byte>)
    requires forall j :: 0 <= j < |s| && Used(s[j]) ==> s[j].nick != k
    ensures k !in Model(s)
  {
    if s != [] {
      ModelLacks(s[..|s| - 1], k);
    }
  }

  /** Every nick in the model is the nick of a used slot. */
  lemma {:induction false} ModelHolds(s: seq<Entry>, k: seq<byte>) returns (j: nat)
    requires k in Model(s)
    ensures j < |s| && Used(s[j]) && s[j].nick == k
  {
    var n := |s| - 1;
    if Used(s[n]) && s[n].nick == k {
      j := n;
    } else {
      j := ModelHolds(s[..n], k);
    }
  }

  /** In a table without duplicates the model maps the nick of every used slot to that slot's timestamp. */
  lemma {:induction false} ModelHas(s: seq<Entry>, j: nat)
    requires Unique(s) && j < |s| && Used(s[j])
    ensures s[j].nick in Model(s) && Model(s)[s[j].nick] == s[j].ts
  {
    var n := |s| - 1;
    if j < n {
      var p := s[..n];
      assert Unique(p) by {
        forall a, b | 0 <= a < b < n && Used(p[a]) ensures p[a].nick != p[b].nick {
          assert p[a] == s[a] && p[b] == s[b];
        }
      }
      ModelHas(p, j);
      assert p[j] == s[j];
    }
  }

  /** Two slot sequences that agree on which slots are used and on their nicks and timestamps have the same model. */
  lemma {:induction false} ModelSame(s: seq<Entry>, t: seq<Entry>)
    requires |t| == |s|
    requires forall j :: 0 <= j < |s| ==> Used(t[j]) == Used(s[j]) && (Used(s[j]) ==> t[j].nick == s[j].nick && t[j].ts == s[j].ts)
    ensures Model(t) == Model(s) && Occupied(t) == Occupied(s)
  {
    if s != [] {
      ModelSame(s[..|s| - 1], t[..|t| - 1]);
    }
  }

  /** Filling a free slot with a nick the model lacks adds that nick and one used slot. */
  lemma {:induction false} ModelFill(s: seq<Entry>, j: nat, e: Entry)
    requires j < |s| && !Used(s[j]) && Used(e) && e.nick !in Model(s)
    ensures Model(s[j := e]) == Model(s)[e.nick := e.ts]
    ensures Occupied(s[j := e]) == Occupied(s) + 1
  {
    var n := |s| - 1;
    var t := s[j := e];
    if j < n {
      assert t[..n] == s[..n][j := e];
      ModelFill(s[..n], j, e);
    } else {
      assert t[..n] == s[..n];
    }
  }

  /** Re-stamping the used slot `i` of a table without duplicates changes only the timestamp of its nick. */
  lemma {:induction false} ModelStamp(s: seq<Entry>, i: nat, ts: nat)
    requires Unique(s) && i < |s| && Used(s[i])
    ensures Model(s[i := s[i].(ts := ts)]) == Model(s)[s[i].nick := ts]
    ensures Occupied(s[i := s[i].(ts := ts)]) == Occupied(s)
  {
    var n := |s| - 1;
    var t := s[i := s[i].(ts := ts)];
    if i < n {
      var p := s[..n];
      assert t[..n] == p[i := p[i].(ts := ts)];
      assert Unique(p) by {
        forall a, b | 0 <= a < b < n && Used(p[a]) ensures p[a].nick != p[b].nick {
          assert p[a] == s[a] && p[b] == s[b];
        }
      }
      ModelStamp(p, i, ts);
    } else {
      assert t[..n] == s[..n];
    }
  }

  /** Every slot used in `s` is used in `t`. */
  ghost predicate Covers(s: seq<Entry>, t: seq<Entry>)
  {
    |t| == |s| && forall j :: 0 <= j < |s| && Used(s[j]) ==> Used(t[j])
  }

  /** Taking more slots keeps every probe run used. */
  lemma ReachedMore(s: seq<Entry>, t: seq<Entry>, h: nat, d: nat)
    requires Covers(s, t) && h < |s| && d <= |s| && Reached(s, h, d)
    ensures Reached(t, h, d)
  {
    forall e | 0 <= e < d ensures Used(t[Slot(h, e, |s|)]) {
      assert Used(s[Slot(h, e, |s|)]);
    }
  }

  /** Once probing from `h` meets the free slot `d` probes along, no slot further along is reached. */
  lemma ReachedBefore(s: seq<Entry>, h: nat, d: nat, e: nat)
    requires h < |s| && d < |s| && e <= |s| && Reached(s, h, e) && !Used(s[Slot(h, d, |s|)])
    ensures e <= d
  {
  }

  /**
   * Probing for `k` from its home passes only slots of other nicks; once it
   * meets a free slot it has shown that `k` is absent.
   */
  lemma ProbeFree(s: seq<Entry>, k: seq<byte>, d: nat)
    requires Table(s) && d < |s|
    requires var h := Home(Hash(k), |s|);
      Reached(s, h, d) && !Used(s[Slot(h, d, |s|)]) && Missed(s, h, d, k)
    ensures k !in Model(s)
  {
    var n, h := |s|, Home(Hash(k), |s|);
    forall j | 0 <= j < n && Used(s[j]) ensures s[j].nick != k {
      assert Stored(s, j) && Placed(s, j);
      var hj := Home(s[j].hash, n);
      var dj := Dist(hj, j, n);
      if hj == h {
        ReachedBefore(s, h, d, dj);
        assert dj < d ==> s[Slot(h, dj, n)].nick != k;
      }
    }
    ModelLacks(s, k);
  }

  /** Storing a new nick at the free slot its probe reached keeps the table invariant. */
  lemma FillTable(s: seq<Entry>, i: nat, e: Entry, d: nat)
    requires Table(s) && i < |s| && !Used(s[i])
    requires Used(e) && e.hash == Hash(e.nick) && |e.nick| <= NickMax && e.nick !in Model(s)
    requires d < |s| && i == Slot(Home(e.hash, |s|), d, |s|) && Reached(s, Home(e.hash, |s|), d)
    ensures Table(s[i := e])
  {
    var t, n := s[i := e], |s|;
    assert Covers(s, t);
    forall j | 0 <= j < n ensures Stored(t, j) && Placed(t, j) {
      if j == i {
        ReachedMore(s, t, Home(e.hash, n), d);
      } else {
        assert t[j] == s[j] && Stored(s, j) && Placed(s, j);
        if Used(s[j]) {
          ReachedMore(s, t, Home(s[j].hash, n), Dist(Home(s[j].hash, n), j, n));
        }
      }
    }
    forall a, b | 0 <= a < b < n && Used(t[a]) ensures t[a].nick != t[b].nick {
      if a == i {
        if Used(s[b]) { ModelHas(s, b); }
      } else if b == i {
        ModelHas(s, a);
      }
    }
  }

  /** The table invariant reads only which slots are used and their nicks and hashes. */
  lemma Reshaped(s: seq<Entry>, t: seq<Entry>)
    requires Table(s) && |t| == |s|
    requires forall j :: 0 <= j < |s| ==> Used(t[j]) == Used(s[j]) && (Used(s[j]) ==> t[j].nick == s[j].nick && t[j].hash == s[j].hash)
    ensures Table(t)
  {
    assert Covers(s, t);
    forall j | 0 <= j < |s| ensures Stored(t, j) && Placed(t, j) {
      assert Stored(s, j) && Placed(s, j);
      if Used(s[j]) {
        ReachedMore(s, t, Home(s[j].hash, |s|), Dist(Home(s[j].hash, |s|), j, |s|));
      }
    }
  }

  /** A table with fewer used slots than slots has a free one. */
  lemma {:induction false} FreeSlot(s: seq<Entry>) returns (f: nat)
    requires Occupied(s) < |s|
    ensures f < |s| && !Used(s[f])
  {
    var n := |s| - 1;
    if Used(s[n]) {
      f := FreeSlot(s[..n]);
      assert s[..n][f] == s[f];
    } else {
      f := n;
    }
  }

  /** `Occupied` of a prefix never exceeds that of the whole. */
  lemma {:induction false} OccupiedPrefix(s: seq<Entry>, i: nat)
    requires i <= |s|
    ensures Occupied(s[..i]) <= Occupied(s)
    decreases |s| - i
  {
    if i < |s| {
      assert s[..i + 1][..i] == s[..i];
      OccupiedPrefix(s, i + 1);
    } else {
      assert s[..i] == s;
    }
  }

  /**
   * `put(es, e)`: store `e` at the first free slot from its home.  `grow` is
   * its only caller and passes each nick once into a table with free slots.
   */
  method Put(a: array<Entry>, e: Entry)
    requires Table(a[..]) && Occupied(a[..]) < a.Length
    requires Used(e) && e.hash == Hash(e.nick) && |e.nick| <= NickMax && e.nick !in Model(a[..])
    modifies a
    ensures Table(a[..]) && Occupied(a[..]) == old(Occupied(a[..])) + 1
    ensures Model(a[..]) == old(Model(a[..]))[e.nick := e.ts]
  {
    var n := a.Length;
    ghost var s := a[..];
    ghost var h := Home(e.hash, n);
    ghost var f := FreeSlot(s);
    ghost var d := 0;
    var i := e.hash % n;
    while a[i].nick != []
      invariant a[..] == s && d <= Dist(h, f, n) && i == Slot(h, d, n)
      invariant Reached(s, h, d) && Missed(s, h, d, e.nick)
      decreases Dist(h, f, n) - d
    {
      assert s[i].nick != e.nick by { ModelHas(s, i); }
      ProbeStep(s, h, f, d, e.nick);
      i := if i + 1 < n then i + 1 else 0;
      d := d + 1;
    }
    a[i] := e;
    FillTable(s, i, e, d);
    ModelFill(s, i, e);
  }

  /** The loop of `grow`: `put` every used slot of `src` into `dst`, whose slots are all free. */
  method Rehash(src: array<Entry>, dst: array<Entry>)
    requires Table(src[..]) && dst.Length > src.Length && src != dst
    requires forall j :: 0 <= j < dst.Length ==> !Used(dst[j])
    modifies dst
    ensures Table(dst[..]) && Model(dst[..]) == Model(src[..]) && Occupied(dst[..]) == Occupied(src[..])
  {
    NoneUsed(dst[..]);
    assert Table(dst[..]) by {
      forall j | 0 <= j < dst.Length ensures Stored(dst[..], j) && Placed(dst[..], j) { }
    }
    assert src[..][..0] == [];
    for i := 0 to src.Length
      invariant Table(dst[..])
      invariant Model(dst[..]) == Model(src[..][..i]) && Occupied(dst[..]) == Occupied(src[..][..i])
    {
      ghost var p := src[..][..i];
      assert src[..][..i + 1][..i] == p;
      OccupiedPrefix(src[..], i + 1);
      if src[i].nick != [] {
        forall j | 0 <= j < i && Used(p[j]) ensures p[j].nick != src[i].nick {
          assert p[j] == src[j];
        }
        ModelLacks(p, src[i].nick);
        assert Stored(src[..], i);
        Put(dst, src[i]);
      }
    }
    assert src[..][..src.Length] == src[..];
  }

  /**
   * The probe loop of `tsmap_update`: from the home slot of `nick`, the first
   * slot that is free or holds `nick`, `d` steps along the probe sequence.
   */
  method Seek(a: array<Entry>, nick: seq<byte>, h: u32) returns (i: nat, ghost d: nat)
    requires Table(a[..]) && Occupied(a[..]) < a.Length && h == Hash(nick)
    ensures d < a.Length && i == Slot(Home(h, a.Length), d, a.Length)
    ensures Reached(a[..], Home(h, a.Length), d) && Missed(a[..], Home(h, a.Length), d, nick)
    ensures a[i].nick == [] || (a[i].hash == h && a[i].nick == nick)
  {
    var n := a.Length;
    ghost var s := a[..];
    ghost var f := FreeSlot(s);
    ghost var home := Home(h, n);
    d := 0;
    i := h % n;
    while i < n && a[i].nick != [] && !(a[i].hash == h && a[i].nick == nick)
      invariant d <= Dist(home, f, n) && i == Slot(home, d, n)
      invariant Reached(s, home, d) && Missed(s, home, d, nick)
      decreases Dist(home, f, n) - d
    {
      assert Stored(s, i);
      ProbeStep(s, home, f, d, nick);
      i := if i + 1 < n then i + 1 else 0;
      d := d + 1;
    }
  }

  /** The value `tsmap_get` reports for a nick: its timestamp, or 0 when it was never updated. */
  function Lookup(m: map<seq<byte>, nat>, k: seq<byte>): nat
  {
    if k in m then m[k] else 0
  }

  class Map {
    /** The slots (`es`). */
    var es: array<Entry>
    /** The spare vector that `grow` rehashes into and swaps with `es`. */
    var alt: array<Entry>
    /** The last timestamp handed out. */
    var t: nat
    /** How many updates inserted a slot. */
    var used: nat

    ghost predicate Valid()
      reads this, es
    {
      && Pow2(es.Length) && es.Length >= 16
      && Table(es[..]) && Occupied(es[..]) <= used && used * 2 <= es.Length + 2
    }

    /** The nicks in the table and their last timestamps. */
    ghost function Contents(): map<seq<byte>, nat>
      reads this, es
    {
      Model(es[..])
    }

    /** `tsmap_new()`: 16 free slots, no updates yet. */
    constructor ()
      ensures Valid() && Contents() == map[] && t == 0 && used == 0 && es.Length == 16
    {
      es := new Entry[16](_ => Free);
      alt := new Entry[0];
      t, used := 0, 0;
      new;
      assert Pow2(16) by { assert Pow2(8) && Pow2(4) && Pow2(2); }
      NoneUsed(es[..]);
    }

    /** `tsmap_get(tsm, nick)`: the nick's last timestamp, or 0. */
    method Get(nick: seq<byte>) returns (ts: nat)
      requires Valid() && NoNul(nick)
      ensures ts == Lookup(Contents(), nick)
    {
      var n := es.Length;
      var h := HashOf(nick);
      ghost var s := es[..];
      ghost var f := FreeSlot(s);
      ghost var home := Home(h, n);
      ghost var d := 0;
      var i := h % n;
      while es[i].nick != []
        invariant d <= Dist(home, f, n) && i == Slot(home, d, n)
        invariant Reached(s, home, d) && Missed(s, home, d, nick)
        decreases Dist(home, f, n) - d
      {
        if es[i].hash == h && es[i].nick == nick {
          ModelHas(s, i);
          return es[i].ts;
        }
        assert Stored(s, i);
        ProbeStep(s, home, f, d, nick);
        i := if i + 1 < n then i + 1 else 0;
        d := d + 1;
      }
      ProbeFree(s, nick, d);
      return 0;
    }

    /** `grow(tsm)`: rehash every used slot into twice as many and swap the vectors. */
    method Grow()
      requires Valid()
      modifies this
      ensures Valid() && Contents() == old(Contents()) && es.Length == 2 * old(es.Length)
      ensures t == old(t) && used == old(used) && fresh(es)
    {
      var src := es;
      var dst := new Entry[src.Length * 2](_ => Free);
      Rehash(src, dst);
      es, alt := dst, src;
    }

    /**
     * `tsmap_update(tsm, nick)`: grow when more than half the slots have been
     * taken, then stamp `nick` with the next timestamp, inserting it when new.
     * An empty nick is counted and stamped in a slot that stays free.
     */
    method Update(nick: seq<byte>) returns (ts: nat)
      requires Valid() && NoNul(nick) && |nick| <= NickMax
      modifies this, es
      ensures Valid() && ts == old(t) + 1 && t == ts
      ensures nick != [] ==> Contents() == old(Contents())[nick := ts]
      ensures nick == [] ==> Contents() == old(Contents())
      ensures used == old(used) + (if nick in old(Contents()) then 0 else 1)
      ensures es.Length == if old(used) * 2 > old(es.Length) then 2 * old(es.Length) else old(es.Length)
    {
      if used * 2 > es.Length {
        Grow();
      }
      ts := Stamp(nick);
    }

    /** The probe and store of `tsmap_update`, on a table at most half of whose slots have been taken. */
    method Stamp(nick: seq<byte>) returns (ts: nat)
      requires Valid() && |nick| <= NickMax && used * 2 <= es.Length
      modifies this, es
      ensures Valid() && es == old(es) && ts == old(t) + 1 && t == ts
      ensures nick != [] ==> Contents() == old(Contents())[nick := ts]
      ensures nick == [] ==> Contents() == old(Contents())
      ensures used == old(used) + (if nick in old(Contents()) then 0 else 1)
    {
      var a, n := es, es.Length;
      var h := HashOf(nick);
      ghost var s := a[..];
      ghost var home := Home(h, n);
      var i, d := Seek(a, nick, h);
      ghost var found := a[i].nick != [];
      if a[i].nick == [] {
        ProbeFree(s, nick, d);
        used := used + 1;
        a[i] := a[i].(hash := h, nick := nick);
      } else {
        ModelHas(s, i);
      }
      t := t + 1;
      a[i] := a[i].(ts := t);
      if found {
        assert a[..] == s[i := s[i].(ts := t)];
        Reshaped(s, a[..]);
        ModelStamp(s, i, t);
      } else {
        assert a[..] == s[i := Entry(t, h, nick)];
        if nick != [] {
          FillTable(s, i, a[i], d);
          ModelFill(s, i, a[i]);
        } else {
          Reshaped(s, a[..]);
          ModelSame(s, a[..]);
        }
      }
      return t;
    }
  }
}
