/**
 * Character classes of the regular-expression engine: the ranges a `[...]`
 * item list becomes, their normalisation after `qsort` (adjacent and
 * overlapping ranges merged), and the binary search that tests a byte for
 * membership.  An entry is stored in C as the 16-bit value `lo << 8 | hi`.
 */
module Classes {
  import opened Bytes

  /** One class entry: the bytes `lo` to `hi`. */
  datatype Range = Range(lo: byte, hi: byte)

  /** The 16-bit value the entry is stored as. */
  function Key(r: Range): nat
  {
    r.lo * 256 + r.hi
  }

  /** Byte `c` lies in the range. */
  predicate In(r: Range, c: int)
  {
    r.lo <= c <= r.hi
  }

  /** `classcmp`: `(*a << 8) - (*b << 8)` on the promoted values; entries compare by low byte, then high byte. */
  function ClassCmp(a: Range, b: Range): (d: int)
    ensures d < 0 <==> a.lo < b.lo || (a.lo == b.lo && a.hi < b.hi)
    ensures d == 0 <==> a == b
  {
    Key(a) * 256 - Key(b) * 256
  }

  /** In the order `classcmp` gives `qsort`. */
  predicate Sorted(es: seq<Range>)
  {
    forall i, j :: 0 <= i < j < |es| ==> ClassCmp(es[i], es[j]) <= 0
  }

  /** Some entry holds `c`. */
  predicate Member(es: seq<Range>, c: int)
  {
    exists k :: 0 <= k < |es| && In(es[k], c)
  }

  /** Every entry is written low end first. */
  predicate WellFormed(es: seq<Range>)
  {
    forall k :: 0 <= k < |es| ==> es[k].lo <= es[k].hi
  }

  /** Between two neighbouring ranges lies at least one byte that neither holds. */
  predicate Gaps(es: seq<Range>)
  {
    forall k :: 0 <= k < |es| - 1 ==> es[k].hi + 1 < es[k + 1].lo
  }

  /** The form `charclass` leaves a class in, on which the binary search is exact. */
  predicate Normal(es: seq<Range>)
  {
    WellFormed(es) && Gaps(es)
  }

  /** The byte value of a `char` on a platform where `char` is signed. */
  function SignedChar(b: byte): int
  {
    if b < 128 then b else b - 256
  }

  /**
   * The entry for the item `a-b` (`a-a` for a single byte) as written:
   * `((*s)[0] << 8) + (*s)[2]` on signed `char` values, stored into a
   * `uint16_t`.
   */
  function EntryAsWritten(a: byte, b: byte): Range
  {
    var v := (SignedChar(a) * 256 + SignedChar(b)) % 0x1_0000;
    Range(v / 256, v % 256)
  }

  /** As written, an item whose last byte is 0x80 or above also admits the byte before its first. */
  lemma EntryAsWrittenWidens(a: byte, b: byte)
    requires 1 <= a && 128 <= b
    ensures EntryAsWritten(a, b) == Range(a - 1, b)
  {
    var u := (a as int - 1) * 256 + b as int;
    var v := SignedChar(a) * 256 + SignedChar(b);
    if a < 128 {
      assert v == u;
      WrapsTo(v, u, 0);
    } else {
      assert v == u - 0x1_0000;
      WrapsTo(v, u, -1);
    }
    SplitsTo(u, a as int - 1, b as int);
  }

  /** A value `k` times 2^16 away from a value in range wraps onto it. */
  lemma WrapsTo(v: int, u: int, k: int)
    requires 0 <= u < 0x1_0000 && v == u + k * 0x1_0000
    ensures v % 0x1_0000 == u
  {
  }

  /** A sixteen-bit value splits into its high and low bytes. */
  lemma SplitsTo(u: int, hi: int, lo: int)
    requires 0 <= lo < 256 && u == hi * 256 + lo
    ensures u / 256 == hi && u % 256 == lo
  {
  }

  /** The single byte 0xE9 becomes the range 0xE8 to 0xE9: `[é]` in Latin-1 also matches 0xE8. */
  lemma EntryAsWrittenExample()
    ensures EntryAsWritten(0xE9, 0xE9) == Range(0xE8, 0xE9)
    ensures In(EntryAsWritten(0xE9, 0xE9), 0xE8) && !In(Range(0xE9, 0xE9), 0xE8)
  {
    EntryAsWrittenWidens(0xE9, 0xE9);
  }

  /** The entry the item evidently means: the bytes from `a` to `b`, as unsigned values. */
  function Entry(a: byte, b: byte): (r: Range)
    ensures forall c :: In(r, c) <==> a <= c <= b
  {
    Range(a, b)
  }

  /** `qsort`'s insertion of one entry into a sorted run. */
  function Insert(x: Range, es: seq<Range>): (r: seq<Range>)
    ensures multiset(r) == multiset(es) + multiset{x}
    decreases |es|
  {
    if es == [] then [x]
    else if ClassCmp(x, es[0]) <= 0 then [x] + es
    else
      assert es == [es[0]] + es[1..];
      [es[0]] + Insert(x, es[1..])
  }

  /** Every entry of `t` comes at or after `y`. */
  predicate AllAfter(y: Range, t: seq<Range>)
  {
    forall k :: 0 <= k < |t| ==> ClassCmp(y, t[k]) <= 0
  }

  /** A sorted run with an entry before it that comes first is sorted. */
  lemma SortedCons(y: Range, t: seq<Range>)
    requires Sorted(t) && AllAfter(y, t)
    ensures Sorted([y] + t)
  {
    var r := [y] + t;
    forall i, j | 0 <= i < j < |r| ensures ClassCmp(r[i], r[j]) <= 0 {
      assert r[j] == t[j - 1];
      if i > 0 {
        assert r[i] == t[i - 1];
      }
    }
  }

  /** An entry that comes before `x` and before a sorted run comes before the run with `x` inserted. */
  lemma InsertAfter(x: Range, es: seq<Range>)
    requires Sorted(es) && es != [] && ClassCmp(es[0], x) <= 0
    ensures AllAfter(es[0], Insert(x, es[1..]))
  {
    var t := Insert(x, es[1..]);
    forall k | 0 <= k < |t|
      ensures ClassCmp(es[0], t[k]) <= 0
    {
      assert t[k] in multiset(t);
      if t[k] != x {
        assert t[k] in multiset(es[1..]);
        var i :| 0 <= i < |es[1..]| && es[1..][i] == t[k];
        assert es[i + 1] == t[k];
      }
    }
  }

  /** Insertion keeps a run sorted. */
  lemma {:induction false} InsertSorted(x: Range, es: seq<Range>)
    requires Sorted(es)
    ensures Sorted(Insert(x, es))
    decreases |es|
  {
    if es == [] {
    } else if ClassCmp(x, es[0]) <= 0 {
      assert AllAfter(x, es) by {
        forall k | 0 <= k < |es| ensures ClassCmp(x, es[k]) <= 0 {
          if k > 0 {
            assert ClassCmp(es[0], es[k]) <= 0;
          }
        }
      }
      SortedCons(x, es);
    } else {
      var t := Insert(x, es[1..]);
      SortedSuffix(es, 1);
      InsertSorted(x, es[1..]);
      InsertAfter(x, es);
      SortedCons(es[0], t);
    }
  }

  /**
   * `qsort(class, n, sizeof *class, classcmp)`: the library sort, taken here
   * as its result, the entries in `classcmp` order (equal entries are
   * identical, so the sorted order is unique).
   */
  function Sort(es: seq<Range>): (r: seq<Range>)
    ensures Sorted(r) && multiset(r) == multiset(es) && |r| == |es|
    decreases |es|
  {
    if es == [] then []
    else
      var p, x := es[..|es| - 1], es[|es| - 1];
      assert es == p + [x];
      var s := Sort(p);
      InsertSorted(x, s);
      assert multiset(Insert(x, s)) == multiset(es);
      assert |multiset(Insert(x, s))| == |Insert(x, s)|;
      Insert(x, s)
  }

  /** Sorting keeps the member bytes. */
  lemma SortMembers(es: seq<Range>, c: int)
    ensures Member(Sort(es), c) <==> Member(es, c)
  {
    var r := Sort(es);
    if Member(es, c) {
      var k :| 0 <= k < |es| && In(es[k], c);
      assert es[k] in multiset(r);
      var m :| 0 <= m < |r| && r[m] == es[k];
    }
    if Member(r, c) {
      var k :| 0 <= k < |r| && In(r[k], c);
      assert r[k] in multiset(es);
      var m :| 0 <= m < |es| && es[m] == r[k];
    }
  }

  /** Where the inner loop of the merge stops, and the high byte it reached. */
  datatype Absorbed = Absorbed(next: nat, high: byte)

  /**
   * The inner loop of the merge: from entry `j` on, each entry whose low byte
   * is at most one past `high` joins the range and may raise `high`.
   */
  function Absorb(es: seq<Range>, j: nat, high: byte): (r: Absorbed)
    requires j <= |es|
    ensures j <= r.next <= |es| && high <= r.high
    ensures r.next < |es| ==> es[r.next].lo > r.high + 1
    decreases |es| - j
  {
    if j < |es| && es[j].lo as int <= high as int + 1 then Absorb(es, j + 1, if es[j].hi > high then es[j].hi else high)
    else Absorbed(j, high)
  }

  /** The merge loop of `charclass`: each range swallows the entries that overlap or touch it. */
  function Merged(es: seq<Range>): (r: seq<Range>)
    ensures |r| <= |es|
    decreases |es|
  {
    if es == [] then []
    else
      var a := Absorb(es, 1, es[0].hi);
      [Range(es[0].lo, a.high)] + Merged(es[a.next..])
  }

  /** The first merged range runs from the first entry's low byte to the high byte its inner loop reached. */
  lemma MergedFirst(es: seq<Range>, next: nat, high: byte)
    requires es != [] && Absorb(es, 1, es[0].hi) == Absorbed(next, high)
    ensures Merged(es) == [Range(es[0].lo, high)] + Merged(es[next..])
  {
  }

  /** Merged ranges never touch: the loop only stops at an entry more than one past the high byte. */
  lemma {:induction false} MergedGaps(es: seq<Range>)
    ensures Gaps(Merged(es))
    decreases |es|
  {
    if es != [] {
      var a := Absorb(es, 1, es[0].hi);
      var rest := es[a.next..];
      MergedGaps(rest);
      if rest != [] {
        var m := Merged(rest);
        assert m[0].lo == rest[0].lo;
      }
    }
  }

  /** Merged ranges stay written low end first. */
  lemma {:induction false} MergedWellFormed(es: seq<Range>)
    requires WellFormed(es)
    ensures WellFormed(Merged(es))
    decreases |es|
  {
    if es != [] {
      var a := Absorb(es, 1, es[0].hi);
      MergedWellFormed(es[a.next..]);
    }
  }

  /** Some entry below index `j` holds `c`. */
  predicate MemberBelow(es: seq<Range>, j: nat, c: int)
    requires j <= |es|
  {
    exists k :: 0 <= k < j && In(es[k], c)
  }

  /**
   * While the inner loop runs, the range from the first entry's low byte to
   * `high` holds exactly the bytes of the entries it has passed.
   */
  lemma {:induction false} AbsorbMembers(es: seq<Range>, j: nat, high: byte, c: int)
    requires Sorted(es) && 1 <= j <= |es|
    requires es[0].hi <= high
    requires In(Range(es[0].lo, high), c) <==> MemberBelow(es, j, c)
    ensures var a := Absorb(es, j, high); In(Range(es[0].lo, a.high), c) <==> MemberBelow(es, a.next, c)
    decreases |es| - j
  {
    if j < |es| && es[j].lo <= high + 1 {
      var h := if es[j].hi > high then es[j].hi else high;
      AbsorbOne(es, j, high, h, c);
      AbsorbMembers(es, j + 1, h, c);
    }
  }

  /** One pass of the inner loop: entry `j`, which touches the range, joins it. */
  lemma AbsorbOne(es: seq<Range>, j: nat, high: byte, h: byte, c: int)
    requires Sorted(es) && 1 <= j < |es| && es[j].lo <= high + 1
    requires es[0].hi <= high && h == (if es[j].hi > high then es[j].hi else high)
    requires In(Range(es[0].lo, high), c) <==> MemberBelow(es, j, c)
    ensures In(Range(es[0].lo, h), c) <==> MemberBelow(es, j + 1, c)
  {
    assert ClassCmp(es[0], es[j]) <= 0;
    if MemberBelow(es, j + 1, c) && !MemberBelow(es, j, c) {
      assert In(es[j], c);
    }
    if In(Range(es[0].lo, h), c) && !In(Range(es[0].lo, high), c) {
      assert In(es[j], c);
    }
  }

  /** A suffix of a sorted run is sorted. */
  lemma SortedSuffix(es: seq<Range>, j: nat)
    requires Sorted(es) && j <= |es|
    ensures Sorted(es[j..])
  {
    var t := es[j..];
    forall a, b | 0 <= a < b < |t| ensures ClassCmp(t[a], t[b]) <= 0 {
      assert t[a] == es[j + a] && t[b] == es[j + b];
    }
  }

  /** The members of a class with one more range in front. */
  lemma MemberCons(y: Range, t: seq<Range>, c: int)
    ensures Member([y] + t, c) <==> In(y, c) || Member(t, c)
  {
    var r := [y] + t;
    assert r[0] == y;
    if Member(t, c) {
      var k :| 0 <= k < |t| && In(t[k], c);
      assert r[k + 1] == t[k];
    }
    if Member(r, c) {
      var k :| 0 <= k < |r| && In(r[k], c);
      if k > 0 {
        assert r[k] == t[k - 1];
      }
    }
  }

  /** The members of a class are those of the entries below `j` and those from `j` on. */
  lemma MemberSplit(es: seq<Range>, j: nat, c: int)
    requires j <= |es|
    ensures Member(es, c) <==> MemberBelow(es, j, c) || Member(es[j..], c)
  {
    var t := es[j..];
    if Member(t, c) {
      var k :| 0 <= k < |t| && In(t[k], c);
      assert es[j + k] == t[k];
    }
    if Member(es, c) {
      var k :| 0 <= k < |es| && In(es[k], c);
      if k >= j {
        assert t[k - j] == es[k];
      }
    }
  }

  /** Merging keeps the member bytes of a sorted class. */
  lemma {:induction false} MergedMembers(es: seq<Range>, c: int)
    requires Sorted(es)
    ensures Member(Merged(es), c) <==> Member(es, c)
    decreases |es|
  {
    if es != [] {
      var a := Absorb(es, 1, es[0].hi);
      var rest := es[a.next..];
      assert In(Range(es[0].lo, es[0].hi), c) <==> MemberBelow(es, 1, c) by {
        if MemberBelow(es, 1, c) {
          var k :| 0 <= k < 1 && In(es[k], c);
        }
        if In(es[0], c) {
          assert MemberBelow(es, 1, c);
        }
      }
      AbsorbMembers(es, 1, es[0].hi, c);
      SortedSuffix(es, a.next);
      MergedMembers(rest, c);
      MemberCons(Range(es[0].lo, a.high), Merged(rest), c);
      MemberSplit(es, a.next, c);
    }
  }

  /**
   * The normalisation of `charclass` (sort, then merge): the ranges come out
   * sorted, non-overlapping and non-adjacent, low end first when every item
   * was, and with the same member bytes as the items.
   */
  lemma Normalised(es: seq<Range>, c: int)
    ensures Gaps(Merged(Sort(es)))
    ensures WellFormed(es) ==> Normal(Merged(Sort(es)))
    ensures Member(Merged(Sort(es)), c) <==> Member(es, c)
  {
    var s := Sort(es);
    MergedGaps(s);
    if WellFormed(es) {
      forall k | 0 <= k < |s| ensures s[k].lo <= s[k].hi {
        assert s[k] in multiset(es);
      }
      MergedWellFormed(s);
    }
    SortMembers(es, c);
    MergedMembers(s, c);
  }

  /** The binary search of `searchclass` over entries `lo` to `hi`. */
  function Bsearch(es: seq<Range>, c: int, lo: int, hi: int): bool
    requires 0 <= lo && hi < |es|
    decreases hi - lo + 1
  {
    if lo > hi then false
    else
      var m := (lo + hi) / 2;
      if c < es[m].lo then Bsearch(es, c, lo, m - 1)
      else if c > es[m].hi then Bsearch(es, c, m + 1, hi)
      else true
  }

  /** `searchclass(class, n, c)`. */
  method SearchClass(es: seq<Range>, c: byte) returns (found: bool)
    ensures found == Bsearch(es, c, 0, |es| - 1)
  {
    var lo, hi := 0, |es| - 1;
    while lo <= hi
      invariant 0 <= lo && hi < |es|
      invariant Bsearch(es, c, lo, hi) == Bsearch(es, c, 0, |es| - 1)
      decreases hi - lo + 1
    {
      var m := (lo + hi) / 2;
      if c < es[m].lo {
        hi := m - 1;
      } else if c > es[m].hi {
        lo := m + 1;
      } else {
        return true;
      }
    }
    return false;
  }

  /** In a normal class an earlier range lies wholly below a later one. */
  lemma {:induction false} Below(es: seq<Range>, i: nat, j: nat)
    requires Normal(es) && i < j < |es|
    ensures es[i].hi < es[j].lo
    decreases j - i
  {
    if i + 1 < j {
      Below(es, i + 1, j);
    }
  }

  /** The binary search finds `c` exactly when it lies in a range between `lo` and `hi`. */
  lemma {:induction false} BsearchExact(es: seq<Range>, c: int, lo: int, hi: int)
    requires Normal(es) && 0 <= lo && hi < |es|
    ensures Bsearch(es, c, lo, hi) <==> exists k :: lo <= k <= hi && In(es[k], c)
    decreases hi - lo + 1
  {
    if lo <= hi {
      var m := (lo + hi) / 2;
      if c < es[m].lo {
        forall k | m <= k <= hi ensures !In(es[k], c) {
          if m < k {
            Below(es, m, k);
          }
        }
        BsearchExact(es, c, lo, m - 1);
      } else if c > es[m].hi {
        forall k | lo <= k <= m ensures !In(es[k], c) {
          if k < m {
            Below(es, k, m);
          }
        }
        BsearchExact(es, c, m + 1, hi);
      }
    }
  }

  /** `searchclass` is true exactly when `c` lies in some `[L, H]` of a normal class. */
  lemma SearchExact(es: seq<Range>, c: int)
    requires Normal(es)
    ensures Bsearch(es, c, 0, |es| - 1) <==> Member(es, c)
  {
    BsearchExact(es, c, 0, |es| - 1);
  }
}
