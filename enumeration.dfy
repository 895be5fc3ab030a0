/**
 * The collections the library builds in loops, as values.
 *
 * A `HashSet<T>` that is only ever added to is enumerated in insertion order,
 * so it is modelled as a duplicate-free sequence in that order; `List<T>.IndexOf`
 * is the first position of an element, or -1. `RowMajor` is the nested
 * `for (y ...) for (x ...)` scan that the tile code performs everywhere.
 */
module Enumeration {
  import opened Arith

  /** No element occurs twice (the enumeration of a HashSet or of a Dictionary's keys). */
  predicate Distinct<T(==)>(s: seq<T>) {
    forall i, j :: 0 <= i < j < |s| ==> s[i] != s[j]
  }

  /** `HashSet<T>.Add`: x is appended unless it is already present. */
  function Add<T(==)>(s: seq<T>, x: T): (r: seq<T>)
    ensures Distinct(s) ==> Distinct(r)
    ensures x in r && |r| <= |s| + 1
  {
    if x in s then s else s + [x]
  }

  /** `List<T>.IndexOf`: the first position holding x, or -1 when x does not occur. */
  function IndexOf<T(==)>(s: seq<T>, x: T): (r: int)
    ensures -1 <= r < |s|
    ensures r == -1 <==> x !in s
    ensures 0 <= r ==> s[r] == x && forall j :: 0 <= j < r ==> s[j] != x
  {
    if s == [] then -1
    else if s[0] == x then 0
    else
      var k := IndexOf(s[1..], x);
      if k == -1 then -1 else k + 1
  }

  /** Appending to a list does not move the first occurrence of an element already in it. */
  lemma IndexOfAppend<T>(s: seq<T>, z: T, y: T)
    ensures y in s ==> IndexOf(s + [z], y) == IndexOf(s, y)
    ensures y !in s && y == z ==> IndexOf(s + [z], y) == |s|
  {
    if y in s {
      assert (s + [z])[IndexOf(s, y)] == y;
    } else if y == z {
      assert (s + [z])[|s|] == y;
    }
  }

  /** The first occurrence of x is the one right after a prefix that does not contain it. */
  lemma IndexOfAfter<T>(s: seq<T>, x: T, rest: seq<T>)
    requires x !in s
    ensures IndexOf(s + [x] + rest, x) == |s|
  {
    var t := s + [x] + rest;
    assert t[|s|] == x;
    assert forall j :: 0 <= j < |s| ==> t[j] == s[j];
  }

  /** The set obtained by adding the elements of s one after another, in enumeration order. */
  function Dedup<T(==)>(s: seq<T>): seq<T>
  {
    if s == [] then [] else Add(Dedup(s[..|s| - 1]), s[|s| - 1])
  }

  /** Adding one more element to the scanned sequence is one more HashSet.Add. */
  lemma DedupSnoc<T>(s: seq<T>, x: T)
    ensures Dedup(s + [x]) == Add(Dedup(s), x)
  {
    assert (s + [x])[..|s|] == s;
  }

  /** The set built from s[..i + 1] is the one built from s[..i] with s[i] added. */
  lemma DedupTake<T>(s: seq<T>, i: nat)
    requires i < |s|
    ensures Dedup(s[..i + 1]) == Add(Dedup(s[..i]), s[i])
  {
    assert s[..i + 1] == s[..i] + [s[i]];
    DedupSnoc(s[..i], s[i]);
  }

  lemma {:induction false} DedupDistinct<T>(s: seq<T>)
    ensures Distinct(Dedup(s))
  {
    if s != [] {
      DedupDistinct(s[..|s| - 1]);
    }
  }

  /** The set holds exactly the elements that were added. */
  lemma {:induction false} DedupMembers<T>(s: seq<T>)
    ensures forall x :: x in Dedup(s) <==> x in s
  {
    if s != [] {
      var p := s[..|s| - 1];
      DedupMembers(p);
      assert s == p + [s[|s| - 1]];
    }
  }

  /** Adding n elements yields at most n entries. */
  lemma {:induction false} DedupLength<T>(s: seq<T>)
    ensures |Dedup(s)| <= |s|
  {
    if s != [] {
      DedupLength(s[..|s| - 1]);
    }
  }

  /** Adding elements that are already pairwise distinct keeps all of them, in order. */
  lemma {:induction false} DedupOfDistinct<T>(s: seq<T>)
    requires Distinct(s)
    ensures Dedup(s) == s
  {
    if s != [] {
      var p, z := s[..|s| - 1], s[|s| - 1];
      assert Distinct(p) by {
        forall i, j | 0 <= i < j < |p|
          ensures p[i] != p[j]
        {
          assert p[i] == s[i] && p[j] == s[j];
        }
      }
      assert z !in p by {
        forall i | 0 <= i < |p|
          ensures p[i] != z
        {
          assert p[i] == s[i];
        }
      }
      DedupOfDistinct(p);
      assert Dedup(s) == Add(p, z);
      SplitLast(s);
    }
  }

  /** A non-empty sequence is its front followed by its last element. */
  lemma SplitLast<T>(s: seq<T>)
    requires s != []
    ensures s == s[..|s| - 1] + [s[|s| - 1]]
  {
  }

  /** A duplicate-free sequence has as many entries as the set of its elements. */
  lemma {:induction false} DistinctCardinality<T>(s: seq<T>)
    requires Distinct(s)
    ensures |set x | x in s| == |s|
  {
    if s != [] {
      var p := s[..|s| - 1];
      var z := s[|s| - 1];
      assert Distinct(p);
      DistinctCardinality(p);
      assert z !in p;
      assert s == p + [z];
      assert (set x | x in s) == (set x | x in p) + {z};
    }
  }

  /** The number of entries is the number of distinct elements added. */
  lemma {:induction false} DedupCardinality<T>(s: seq<T>)
    ensures |Dedup(s)| == |set x | x in s|
  {
    if s != [] {
      var p, z := s[..|s| - 1], s[|s| - 1];
      DedupCardinality(p);
      DedupMembers(p);
      assert s == p + [z];
      var sp := set x | x in p;
      assert (set x | x in s) == sp + {z};
      if z in p {
        assert sp + {z} == sp;
      } else {
        assert z !in sp;
        assert |sp + {z}| == |sp| + 1;
      }
    }
  }

  /** Entries are ordered by the position at which each element was first added. */
  lemma {:induction false} DedupOrder<T>(s: seq<T>, x: T, y: T)
    requires x in s && y in s
    ensures IndexOf(Dedup(s), x) < IndexOf(Dedup(s), y) <==> IndexOf(s, x) < IndexOf(s, y)
  {
    var p, z := s[..|s| - 1], s[|s| - 1];
    assert s == p + [z];
    var d := Dedup(p);
    DedupMembers(p);
    IndexOfAppend(p, z, x);
    IndexOfAppend(p, z, y);
    if z in d {
      assert Dedup(s) == d;
      if x in p && y in p {
        DedupOrder(p, x, y);
      }
    } else {
      assert Dedup(s) == d + [z];
      IndexOfAppend(d, z, x);
      IndexOfAppend(d, z, y);
      if x in p && y in p {
        DedupOrder(p, x, y);
      }
    }
  }

  /** Two entries of the set appear in the order in which their elements were first met. */
  lemma DedupFirstSeenOrder<T>(s: seq<T>, i: int, j: int)
    requires 0 <= i < j < |Dedup(s)|
    ensures IndexOf(s, Dedup(s)[i]) < IndexOf(s, Dedup(s)[j])
  {
    var d := Dedup(s);
    DedupDistinct(s);
    DedupMembers(s);
    assert IndexOf(d, d[i]) == i;
    assert IndexOf(d, d[j]) == j;
    DedupOrder(s, d[i], d[j]);
  }

  /** f(x, y) for x in [0, n), in that order. */
  function Row<T>(f: (nat, nat) -> T, y: nat, n: nat): (r: seq<T>)
    ensures |r| == n
    ensures forall x :: 0 <= x < n ==> r[x] == f(x, y)
  {
    if n == 0 then [] else Row(f, y, n - 1) + [f(n - 1, y)]
  }

  /** The scan `for (y = 0; y < rows; y++) for (x = 0; x < cols; x++)`: f(x, y) in that order. */
  function RowMajor<T>(f: (nat, nat) -> T, cols: nat, rows: nat): seq<T>
  {
    if rows == 0 then [] else RowMajor(f, cols, rows - 1) + Row(f, rows - 1, cols)
  }

  /** A completed row after the scan of the rows above it is the scan of one more row. */
  lemma ScanNextRow<T>(f: (nat, nat) -> T, cols: nat, rows: nat, above: seq<T>)
    requires above == RowMajor(f, cols, rows)
    ensures above + Row(f, rows, cols) == RowMajor(f, cols, rows + 1)
  {
  }

  lemma {:induction false} RowMajorLength<T>(f: (nat, nat) -> T, cols: nat, rows: nat)
    ensures |RowMajor(f, cols, rows)| == cols * rows
  {
    if rows > 0 {
      RowMajorLength(f, cols, rows - 1);
    }
  }

  /** The block at column x of row y is visited at position y * cols + x. */
  lemma {:induction false} RowMajorAt<T>(f: (nat, nat) -> T, cols: nat, rows: nat, x: nat, y: nat)
    requires x < cols && y < rows
    ensures |RowMajor(f, cols, rows)| == cols * rows
    ensures y * cols + x < cols * rows
    ensures RowMajor(f, cols, rows)[y * cols + x] == f(x, y)
  {
    RowMajorLength(f, cols, rows);
    ScanIndex(cols, rows, x, y);
    if y < rows - 1 {
      RowMajorAt(f, cols, rows - 1, x, y);
      ScanPrefix(RowMajor(f, cols, rows - 1), Row(f, rows - 1, cols), y * cols + x);
    } else {
      RowMajorLength(f, cols, rows - 1);
      ScanSuffix(RowMajor(f, cols, rows - 1), Row(f, rows - 1, cols), x);
    }
  }

  lemma ScanPrefix<T>(above: seq<T>, last: seq<T>, i: nat)
    requires i < |above|
    ensures (above + last)[i] == above[i]
  {
  }

  lemma ScanSuffix<T>(above: seq<T>, last: seq<T>, x: nat)
    requires x < |last|
    ensures (above + last)[|above| + x] == last[x]
  {
  }

  /** Where position y * cols + x falls: in the rows above the last one, or at x in the last. */
  lemma ScanIndex(cols: nat, rows: nat, x: nat, y: nat)
    requires x < cols && y < rows
    ensures y * cols + x < cols * rows
    ensures y < rows - 1 ==> y * cols + x < cols * (rows - 1)
    ensures y == rows - 1 ==> y * cols + x == cols * (rows - 1) + x
  {
    var n := rows - 1;
    assert cols * rows == n * cols + cols;
    assert cols * n == n * cols;
    if y < n {
      MulMonotone(y + 1, n, cols);
      assert (y + 1) * cols == y * cols + cols;
    } else {
      MulMonotone(y, n, cols);
    }
  }

  /** Position k of the scan holds the block at column k % cols of row k / cols. */
  lemma RowMajorElement<T>(f: (nat, nat) -> T, cols: nat, rows: nat, k: nat)
    requires k < |RowMajor(f, cols, rows)|
    ensures cols > 0 && k / cols < rows
    ensures RowMajor(f, cols, rows)[k] == f(k % cols, k / cols)
  {
    RowMajorLength(f, cols, rows);
    QuotientBound(k, cols, rows);
    var x, y := k % cols, k / cols;
    RowMajorAt(f, cols, rows, x, y);
    assert y * cols + x == k;
  }

  /** A position below cols * rows has a row number below rows. */
  lemma QuotientBound(k: nat, cols: nat, rows: nat)
    requires k < cols * rows
    ensures cols > 0 && k / cols < rows && k == (k / cols) * cols + k % cols
  {
    assert cols > 0;
    var y := k / cols;
    assert k == y * cols + k % cols;
    if y >= rows {
      MulMonotone(rows, y, cols);
    }
  }
}
