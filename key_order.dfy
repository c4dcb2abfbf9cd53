/**
 * The order of an index scan over `[to+domain+from]`: compound keys compared level by level,
 * each string compared character by character (a proper prefix first).
 */
module KeyOrder {
  import opened Tally

  /** Lexicographic order on strings. */
  predicate StrLe(s: string, t: string) {
    if s == [] then true
    else if t == [] then false
    else if s[0] != t[0] then s[0] < t[0]
    else StrLe(s[1..], t[1..])
  }

  lemma {:induction false} StrLeAntisymmetric(s: string, t: string)
    requires StrLe(s, t) && StrLe(t, s)
    ensures s == t
  {
    if s != [] && t != [] {
      StrLeAntisymmetric(s[1..], t[1..]);
      assert s == [s[0]] + s[1..] && t == [t[0]] + t[1..];
    }
  }

  lemma {:induction false} StrLeReflexive(s: string)
    ensures StrLe(s, s)
  {
    if s != [] {
      StrLeReflexive(s[1..]);
    }
  }

  /** Compound keys: the first level decides, then the second, then the third. */
  predicate RowLe(x: Row, y: Row) {
    if x.a != y.a then StrLe(x.a, y.a)
    else if x.b != y.b then StrLe(x.b, y.b)
    else StrLe(x.c, y.c)
  }

  /** The keys come in index order. */
  predicate Sorted(rows: seq<Row>) {
    forall i, j :: 0 <= i < j < |rows| ==> RowLe(rows[i], rows[j])
  }

  /** The rows under any prefix are contiguous in the scan. */
  ghost predicate Grouped(rows: seq<Row>) {
    forall p: Prefix, i, j, k :: 0 <= i < j < k < |rows| && Under(rows[i], p) && Under(rows[k], p) ==> Under(rows[j], p)
  }

  /** Between two keys under one prefix, a key in index order lies under that prefix too. */
  lemma BetweenIsUnder(x: Row, y: Row, z: Row, p: Prefix)
    requires RowLe(x, y) && RowLe(y, z) && Under(x, p) && Under(z, p)
    ensures Under(y, p)
  {
    if y.a != x.a {
      StrLeAntisymmetric(x.a, y.a);
    } else if p.P2? || p.P3? {
      if y.b != x.b {
        StrLeAntisymmetric(x.b, y.b);
      } else if p.P3? && y.c != x.c {
        StrLeAntisymmetric(x.c, y.c);
      }
    }
  }

  /** A scan in index order keeps the rows under each prefix together. */
  lemma SortedIsGrouped(rows: seq<Row>)
    requires Sorted(rows)
    ensures Grouped(rows)
  {
    forall p: Prefix, i, j, k | 0 <= i < j < k < |rows| && Under(rows[i], p) && Under(rows[k], p)
      ensures Under(rows[j], p)
    {
      BetweenIsUnder(rows[i], rows[j], rows[k], p);
    }
  }
}
