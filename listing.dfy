/**
 * The ordered listing that the ancestor-table queries return
 * ("order by object identity id, then by ancestor id, ascending").
 * The table itself is a set; a listing is that set in ascending order.
 */
module Listing {
  import opened AncestorClosure

  /** Ascending order on rows: by object identity id, then by ancestor id. */
  predicate Before(p: Entry, q: Entry)
  {
    p.0 < q.0 || (p.0 == q.0 && p.1 < q.1)
  }

  /** Strictly ascending, hence without duplicate rows. */
  predicate Ascending(rows: seq<Entry>)
  {
    forall i, j :: 0 <= i < j < |rows| ==> Before(rows[i], rows[j])
  }

  /** The first row of a non-empty set in listing order. */
  ghost function Least(s: set<Entry>): (m: Entry)
    requires s != {}
    ensures m in s && forall q :: q in s && q != m ==> Before(m, q)
    decreases |s|
  {
    var x :| x in s;
    assert forall q :: q in s ==> q == x || q in s - {x};
    if s - {x} == {} then x
    else
      var m := Least(s - {x});
      if Before(x, m) then x
      else
        assert x != m && x == (x.0, x.1) && m == (m.0, m.1);
        m
  }

  /** Lists a set of rows in ascending order. */
  method Sort(s: set<Entry>) returns (rows: seq<Entry>)
    ensures Ascending(rows)
    ensures forall e :: e in rows <==> e in s
    ensures |rows| == |s|
  {
    rows := [];
    var rest := s;
    while rest != {}
      invariant rest <= s
      invariant Ascending(rows)
      invariant forall e :: e in rows <==> e in s && e !in rest
      invariant forall i, e :: 0 <= i < |rows| && e in rest ==> Before(rows[i], e)
      invariant |rows| + |rest| == |s|
      decreases rest
    {
      ghost var least := Least(rest);
      var m :| m in rest && forall q :: q in rest && q != m ==> Before(m, q);
      rows := rows + [m];
      rest := rest - {m};
    }
  }

  /** A set of rows has only one ascending listing, so a listing is fixed by its rows. */
  lemma {:induction false} AscendingUnique(xs: seq<Entry>, ys: seq<Entry>)
    requires Ascending(xs) && Ascending(ys)
    requires forall e :: e in xs <==> e in ys
    ensures xs == ys
    decreases |xs|
  {
    assert xs == [] || xs[0] in ys;
    assert ys == [] || ys[0] in xs;
    if xs != [] && ys != [] {
      assert xs[0] == ys[0];
      forall e
        ensures e in xs[1..] <==> e in ys[1..]
      {
        if e in xs[1..] {
          var j :| 1 <= j < |xs| && xs[j] == e;
          assert Before(xs[0], xs[j]);
          assert e in xs;
          var k :| 0 <= k < |ys| && ys[k] == e;
          assert k != 0;
        }
        if e in ys[1..] {
          var k :| 1 <= k < |ys| && ys[k] == e;
          assert Before(ys[0], ys[k]);
          assert e in ys;
          var j :| 0 <= j < |xs| && xs[j] == e;
          assert j != 0;
        }
      }
      AscendingUnique(xs[1..], ys[1..]);
      assert xs == [xs[0]] + xs[1..];
      assert ys == [ys[0]] + ys[1..];
    }
  }

  /** Checking neighbours suffices for a listing to be ascending. */
  lemma {:induction false} AscendingFromNeighbours(rows: seq<Entry>)
    requires forall i :: 0 < i < |rows| ==> Before(rows[i - 1], rows[i])
    ensures Ascending(rows)
    decreases |rows|
  {
    if |rows| > 1 {
      var tail := rows[1..];
      assert forall i :: 0 < i < |tail| ==> Before(tail[i - 1], tail[i]) by {
        forall i | 0 < i < |tail|
          ensures Before(tail[i - 1], tail[i])
        {
          assert tail[i - 1] == rows[i] && tail[i] == rows[i + 1];
        }
      }
      AscendingFromNeighbours(tail);
      forall i, j | 0 <= i < j < |rows|
        ensures Before(rows[i], rows[j])
      {
        if i == 0 && j > 1 {
          assert Before(rows[0], rows[1]) && Before(tail[0], tail[j - 1]);
        } else if i > 0 {
          assert Before(tail[i - 1], tail[j - 1]);
        }
      }
    }
  }
}
