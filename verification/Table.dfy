/**
 * The SQLite tables of one pair of files, as sequences of rows in insertion
 * order.  Both kinds of table are keyed by a string: `Mbx<i>` by message
 * fingerprint (with the message offset as value), `Pop<i>` by message id
 * (with the raw popstate line as value).  A `SELECT` without `ORDER BY` is
 * taken to return rows in insertion order.
 */
module Table {

  datatype Row<V> = Row(key: string, val: V)

  /** `SELECT key FROM t`, as a set. */
  function Keys<V>(t: seq<Row<V>>): set<string> {
    set i | 0 <= i < |t| :: t[i].key
  }

  /** `SELECT val FROM t`, in order. */
  function Vals<V>(t: seq<Row<V>>): (vs: seq<V>)
    ensures |vs| == |t| && forall i :: 0 <= i < |t| ==> vs[i] == t[i].val
  {
    seq(|t|, i requires 0 <= i < |t| => t[i].val)
  }

  /** `SELECT … FROM a WHERE key NOT IN (SELECT key FROM b)`: duplicates of `a` are kept. */
  function Missing<V, W>(a: seq<Row<V>>, b: seq<Row<W>>): (r: seq<Row<V>>)
    ensures forall i :: 0 <= i < |r| ==> r[i].key !in Keys(b)
  {
    if a == [] then []
    else
      var r := a[|a| - 1];
      Missing(a[..|a| - 1], b) + (if r.key in Keys(b) then [] else [r])
  }

  /** A row is selected exactly when it is in `a` and its key is nowhere in `b`. */
  lemma {:induction false} MissingMembers<V, W>(a: seq<Row<V>>, b: seq<Row<W>>, r: Row<V>)
    ensures r in Missing(a, b) <==> r in a && r.key !in Keys(b)
  {
    if a != [] {
      var init := a[..|a| - 1];
      MissingMembers(init, b, r);
      assert a == init + [a[|a| - 1]];
    }
  }

  /** Every copy of a selected row is selected: the filter keeps multiplicities. */
  lemma {:induction false} MissingCount<V, W>(a: seq<Row<V>>, b: seq<Row<W>>, r: Row<V>)
    ensures multiset(Missing(a, b))[r] == if r.key in Keys(b) then 0 else multiset(a)[r]
  {
    if a != [] {
      var init := a[..|a| - 1];
      var last := a[|a| - 1];
      MissingCount(init, b, r);
      assert a == init + [last];
      assert multiset(a) == multiset(init) + multiset{last};
      var m := Missing(init, b);
      if last.key !in Keys(b) {
        assert multiset(m + [last]) == multiset(m) + multiset{last};
      } else {
        assert Missing(a, b) == m + [];
      }
    }
  }

  /** The selection never adds rows, and against an empty table it selects all of `a`. */
  lemma {:induction false} MissingLength<V, W>(a: seq<Row<V>>, b: seq<Row<W>>)
    ensures |Missing(a, b)| <= |a|
    ensures Keys(b) == {} ==> Missing(a, b) == a
  {
    if a != [] {
      MissingLength(a[..|a| - 1], b);
      assert a == a[..|a| - 1] + [a[|a| - 1]];
    }
  }
}
