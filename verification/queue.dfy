/**
  The binary heap of `(distance, node)` pairs, abstracted as a multiset from
  which any entry of least distance may be extracted.
 */
module PriorityQueue {

  /** A heap entry: a tentative distance and the node it was pushed for. */
  datatype Entry = Entry(d: nat, node: string)

  /** `e` has no entry of smaller distance below it in `q`. */
  predicate IsMin(e: Entry, q: multiset<Entry>) {
    forall f :: f in q ==> e.d <= f.d
  }

  /** A non-empty queue always has an entry that may be popped. */
  lemma {:induction false} MinExists(q: multiset<Entry>)
    requires q != multiset{}
    ensures exists e :: e in q && IsMin(e, q)
    decreases |q|
  {
    var x :| x in q;
    var rest := q - multiset{x};
    if rest == multiset{} {
      assert q == multiset{x};
    } else {
      MinExists(rest);
      var m :| m in rest && IsMin(m, rest);
      if m.d <= x.d {
        assert m in q && IsMin(m, q) by {
          forall f | f in q ensures m.d <= f.d {
            if f != x {
              assert f in rest;
            }
          }
        }
      } else {
        assert IsMin(x, q) by {
          forall f | f in q ensures x.d <= f.d {
            if f != x {
              assert f in rest;
            }
          }
        }
      }
    }
  }
}
