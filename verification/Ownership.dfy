/**
 * The reference-counting meaning of linked_ptr: who holds what, which raw
 * pointers were ever captured, and the order in which objects were deleted.
 * Nothing here knows about circles.
 */
module Ownership {
  import opened Wrappers

  datatype Ledger<P(==), T(==)> = Ledger(
    holds: map<P, Option<T>>,
    captured: set<T>,
    deleted: seq<T>)

  predicate Held<P, T(==)>(l: Ledger<P, T>, t: T) {
    Some(t) in l.holds.Values
  }

  /** The pointer lets go; the object goes with its last holder. */
  function Release<P, T(==)>(l: Ledger<P, T>, p: P): Ledger<P, T>
    requires p in l.holds
  {
    var rest := l.holds - {p};
    var orphan := l.holds[p].Some? && l.holds[p] !in rest.Values;
    Ledger(rest, l.captured, if orphan then l.deleted + [l.holds[p].value] else l.deleted)
  }

  function Capture<P, T(==)>(l: Ledger<P, T>, p: P, t: Option<T>): Ledger<P, T> {
    l.(holds := l.holds[p := t], captured := if t.Some? then l.captured + {t.value} else l.captured)
  }

  function Share<P, T(==)>(l: Ledger<P, T>, p: P, from: P): Ledger<P, T>
    requires from in l.holds
  {
    l.(holds := l.holds[p := l.holds[from]])
  }

  /** No leak, no dangling pointer, no double delete. */
  ghost predicate Balanced<P, T>(l: Ledger<P, T>) {
    && (forall t <- l.captured :: multiset(l.deleted)[t] == if Held(l, t) then 0 else 1)
    && (forall t <- l.deleted :: t in l.captured)
    && (forall p <- l.holds :: l.holds[p].Some? ==> l.holds[p].value in l.captured)
  }

  lemma ReleaseBalanced<P, T>(l: Ledger<P, T>, p: P)
    requires Balanced(l) && p in l.holds
    ensures Balanced(Release(l, p))
  {
    var r := Release(l, p);
    forall t <- l.captured ensures multiset(r.deleted)[t] == if Held(r, t) then 0 else 1 {
      if Held(l, t) && !Held(r, t) {
        assert forall q <- l.holds :: q != p ==> q in r.holds && r.holds[q] == l.holds[q];
      }
      if l.holds[p] == Some(t) && Held(r, t) {
        assert Held(l, t);
      }
    }
  }

  lemma CaptureBalanced<P, T>(l: Ledger<P, T>, p: P, raw: Option<T>)
    requires Balanced(l) && p !in l.holds && (raw.Some? ==> raw.value !in l.captured)
    ensures Balanced(Capture(l, p, raw))
  {
    var c := Capture(l, p, raw);
    forall t <- c.captured ensures multiset(c.deleted)[t] == if Held(c, t) then 0 else 1 {
      assert c.holds[p] == raw;
      if raw == Some(t) {
        assert t !in l.deleted;
      } else {
        HeldAfterUpdate(l.holds, p, raw, t);
      }
    }
  }

  lemma HeldAfterUpdate<P, T>(h: map<P, Option<T>>, p: P, v: Option<T>, t: T)
    requires p !in h && v != Some(t)
    ensures Some(t) in h[p := v].Values <==> Some(t) in h.Values
  {
    if Some(t) in h.Values {
      var q :| q in h && h[q] == Some(t);
      assert h[p := v][q] == Some(t);
    }
  }

  lemma ShareBalanced<P, T>(l: Ledger<P, T>, p: P, from: P)
    requires Balanced(l) && p !in l.holds && from in l.holds
    ensures Balanced(Share(l, p, from))
  {
    var s := Share(l, p, from);
    forall t <- s.captured ensures multiset(s.deleted)[t] == if Held(s, t) then 0 else 1 {
      if l.holds[from] == Some(t) {
        assert s.holds[from] == Some(t);
      } else {
        HeldAfterUpdate(l.holds, p, l.holds[from], t);
      }
    }
  }
}
