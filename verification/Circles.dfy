/**
 * Circular linked lists as maps: `next` gives each member's link, `circles`
 * the set of members each member can reach. Splicing a member in or out of
 * such a structure is proved here once, away from the heap.
 */
module Circles {
  function Succ(i: nat, n: nat): nat {
    if i + 1 == n then 0 else i + 1
  }

  /** Number of links from position `j` forward to position `k` of a ring of `n`. */
  function Distance(j: nat, k: nat, n: nat): nat
    requires j < n && k < n
  {
    if j <= k then k - j else n - j + k
  }

  ghost function IndexOf<T>(s: seq<T>, x: T): (k: nat)
    requires x in s
    ensures k < |s| && s[k] == x
  {
    var k :| 0 <= k < |s| && s[k] == x; k
  }

  predicate AllDistinct<P(==)>(s: seq<P>) { forall i, j :: 0 <= i < j < |s| ==> s[i] != s[j] }

  /** `ring` lists the members of `circle` once each, every one linked to the one after it, the last to the first. */
  ghost predicate Ring<P>(older ring: seq<P>, circle: set<P>, next: map<P, P>) {
    && AllDistinct(ring)
    && (forall p <- ring :: p in circle)
    && (forall p <- circle :: p in ring)
    && circle <= next.Keys
    && (forall i, j :: 0 <= i < |ring| && j == Succ(i, |ring|) ==> next[ring[i]] == ring[j])
  }

  ghost predicate Closed<P>(circle: set<P>, next: map<P, P>) {
    exists ring :: Ring(ring, circle, next)
  }

  /** The circles partition the members. */
  ghost predicate Partition<P>(circles: map<P, set<P>>) {
    && (forall p <- circles :: p in circles[p])
    && (forall p <- circles, q <- circles[p] :: q in circles && circles[q] == circles[p])
  }

  ghost predicate Circular<P>(circles: map<P, set<P>>, next: map<P, P>) {
    && circles.Keys == next.Keys
    && Partition(circles)
    && (forall p <- circles :: Closed(circles[p], next))
  }

  /** `x` joins the circle of `at`. */
  ghost function Joined<P>(circles: map<P, set<P>>, at: P, x: P): (joined: map<P, set<P>>)
    requires at in circles
    ensures joined.Keys == circles.Keys + {x}
  {
    var circle := circles[at] + {x};
    map p <- circles.Keys + {x} :: if p in circle then circle else circles[p]
  }

  /** `x` leaves its circle. */
  ghost function Departed<P>(circles: map<P, set<P>>, x: P): (left: map<P, set<P>>)
    requires x in circles
    ensures left.Keys == circles.Keys - {x}
  {
    var circle := circles[x] - {x};
    map p <- circles.Keys - {x} :: if p in circle then circle else circles[p]
  }

  /** A circle none of whose links changed is still a circle. */
  lemma UntouchedCircle<P>(circle: set<P>, next: map<P, P>, next': map<P, P>)
    requires Closed(circle, next)
    requires forall p <- circle :: p in next && p in next' && next'[p] == next[p]
    ensures Closed(circle, next')
  {
    var ring :| Ring(ring, circle, next);
    assert Ring(ring, circle, next');
  }

  lemma LoneCircle<P>(x: P, next: map<P, P>)
    requires x in next && next[x] == x
    ensures Closed({x}, next)
  {
    assert Ring([x], {x}, next);
  }

  lemma OnlyMember<P>(circle: set<P>, next: map<P, P>, x: P)
    requires Closed(circle, next) && x in circle && circle <= next.Keys
    ensures next[x] in circle
    ensures next[x] == x <==> circle == {x}
  {
    var ring :| Ring(ring, circle, next);
    var k := IndexOf(ring, x);
    var y := ring[Succ(k, |ring|)];
    assert next[ring[k]] == y && y in ring;
    if circle == {x} {
      assert y in circle;
    }
    if y == x {
      assert |ring| == 1;
      assert ring == [x];
    }
  }

  /** Each element of the sequence links to the one after it, the last to the first. */
  ghost predicate Linked<P>(ring: seq<P>, next: map<P, P>) {
    forall i, j :: 0 <= i < |ring| && j == Succ(i, |ring|) ==> ring[i] in next && next[ring[i]] == ring[j]
  }

  lemma IsClosed<P>(ring: seq<P>, circle: set<P>, next: map<P, P>)
    requires AllDistinct(ring) && Linked(ring, next) && forall p :: p in ring <==> p in circle
    ensures Closed(circle, next)
  {
    forall p | p in circle ensures p in next {
      var k := IndexOf(ring, p);
      var after := ring[Succ(k, |ring|)];
      assert ring[k] in next && next[ring[k]] == after;
    }
    assert Ring(ring, circle, next);
  }

  lemma InsertedRing<P>(circle: set<P>, next: map<P, P>, at: P, x: P, pred: P)
    requires Closed(circle, next) && x !in circle && pred in circle && circle <= next.Keys && next[pred] == at
    ensures Closed(circle + {x}, next[pred := x][x := at])
  {
    var ring :| Ring(ring, circle, next);
    var j := IndexOf(ring, pred);
    IsClosed(ring[..j + 1] + [x] + ring[j + 1..], circle + {x}, next[pred := x][x := at]);
  }

  lemma ShortenedLinks<P>(ring: seq<P>, circle: set<P>, next: map<P, P>, k: nat, j: nat)
    requires Ring(ring, circle, next) && k < |ring| && j < |ring| && next[ring[j]] == ring[k] != next[ring[k]]
    ensures Linked(ring[..k] + ring[k + 1..], next[ring[j] := next[ring[k]]] - {ring[k]})
  {
    var next', ring' := next[ring[j] := next[ring[k]]] - {ring[k]}, ring[..k] + ring[k + 1..];
    forall i, i' | 0 <= i < |ring'| && i' == Succ(i, |ring'|) ensures ring'[i] in next' && next'[ring'[i]] == ring'[i'] {
      SkippedLink(ring, circle, next, k, j, i);
    }
  }

  lemma ShortenedRing<P>(circle: set<P>, next: map<P, P>, x: P, pred: P)
    requires Closed(circle, next) && x in circle && pred in circle && circle <= next.Keys
    requires next[pred] == x && next[x] != x
    ensures Closed(circle - {x}, next[pred := next[x]] - {x})
  {
    var ring :| Ring(ring, circle, next);
    var k := IndexOf(ring, x);
    ShortenedLinks(ring, circle, next, k, IndexOf(ring, pred));
    RemainingMembers(ring, k);
    RemainingDistinct(ring, k);
    IsClosed(ring[..k] + ring[k + 1..], circle - {x}, next[pred := next[x]] - {x});
  }

  lemma RemainingDistinct<P>(ring: seq<P>, k: nat)
    requires k < |ring| && AllDistinct(ring)
    ensures AllDistinct(ring[..k] + ring[k + 1..])
  {
    var ring' := ring[..k] + ring[k + 1..];
    forall i | 0 <= i < |ring'| ensures ring'[i] == if i < k then ring[i] else ring[i + 1] {}
  }

  lemma RemainingMembers<P>(ring: seq<P>, k: nat)
    requires k < |ring| && AllDistinct(ring)
    ensures forall p :: p in ring[..k] + ring[k + 1..] <==> p in ring && p != ring[k]
  {
    var ring' := ring[..k] + ring[k + 1..];
    forall p | p in ring && p != ring[k] ensures p in ring' {
      var l := IndexOf(ring, p);
      assert p == ring'[if l < k then l else l - 1];
    }
    forall p | p in ring' ensures p in ring && p != ring[k] {
      var l := IndexOf(ring', p);
      assert p == ring[if l < k then l else l + 1];
    }
  }

  lemma SkippedLink<P>(ring: seq<P>, circle: set<P>, next: map<P, P>, k: nat, j: nat, i: nat)
    requires Ring(ring, circle, next) && k < |ring| && j < |ring| && next[ring[j]] == ring[k] != next[ring[k]]
    requires i < |ring| - 1
    ensures var ring' := ring[..k] + ring[k + 1..];
            && ring'[i] != ring[k]
            && ring'[Succ(i, |ring'|)] == if ring'[i] == ring[j] then next[ring[k]] else next[ring'[i]]
  {
    var l := if i < k then i else i + 1;
    assert next[ring[j]] == ring[Succ(j, |ring|)];
    assert next[ring[k]] == ring[Succ(k, |ring|)];
    assert next[ring[l]] == ring[Succ(l, |ring|)];
  }

  /** Relinking one circle, and adding or removing one member, leaves the other circles closed. */
  lemma OthersStayClosed<P>(circles: map<P, set<P>>, next: map<P, P>, own: set<P>, next': map<P, P>)
    requires Circular(circles, next)
    requires forall p <- next :: p !in own ==> p in next' && next'[p] == next[p]
    requires forall p <- circles :: circles[p] == own || circles[p] !! own
    ensures forall p <- circles :: p !in own ==> Closed(circles[p], next')
  {
    forall p <- circles | p !in own ensures Closed(circles[p], next') {
      UntouchedCircle(circles[p], next, next');
    }
  }

  lemma SameOrDisjoint<P>(circles: map<P, set<P>>, p: P, q: P)
    requires Partition(circles) && p in circles && q in circles
    ensures circles[p] == circles[q] || circles[p] !! circles[q]
  {
    forall r | r in circles[p] && r in circles[q] ensures circles[p] == circles[q] {
      assert circles[r] == circles[p] == circles[q];
    }
  }

  lemma CirclesDisjoint<P>(circles: map<P, set<P>>, q: P)
    requires Partition(circles) && q in circles
    ensures forall p <- circles :: circles[p] == circles[q] || circles[p] !! circles[q]
  {
    forall p <- circles ensures circles[p] == circles[q] || circles[p] !! circles[q] {
      SameOrDisjoint(circles, p, q);
    }
  }

  lemma NewIsCircular<P>(circles: map<P, set<P>>, next: map<P, P>, x: P)
    requires Circular(circles, next) && x !in circles
    ensures Circular(circles[x := {x}], next[x := x])
  {
    LoneCircle(x, next[x := x]);
    forall p <- circles ensures x !in circles[p] {}
    OthersStayClosed(circles, next, {x}, next[x := x]);
  }

  lemma JoinedPartition<P>(circles: map<P, set<P>>, at: P, x: P)
    requires Partition(circles) && at in circles && x !in circles
    ensures Partition(Joined(circles, at, x))
  {
    CirclesDisjoint(circles, at);
  }

  lemma JoinedIsCircular<P>(circles: map<P, set<P>>, next: map<P, P>, at: P, x: P, pred: P)
    requires Circular(circles, next) && at in circles && x !in circles
    requires pred in circles[at] && next[pred] == at
    ensures Circular(Joined(circles, at, x), next[pred := x][x := at])
  {
    var next' := next[pred := x][x := at];
    InsertedRing(circles[at], next, at, x, pred);
    JoinedPartition(circles, at, x);
    CirclesDisjoint(circles, at);
    OthersStayClosed(circles, next, circles[at], next');
  }

  lemma DepartedPartition<P>(circles: map<P, set<P>>, x: P)
    requires Partition(circles) && x in circles
    ensures Partition(Departed(circles, x))
  {
    CirclesDisjoint(circles, x);
  }

  ghost function Unlinked<P>(next: map<P, P>, x: P, pred: P): map<P, P>
    requires x in next
  {
    if pred == x then next - {x} else next[pred := next[x]] - {x}
  }

  lemma DepartedCircleCloses<P>(circles: map<P, set<P>>, next: map<P, P>, x: P, pred: P)
    requires Circular(circles, next) && x in circles
    requires pred in circles[x] && next[pred] == x
    ensures if pred == x then circles[x] == {x} else Closed(circles[x] - {x}, Unlinked(next, x, pred))
  {
    OnlyMember(circles[x], next, x);
    if pred != x {
      OnlyMember(circles[x], next, pred);
      ShortenedRing(circles[x], next, x, pred);
    }
  }

  lemma OthersKeepLinks<P>(circles: map<P, set<P>>, next: map<P, P>, x: P, pred: P)
    requires Circular(circles, next) && x in circles && pred in circles[x]
    ensures forall p <- circles :: p !in circles[x] ==> Closed(circles[p], Unlinked(next, x, pred))
  {
    CirclesDisjoint(circles, x);
    OthersStayClosed(circles, next, circles[x], Unlinked(next, x, pred));
  }

  lemma DepartedIsCircular<P>(circles: map<P, set<P>>, next: map<P, P>, x: P, pred: P)
    requires Circular(circles, next) && x in circles
    requires pred in circles[x] && next[pred] == x
    ensures Circular(Departed(circles, x), if pred == x then next - {x} else next[pred := next[x]] - {x})
  {
    var circles', next' := Departed(circles, x), Unlinked(next, x, pred);
    DepartedCircleCloses(circles, next, x, pred);
    OthersKeepLinks(circles, next, x, pred);
    DepartedPartition(circles, x);
    forall p <- circles' ensures Closed(circles'[p], next') {
      assert circles'[p] == if p in circles[x] then circles[x] - {x} else circles[p];
    }
  }

  /** Links are injective within a circle, so the predecessor is unique. */
  lemma UniquePredecessor<P>(circle: set<P>, next: map<P, P>, p: P, q: P)
    requires Closed(circle, next) && p in circle && q in circle && circle <= next.Keys && next[p] == next[q]
    ensures p == q
  {
    var ring :| Ring(ring, circle, next);
    var i, j := IndexOf(ring, p), IndexOf(ring, q);
    assert next[ring[i]] == ring[Succ(i, |ring|)];
    assert next[ring[j]] == ring[Succ(j, |ring|)];
  }

  lemma HasPredecessor<P>(circle: set<P>, next: map<P, P>, at: P)
    requires Closed(circle, next) && at in circle && circle <= next.Keys
    ensures exists p :: p in circle && next[p] == at
  {
    var ring :| Ring(ring, circle, next);
    var k := IndexOf(ring, at);
    var j := if k == 0 then |ring| - 1 else k - 1;
    assert next[ring[j]] == ring[Succ(j, |ring|)];
  }
}
