/**
 * The links and the books of all linked_ptrs together, as a function of the
 * history of captures, copies and departures. Every property of linked_ptr is
 * a property of every legal history.
 */
module SharedCircles {
  import opened Wrappers
  import opened Circles
  import opened Ownership

  /** What happens to one pointer: it captures a raw pointer, copies another linked_ptr, or departs. */
  datatype Event<P, T> = Captures(p: P, raw: Option<T>) | Copies(p: P, from: P) | Departs(p: P)

  datatype History<P, T> = Start | Then(before: History<P, T>, event: Event<P, T>)

  /** The links of the live pointers, and who holds what. */
  datatype World<P(==), T(==)> = World(next: map<P, P>, book: Ledger<P, T>)

  ghost predicate Possible<P, T>(w: World<P, T>, e: Event<P, T>) {
    match e
    case Captures(p, raw) => p !in w.next && (raw.Some? ==> raw.value !in w.book.captured)
    case Copies(p, from) => p !in w.next && from in w.next
    case Departs(p) => p in w.next
  }

  /** The pointer linked to `at`; `at` itself where there is none. */
  ghost function Predecessor<P>(next: map<P, P>, at: P): P {
    if exists p :: p in next && next[p] == at then var p :| p in next && next[p] == at; p else at
  }

  ghost function After<P, T>(w: World<P, T>, e: Event<P, T>): World<P, T> {
    match e
    case Captures(p, raw) => World(w.next[p := p], Capture(w.book, p, raw))
    case Copies(p, from) =>
      if from !in w.book.holds then w
      else World(if w.book.holds[from].None? then w.next[p := p]
                 else w.next[Predecessor(w.next, from) := p][p := from],
                 Share(w.book, p, from))
    case Departs(p) =>
      if p !in w.book.holds || p !in w.next then w
      else World(w.next[Predecessor(w.next, p) := w.next[p]] - {p}, Release(w.book, p))
  }

  ghost function Now<P, T>(h: History<P, T>): World<P, T> {
    match h
    case Start => World(map[], Ledger(map[], {}, []))
    case Then(before, e) => After(Now(before), e)
  }

  ghost predicate Lawful<P, T>(h: History<P, T>) {
    h.Start? || (Lawful(h.before) && Possible(Now(h.before), h.event))
  }

  /** The circle of each live pointer. */
  ghost function CirclesOf<P, T>(h: History<P, T>): map<P, set<P>> {
    match h
    case Start => map[]
    case Then(before, Captures(p, _)) => CirclesOf(before)[p := {p}]
    case Then(before, Copies(p, from)) => CopiedCircles(CirclesOf(before), Now(before).book.holds, p, from)
    case Then(before, Departs(p)) =>
      if p in CirclesOf(before) then Departed(CirclesOf(before), p) else CirclesOf(before)
  }

  ghost function CopiedCircles<P, T>(circles: map<P, set<P>>, holds: map<P, Option<T>>, p: P, from: P): map<P, set<P>> {
    if from in circles && from in holds && holds[from].Some? then Joined(circles, from, p) else circles[p := {p}]
  }

  /** Two non-null pointers share a circle exactly when they share an object; null ones are alone. */
  ghost predicate CirclesAreObjects<P, T>(circles: map<P, set<P>>, holds: map<P, Option<T>>) {
    && circles.Keys == holds.Keys
    && (forall p <- circles, q <- circles :: q in circles[p] ==> holds[p] == holds[q])
    && (forall p <- circles, q <- circles :: holds[p].Some? && holds[p] == holds[q] ==> q in circles[p])
    && (forall p <- circles :: holds[p].None? ==> circles[p] == {p})
  }

  ghost predicate Sound<P, T>(circles: map<P, set<P>>, w: World<P, T>) {
    Circular(circles, w.next) && CirclesAreObjects(circles, w.book.holds) && Balanced(w.book)
  }

  lemma CapturedAlone<P, T>(circles: map<P, set<P>>, book: Ledger<P, T>, x: P, raw: Option<T>)
    requires Partition(circles) && CirclesAreObjects(circles, book.holds) && Balanced(book) && x !in circles
    requires raw.Some? ==> raw.value !in book.captured
    ensures CirclesAreObjects(circles[x := {x}], Capture(book, x, raw).holds)
  {
    assert forall p <- circles :: x !in circles[p];
  }

  lemma SharerJoins<P, T>(circles: map<P, set<P>>, holds: map<P, Option<T>>, x: P, at: P)
    requires Partition(circles) && CirclesAreObjects(circles, holds) && x !in circles && at in circles && holds[at].Some?
    ensures CirclesAreObjects(Joined(circles, at, x), holds[x := holds[at]])
  {
    var circles', holds' := Joined(circles, at, x), holds[x := holds[at]];
    assert forall p <- circles :: x !in circles[p];
    forall p <- circles, q <- circles ensures q in circles'[p] <==> q in circles[p] {}
    forall q <- circles ensures q in circles'[x] <==> holds[q] == holds[at] {
      assert q in circles[at] <==> holds[q] == holds[at];
    }
  }

  lemma SharersJoin<P, T>(circles: map<P, set<P>>, holds: map<P, Option<T>>, x: P, at: P)
    requires Partition(circles) && CirclesAreObjects(circles, holds) && x !in circles && at in circles
    ensures CirclesAreObjects(CopiedCircles(circles, holds, x, at), holds[x := holds[at]])
  {
    if holds[at].Some? {
      SharerJoins(circles, holds, x, at);
    }
  }

  /** Being alone on a circle means being null or the object's only holder. */
  lemma LeaverLeaves<P, T>(circles: map<P, set<P>>, book: Ledger<P, T>, x: P)
    requires Partition(circles) && CirclesAreObjects(circles, book.holds) && x in circles
    ensures CirclesAreObjects(Departed(circles, x), Release(book, x).holds)
    ensures Release(book, x).deleted == book.deleted +
              if circles[x] == {x} && book.holds[x].Some? then [book.holds[x].value] else []
  {
    CirclesDisjoint(circles, x);
    var rest := book.holds - {x};
    if circles[x] != {x} {
      var q :| q in circles[x] && q != x;
      assert rest[q] == book.holds[x];
    }
  }

  /** Links are injective, so whoever links to `at` is its predecessor, on the same circle. */
  lemma PredecessorIs<P>(circles: map<P, set<P>>, next: map<P, P>, at: P)
    requires Circular(circles, next) && at in circles
    ensures var p := Predecessor(next, at);
            && p in next && p in circles[at] && next[p] == at
            && (next[at] == at <==> p == at) && (next[at] == at <==> circles[at] == {at})
            && forall q <- next :: next[q] == at ==> q == p
  {
    HasPredecessor(circles[at], next, at);
    OnlyMember(circles[at], next, at);
    var p := Predecessor(next, at);
    forall q <- next | next[q] == at ensures q in circles[at] && q == p {
      OnlyMember(circles[q], next, q);
      OnlyMember(circles[p], next, p);
      UniquePredecessor(circles[at], next, p, q);
    }
  }

  lemma CopyIsSound<P, T>(circles: map<P, set<P>>, w: World<P, T>, x: P, from: P)
    requires Sound(circles, w) && Possible(w, Copies(x, from))
    ensures Sound(CopiedCircles(circles, w.book.holds, x, from), After(w, Copies(x, from)))
  {
    SharersJoin(circles, w.book.holds, x, from);
    ShareBalanced(w.book, x, from);
    if w.book.holds[from].None? {
      NewIsCircular(circles, w.next, x);
    } else {
      PredecessorIs(circles, w.next, from);
      JoinedIsCircular(circles, w.next, from, x, Predecessor(w.next, from));
    }
  }

  lemma AfterDeparture<P, T>(circles: map<P, set<P>>, w: World<P, T>, x: P)
    requires Circular(circles, w.next) && x in circles && x in w.book.holds
    ensures var p := Predecessor(w.next, x);
            p in w.next && After(w, Departs(x)) ==
              World(if p == x then w.next - {x} else w.next[p := w.next[x]] - {x}, Release(w.book, x))
  {
    PredecessorIs(circles, w.next, x);
    assert w.next[x := w.next[x]] == w.next;
  }

  lemma DepartIsSound<P, T>(circles: map<P, set<P>>, w: World<P, T>, x: P)
    requires Sound(circles, w) && Possible(w, Departs(x))
    ensures Sound(Departed(circles, x), After(w, Departs(x)))
  {
    LeaverLeaves(circles, w.book, x);
    ReleaseBalanced(w.book, x);
    PredecessorIs(circles, w.next, x);
    AfterDeparture(circles, w, x);
    DepartedIsCircular(circles, w.next, x, Predecessor(w.next, x));
  }

  /**
   * Over every lawful history: the links form disjoint circles, two non-null
   * pointers share a circle exactly when they share an object, and the books
   * balance.
   */
  lemma {:induction false} AlwaysSound<P, T>(h: History<P, T>)
    requires Lawful(h)
    ensures Sound(CirclesOf(h), Now(h))
  {
    match h
    case Start =>
    case Then(before, Captures(p, raw)) =>
      AlwaysSound(before);
      NewIsCircular(CirclesOf(before), Now(before).next, p);
      CapturedAlone(CirclesOf(before), Now(before).book, p, raw);
      CaptureBalanced(Now(before).book, p, raw);
    case Then(before, Copies(p, from)) =>
      AlwaysSound(before);
      CopyIsSound(CirclesOf(before), Now(before), p, from);
    case Then(before, Departs(p)) =>
      AlwaysSound(before);
      DepartIsSound(CirclesOf(before), Now(before), p);
  }

  /**
   * Over every lawful history: an object that was captured has been deleted
   * exactly once if no live pointer holds it, and never while one does.
   */
  lemma DeletedExactlyOnce<P, T>(h: History<P, T>, t: T)
    requires Lawful(h) && t in Now(h).book.captured
    ensures multiset(Now(h).book.deleted)[t] ==
            if exists p <- Now(h).book.holds :: Now(h).book.holds[p] == Some(t) then 0 else 1
  {
    AlwaysSound(h);
    var book := Now(h).book;
    if Held(book, t) {
      assert exists p <- book.holds :: book.holds[p] == Some(t);
    }
  }

  /** What a lawful history says about the neighbourhood of a live pointer. */
  lemma Neighbours<P, T>(h: History<P, T>, x: P)
    requires Lawful(h) && x in Now(h).next
    ensures var next, p := Now(h).next, Predecessor(Now(h).next, x);
            && p in next && next[p] == x && next[x] in next
            && (next[x] == x <==> p == x)
            && forall q <- next :: next[q] == x ==> q == p
  {
    AlwaysSound(h);
    PredecessorIs(CirclesOf(h), Now(h).next, x);
    OnlyMember(CirclesOf(h)[x], Now(h).next, x);
  }

  /** Departing deletes the object exactly when the pointer is linked to itself and not null. */
  lemma DepartureDeletes<P, T>(h: History<P, T>, x: P)
    requires Lawful(h) && x in Now(h).next && x in Now(h).book.holds
    ensures var w := Now(h);
            Release(w.book, x).deleted == w.book.deleted +
              if w.next[x] == x && w.book.holds[x].Some? then [w.book.holds[x].value] else []
  {
    AlwaysSound(h);
    LeaverLeaves(CirclesOf(h), Now(h).book, x);
    OnlyMember(CirclesOf(h)[x], Now(h).next, x);
  }

  /** The circle of a live pointer, in link order. */
  ghost function RingOf<P, T>(h: History<P, T>, x: P): (ring: seq<P>)
    requires Lawful(h) && x in Now(h).next
    ensures x in CirclesOf(h) && x in ring && Now(h).next[x] in ring && Ring(ring, CirclesOf(h)[x], Now(h).next)
  {
    AlwaysSound(h);
    OnlyMember(CirclesOf(h)[x], Now(h).next, x);
    var ring :| Ring(ring, CirclesOf(h)[x], Now(h).next);
    ring
  }

  lemma SoundBooks<P, T>(h: History<P, T>)
    requires Lawful(h)
    ensures Balanced(Now(h).book) && Now(h).next.Keys == Now(h).book.holds.Keys
  {
    AlwaysSound(h);
  }

  /**
   * The moment of deletion: an event deletes at most one object, and it
   * deletes `t` exactly when `t` was held before the event and is not after it.
   */
  lemma DeletedWhenLastLeaves<P, T>(h: History<P, T>, e: Event<P, T>, t: T)
    requires Lawful(Then(h, e)) && t in Now(h).book.captured
    ensures var was, now := Now(h).book, Now(Then(h, e)).book;
            && was.deleted <= now.deleted
            && |now.deleted| <= |was.deleted| + 1
            && (t in now.deleted[|was.deleted|..] <==> Held(was, t) && !Held(now, t))
  {
    var was, now := Now(h).book, Now(Then(h, e)).book;
    SoundBooks(h);
    SoundBooks(Then(h, e));
    assert now.deleted == was.deleted + now.deleted[|was.deleted|..];
    assert multiset(now.deleted)[t] == multiset(was.deleted)[t] + multiset(now.deleted[|was.deleted|..])[t];
  }

  /** The pointer `n` links away from `p`. */
  ghost function Walk<P>(next: map<P, P>, p: P, n: nat): P {
    if n == 0 then p else
    var q := Walk(next, p, n - 1);
    if q in next then next[q] else q
  }

  lemma {:induction false} WalkOnRing<P>(ring: seq<P>, circle: set<P>, next: map<P, P>, k: nat, n: nat) returns (j: nat)
    requires Ring(ring, circle, next) && k < |ring|
    ensures j < |ring| && Walk(next, ring[k], n) == ring[j]
    ensures n < |ring| ==> j == if k + n < |ring| then k + n else k + n - |ring|
  {
    if n == 0 {
      j := k;
    } else {
      var i := WalkOnRing(ring, circle, next, k, n - 1);
      j := Succ(i, |ring|);
      assert ring[i] in ring && next[ring[i]] == ring[j];
    }
  }

  lemma RingIsOrbit<P>(ring: seq<P>, circle: set<P>, next: map<P, P>, p: P, q: P)
    requires Ring(ring, circle, next) && p in ring
    ensures q in circle <==> exists n: nat :: Walk(next, p, n) == q
  {
    var k := IndexOf(ring, p);
    if q in circle {
      var j := IndexOf(ring, q);
      var i := WalkOnRing(ring, circle, next, k, Distance(k, j, |ring|));
      assert Walk(next, p, Distance(k, j, |ring|)) == q;
    }
    forall n: nat | Walk(next, p, n) == q ensures q in circle {
      var j := WalkOnRing(ring, circle, next, k, n);
    }
  }

  lemma CircleIsObject<P, T>(h: History<P, T>, p: P, q: P)
    requires Lawful(h) && p in Now(h).next && q in Now(h).next
    ensures p in CirclesOf(h) && p in Now(h).book.holds && q in Now(h).book.holds
    ensures var holds := Now(h).book.holds;
            q in CirclesOf(h)[p] <==> p == q || (holds[p].Some? && holds[p] == holds[q])
  {
    AlwaysSound(h);
  }

  /**
   * Over every lawful history, following the links from one live pointer
   * reaches another exactly when both hold the same object.
   */
  lemma LinkedIffSameObject<P, T>(h: History<P, T>, p: P, q: P)
    requires Lawful(h) && p in Now(h).next && q in Now(h).next
    ensures var w := Now(h);
            && p in w.book.holds && q in w.book.holds
            && ((exists n: nat :: Walk(w.next, p, n) == q) <==>
                p == q || (w.book.holds[p].Some? && w.book.holds[p] == w.book.holds[q]))
  {
    CircleIsObject(h, p, q);
    RingIsOrbit(RingOf(h, p), CirclesOf(h)[p], Now(h).next, p, q);
  }
}
