/** The parent links that are walked whenever an endpoint is enabled, disabled or destroyed. A walk
    follows `up` from id to id and stops at the invalid id; an id without endpoint leads there. */
module Parents {
  import opened Basics

  /** The walk from `id` reaches the invalid id within `n` steps. */
  ghost predicate Stops(up: nat -> nat, id: nat, n: nat)
    decreases n
  {
    id == INVALID_ENDPOINT || (n > 0 && Stops(up, up(id), n - 1))
  }

  ghost predicate Terminates(up: nat -> nat, id: nat) {
    exists n :: Stops(up, id, n)
  }

  /** Every walk ends. */
  ghost predicate Acyclic(up: nat -> nat) {
    forall id :: Terminates(up, id)
  }

  /** The ids a walk from `id` visits. */
  ghost function Trail(up: nat -> nat, id: nat, n: nat): (s: seq<nat>)
    requires Stops(up, id, n)
    decreases n
  {
    if id == INVALID_ENDPOINT then [] else [id] + Trail(up, up(id), n - 1)
  }

  /** A trail starts at `id`, each entry is the parent of the one before, and the last has no parent. */
  lemma {:induction false} TrailLinks(up: nat -> nat, id: nat, n: nat)
    requires Stops(up, id, n)
    ensures var s := Trail(up, id, n);
            && INVALID_ENDPOINT !in s && |s| <= n
            && (id != INVALID_ENDPOINT ==> s != [] && s[0] == id)
            && (forall i, j | 0 <= i < j < |s| && j == i + 1 :: s[j] == up(s[i]))
            && (s != [] ==> up(s[|s| - 1]) == INVALID_ENDPOINT)
    decreases n
  {
    if id != INVALID_ENDPOINT { TrailLinks(up, up(id), n - 1); }
  }

  /** The walk from `id` passes `x`. */
  ghost predicate Passes(up: nat -> nat, id: nat, x: nat) {
    exists n :: Stops(up, id, n) && x in Trail(up, id, n)
  }

  lemma {:induction false} TrailUnique(up: nat -> nat, id: nat, n: nat, m: nat)
    requires Stops(up, id, n) && Stops(up, id, m)
    ensures Trail(up, id, n) == Trail(up, id, m)
    decreases n
  {
    if id != INVALID_ENDPOINT { TrailUnique(up, up(id), n - 1, m - 1); }
  }

  lemma {:induction false} SameLinks(up: nat -> nat, up': nat -> nat, id: nat, n: nat)
    requires (forall i :: up'(i) == up(i)) && Stops(up, id, n)
    ensures Stops(up', id, n) && Trail(up', id, n) == Trail(up, id, n)
    decreases n
  {
    if id != INVALID_ENDPOINT { SameLinks(up, up', up(id), n - 1); }
  }

  // ----- changing one link -----

  ghost predicate Changed(up: nat -> nat, up': nat -> nat, x: nat, y: nat) {
    up'(x) == y && forall i | i != x :: up'(i) == up(i)
  }

  /** A walk that does not pass the changed link is the same walk as before. */
  lemma {:induction false} SameTrail(up: nat -> nat, up': nat -> nat, x: nat, y: nat, id: nat, n: nat)
    requires Changed(up, up', x, y) && Stops(up, id, n) && x !in Trail(up, id, n)
    ensures Stops(up', id, n) && Trail(up', id, n) == Trail(up, id, n)
    decreases n
  {
    if id != INVALID_ENDPOINT {
      assert Trail(up, id, n)[1..] == Trail(up, up(id), n - 1);
      SameTrail(up, up', x, y, up(id), n - 1);
    }
  }

  /** A walk either avoids the changed link, or reaches it and goes on from `y`. */
  lemma {:induction false} TrailThrough(up: nat -> nat, up': nat -> nat, x: nat, y: nat, id: nat, n: nat, m: nat)
    requires Changed(up, up', x, y) && Stops(up, id, n) && Stops(up', y, m) && x != INVALID_ENDPOINT
    ensures Stops(up', id, n + m + 1)
    decreases n
  {
    if id == x {
      MoreSteps(up', y, m, n + m);
    } else if id != INVALID_ENDPOINT {
      TrailThrough(up, up', x, y, up(id), n - 1, m);
    }
  }

  lemma {:induction false} MoreSteps(up: nat -> nat, id: nat, n: nat, m: nat)
    requires Stops(up, id, n) && n <= m
    ensures Stops(up, id, m)
    decreases n
  {
    if id != INVALID_ENDPOINT { MoreSteps(up, up(id), n - 1, m - 1); }
  }

  /** If the old walk from `id` passes `x`, a new walk from `id` that ends needs more steps than the
      new walk from `y`, which starts after it. */
  lemma {:induction false} ReachesX(up: nat -> nat, up': nat -> nat, x: nat, y: nat, id: nat, n: nat, m: nat)
    requires Changed(up, up', x, y) && Stops(up, id, n) && x in Trail(up, id, n) && Stops(up', id, m)
    ensures m > 0 && Stops(up', y, m - 1)
    decreases n
  {
    if id != x {
      assert Trail(up, id, n)[1..] == Trail(up, up(id), n - 1);
      ReachesX(up, up', x, y, up(id), n - 1, m - 1);
      MoreSteps(up', y, m - 2, m - 1);
    }
  }

  lemma {:induction false} NeverStops(up: nat -> nat, up': nat -> nat, x: nat, y: nat, n: nat, m: nat)
    requires Changed(up, up', x, y) && Stops(up, y, n) && x in Trail(up, y, n)
    ensures !Stops(up', y, m)
    decreases m
  {
    if Stops(up', y, m) {
      ReachesX(up, up', x, y, y, n, m);
      NeverStops(up, up', x, y, n, m - 1);
    }
  }

  lemma LoopsForever(up: nat -> nat, up': nat -> nat, x: nat, y: nat)
    requires Changed(up, up', x, y) && x != INVALID_ENDPOINT && Passes(up, y, x)
    ensures !Terminates(up', x)
  {
    var n :| Stops(up, y, n) && x in Trail(up, y, n);
    forall m: nat ensures !Stops(up', x, m) {
      if m > 0 { NeverStops(up, up', x, y, n, m - 1); }
    }
  }

  lemma StaysAcyclic(up: nat -> nat, up': nat -> nat, x: nat, y: nat)
    requires Acyclic(up) && Changed(up, up', x, y) && x != INVALID_ENDPOINT && !Passes(up, y, x)
    ensures Acyclic(up')
  {
    assert Terminates(up, y);
    var n :| Stops(up, y, n);
    SameTrail(up, up', x, y, y, n);
    forall id: nat ensures Terminates(up', id) {
      assert Terminates(up, id);
      var m :| Stops(up, id, m);
      TrailThrough(up, up', x, y, id, m, n);
    }
  }

  /** The invalid id leads nowhere. */
  lemma DeadEnd(up: nat -> nat, x: nat)
    ensures !Passes(up, INVALID_ENDPOINT, x)
  {
  }

  /** If no link leads to `c` or beyond, no walk from below passes it. */
  lemma {:induction false} TrailBelow(up: nat -> nat, id: nat, n: nat, c: nat)
    requires Stops(up, id, n) && (id == INVALID_ENDPOINT || id < c)
    requires forall i :: up(i) == INVALID_ENDPOINT || up(i) < c
    ensures forall x | x in Trail(up, id, n) :: x < c
    decreases n
  {
    if id != INVALID_ENDPOINT { TrailBelow(up, up(id), n - 1, c); }
  }

  /** Pointing `x` at `y` keeps every walk finite exactly when the walk from `y` does not pass `x`. */
  lemma AcyclicIff(up: nat -> nat, up': nat -> nat, x: nat, y: nat)
    requires Acyclic(up) && Changed(up, up', x, y) && x != INVALID_ENDPOINT
    ensures Acyclic(up') <==> !Passes(up, y, x)
  {
    if Passes(up, y, x) { LoopsForever(up, up', x, y); } else { StaysAcyclic(up, up', x, y); }
  }

  lemma {:induction false} SelfLoopNeverStops(up: nat -> nat, x: nat, n: nat)
    requires up(x) == x && x != INVALID_ENDPOINT
    ensures !Stops(up, x, n)
    decreases n
  {
    if n > 0 { SelfLoopNeverStops(up, x, n - 1); }
  }

  /** An endpoint that is its own parent is never left. */
  lemma SelfLoop(up: nat -> nat, x: nat)
    requires up(x) == x && x != INVALID_ENDPOINT
    ensures !Terminates(up, x) && !Acyclic(up)
  {
    forall n: nat ensures !Stops(up, x, n) { SelfLoopNeverStops(up, x, n); }
  }

  // ----- parents below their children -----

  /** Each link is invalid or leads to a smaller id, as the bridge attaches them. */
  ghost predicate Descending(up: nat -> nat) {
    forall i :: up(i) == INVALID_ENDPOINT || up(i) < i
  }

  ghost predicate Decreasing(s: seq<nat>) {
    forall i, j | 0 <= i < j < |s| :: s[j] < s[i]
  }

  /** Then a walk visits strictly smaller and smaller ids, so each only once. */
  lemma {:induction false} DescendingTrail(up: nat -> nat, id: nat)
    requires Descending(up)
    ensures Stops(up, id, id + 1)
    ensures Decreasing(Trail(up, id, id + 1))
  {
    if id == INVALID_ENDPOINT {
      assert Trail(up, id, id + 1) == [];
    } else if up(id) == INVALID_ENDPOINT {
      assert Stops(up, up(id), id);
      assert Trail(up, id, id + 1) == [id];
    } else {
      DescendingTrail(up, up(id));
      MoreSteps(up, up(id), up(id) + 1, id);
      TrailUnique(up, up(id), up(id) + 1, id);
      var t := Trail(up, up(id), up(id) + 1);
      assert Trail(up, id, id + 1) == [id] + t;
      BelowHead(up, up(id), up(id) + 1);
      assert forall j | 0 <= j < |t| :: t[j] in t;
    }
  }

  lemma {:induction false} BelowHead(up: nat -> nat, id: nat, n: nat)
    requires Descending(up) && Stops(up, id, n) && id != INVALID_ENDPOINT
    ensures forall x | x in Trail(up, id, n) :: x <= id
    decreases n
  {
    if up(id) != INVALID_ENDPOINT { BelowHead(up, up(id), n - 1); }
  }

  lemma DescendingAcyclic(up: nat -> nat)
    requires Descending(up)
    ensures Acyclic(up)
  {
    forall id ensures Terminates(up, id) { DescendingTrail(up, id); }
  }
}
