/** The scoped lock of the Matter stack: any number of threads, any nesting, every interleaving. Lock
    tracking is on. */
module StackLock {
  import opened Basics

  /** Something on a thread's call stack that concerns the lock: a `ScopedChipStackLock` with its status,
      or a plain lock of the stack, as the Matter thread takes it around its event loop. */
  datatype Frame = FAILED | ALREADY_TAKEN | SUCCESS | Plain

  /** A constructor that has not returned: waiting forever, or with these ticks remaining. */
  datatype Attempt = Forever | Remaining(ticks: nat)

  datatype Thread = Thread(frames: seq<Frame>, attempt: Option<Attempt>)

  datatype World = World(owner: Option<nat>, threads: seq<Thread>)

  datatype Step =
    | Begin(attempt: Attempt) // the constructor is entered
    | Acquire                 // the lock is granted, or `TryLockChipStack` succeeds
    | Retry                   // `TryLockChipStack` fails and the thread sleeps
    | GiveUp                  // no ticks remain
    | PlainLock               // the stack is locked outside a scope
    | Leave                   // the innermost scope or plain lock ends

  predicate Holds(f: Frame) {
    f == SUCCESS || f == Plain
  }

  function Minus(ticks: nat, d: nat): nat {
    if ticks < d then 0 else ticks - d
  }

  function Put(w: World, i: nat, owner: Option<nat>, t: Thread): World
    requires i < |w.threads|
  {
    World(owner, w.threads[i := t])
  }

  /** One step of thread `i`; `d` is `DEFAULT_TICKS`. */
  ghost predicate Next(w: World, w': World, i: nat, step: Step, d: nat) {
    && i < |w.threads|
    && var t := w.threads[i];
    match step
    case Begin(a) =>
      && t.attempt == None
      && w' == if w.owner == Some(i) then Put(w, i, w.owner, t.(frames := t.frames + [ALREADY_TAKEN]))
               else Put(w, i, w.owner, t.(attempt := Some(a)))
    case Acquire =>
      && t.attempt.Some? && t.attempt != Some(Remaining(0)) && w.owner == None
      && w' == Put(w, i, Some(i), Thread(t.frames + [SUCCESS], None))
    case Retry =>
      && t.attempt.Some? && t.attempt.value.Remaining? && t.attempt.value.ticks > 0 && w.owner != None
      && w' == Put(w, i, w.owner, t.(attempt := Some(Remaining(Minus(t.attempt.value.ticks, d)))))
    case GiveUp =>
      && t.attempt == Some(Remaining(0))
      && w' == Put(w, i, w.owner, Thread(t.frames + [FAILED], None))
    case PlainLock =>
      && t.attempt == None && w.owner == None
      && w' == Put(w, i, Some(i), t.(frames := t.frames + [Plain]))
    case Leave =>
      && t.attempt == None && t.frames != []
      && var f := t.frames[|t.frames| - 1];
      w' == Put(w, i, if Holds(f) then None else w.owner, t.(frames := t.frames[..|t.frames| - 1]))
  }

  ghost predicate Init(w: World) {
    w.owner == None && forall i | 0 <= i < |w.threads| :: w.threads[i] == Thread([], None)
  }

  // ----- invariant -----

  /** Failed scopes, then the frame at `k` that holds the lock, then scopes that found it taken. */
  ghost predicate HolderAt(frames: seq<Frame>, k: nat) {
    && k < |frames| && Holds(frames[k])
    && (forall j | 0 <= j < k :: frames[j] == FAILED)
    && (forall j | k < j < |frames| :: frames[j] == ALREADY_TAKEN)
  }

  ghost predicate ThreadOk(t: Thread, owns: bool) {
    if owns then t.attempt == None && exists k :: HolderAt(t.frames, k)
    else forall j | 0 <= j < |t.frames| :: t.frames[j] == FAILED
  }

  ghost predicate Inv(w: World) {
    && (w.owner.Some? ==> w.owner.value < |w.threads|)
    && forall i | 0 <= i < |w.threads| :: ThreadOk(w.threads[i], w.owner == Some(i))
  }

  lemma PushHolder(frames: seq<Frame>, f: Frame)
    requires Holds(f) && forall j | 0 <= j < |frames| :: frames[j] == FAILED
    ensures HolderAt(frames + [f], |frames|)
  {
  }

  lemma PushTaken(frames: seq<Frame>, k: nat)
    requires HolderAt(frames, k)
    ensures HolderAt(frames + [ALREADY_TAKEN], k)
  {
  }

  lemma PopTop(frames: seq<Frame>, k: nat)
    requires HolderAt(frames, k)
    ensures Holds(frames[|frames| - 1]) <==> k == |frames| - 1
    ensures k < |frames| - 1 ==> HolderAt(frames[..|frames| - 1], k)
  {
  }

  lemma StepKeepsInv(w: World, w': World, i: nat, step: Step, d: nat)
    requires Inv(w) && Next(w, w', i, step, d)
    ensures Inv(w')
  {
    var t := w.threads[i];
    assert ThreadOk(t, w.owner == Some(i));
    if w.owner == Some(i) {
      var k :| HolderAt(t.frames, k);
      if step.Begin? { PushTaken(t.frames, k); }
      if step.Leave? { PopTop(t.frames, k); }
    } else if step.Acquire? {
      PushHolder(t.frames, SUCCESS);
    } else if step.PlainLock? {
      PushHolder(t.frames, Plain);
    }
    assert ThreadOk(w'.threads[i], w'.owner == Some(i));
    forall j | 0 <= j < |w'.threads| && j != i ensures ThreadOk(w'.threads[j], w'.owner == Some(j)) {
      assert ThreadOk(w.threads[j], w.owner == Some(j)) && w'.threads[j] == w.threads[j];
    }
  }

  /** An interleaving: `who[k]` takes step `steps[k]`. */
  ghost predicate Run(ws: seq<World>, who: seq<nat>, steps: seq<Step>, d: nat) {
    && |ws| == |who| + 1 == |steps| + 1 && Init(ws[0])
    && forall k | 0 <= k < |steps| :: NextAt(ws, who, steps, d, k)
  }

  ghost predicate NextAt(ws: seq<World>, who: seq<nat>, steps: seq<Step>, d: nat, k: nat)
    requires |ws| == |who| + 1 == |steps| + 1 && k < |steps|
  {
    Next(ws[k], ws[k + 1], who[k], steps[k], d)
  }

  lemma {:induction false} RunKeepsInv(ws: seq<World>, who: seq<nat>, steps: seq<Step>, d: nat, k: nat)
    requires Run(ws, who, steps, d) && k < |ws|
    ensures Inv(ws[k])
  {
    if k > 0 {
      RunKeepsInv(ws, who, steps, d, k - 1);
      assert NextAt(ws, who, steps, d, k - 1);
      StepKeepsInv(ws[k - 1], ws[k], who[k - 1], steps[k - 1], d);
    }
  }

  // ----- safety -----

  /** Frame `x` of thread `i`. */
  ghost function FrameAt(w: World, i: nat, x: nat): Frame {
    if i < |w.threads| && x < |w.threads[i].frames| then w.threads[i].frames[x] else FAILED
  }

  /** A scope that did not fail runs while its thread owns the lock. */
  lemma ScopeOwnsLock(ws: seq<World>, who: seq<nat>, steps: seq<Step>, d: nat, k: nat, i: nat, x: nat)
    requires Run(ws, who, steps, d) && k < |ws|
    ensures FrameAt(ws[k], i, x) != FAILED ==> ws[k].owner == Some(i)
  {
    RunKeepsInv(ws, who, steps, d, k);
    if i < |ws[k].threads| { assert ThreadOk(ws[k].threads[i], ws[k].owner == Some(i)); }
  }

  /** At most one live scope overall has status SUCCESS, and at most one frame holds the lock. */
  lemma OneHolder(ws: seq<World>, who: seq<nat>, steps: seq<Step>, d: nat, k: nat, i: nat, x: nat, j: nat, y: nat)
    requires Run(ws, who, steps, d) && k < |ws|
    requires Holds(FrameAt(ws[k], i, x)) && Holds(FrameAt(ws[k], j, y))
    ensures i == j && x == y
  {
    ScopeOwnsLock(ws, who, steps, d, k, i, x);
    ScopeOwnsLock(ws, who, steps, d, k, j, y);
    RunKeepsInv(ws, who, steps, d, k);
    assert ThreadOk(ws[k].threads[i], true);
    var h :| HolderAt(ws[k].threads[i].frames, h);
    assert x == h && y == h;
  }

  /** Every scope that found the lock taken lies above the frame that holds it, on the same thread. */
  lemma HolderBelowTaken(ws: seq<World>, who: seq<nat>, steps: seq<Step>, d: nat, k: nat, i: nat, x: nat)
    requires Run(ws, who, steps, d) && k < |ws| && FrameAt(ws[k], i, x) == ALREADY_TAKEN
    ensures exists h: nat :: h < x && Holds(FrameAt(ws[k], i, h))
  {
    ScopeOwnsLock(ws, who, steps, d, k, i, x);
    RunKeepsInv(ws, who, steps, d, k);
    assert ThreadOk(ws[k].threads[i], true);
    var h: nat :| HolderAt(ws[k].threads[i].frames, h);
    assert Holds(FrameAt(ws[k], i, h)) && h < x;
  }

  /** So unlocking never takes the lock away from a live scope: when a frame that holds it ends, its
      thread has no other scope left that relies on it. */
  lemma UnlockLeavesNoUser(ws: seq<World>, who: seq<nat>, steps: seq<Step>, d: nat, k: nat, x: nat)
    requires Run(ws, who, steps, d) && k < |steps|
    requires ws[k].owner.Some? && ws[k + 1].owner == None
    ensures ws[k].owner == Some(who[k]) && FrameAt(ws[k + 1], who[k], x) == FAILED
  {
    assert NextAt(ws, who, steps, d, k);
    RunKeepsInv(ws, who, steps, d, k);
    RunKeepsInv(ws, who, steps, d, k + 1);
    var i := who[k];
    assert ThreadOk(ws[k].threads[i], ws[k].owner == Some(i));
    assert ThreadOk(ws[k + 1].threads[i], false);
  }

  // ----- the retry loop -----

  /** What `chip_stack_lock` can return. */
  datatype Status = Failed | AlreadyTaken | Success

  /** `chip_stack_lock` for a finite wait: `free(k)` says whether the k-th try finds the lock free, and `d` is
      the retry interval. It may be called exactly when the loop ends. The last result counts the failed tries. */
  method LockWithin(mine: bool, ticksToWait: nat, d: nat, free: nat -> bool)
    returns (status: Status, delayed: nat, tries: nat)
    requires mine || d > 0 || ticksToWait == 0 || exists k: nat :: free(k)
    ensures status == AlreadyTaken <==> mine
    ensures mine ==> delayed == 0 && tries == 0
    ensures delayed <= ticksToWait && forall k | 0 <= k < tries :: !free(k)
    ensures status == Success ==> free(tries) && delayed == tries * d && delayed < ticksToWait
    ensures status == Failed ==> delayed == ticksToWait <= tries * d && (tries > 0 ==> (tries - 1) * d < ticksToWait)
  {
    tries, delayed := 0, 0;
    if mine {
      return AlreadyTaken, 0, 0;
    }
    var remaining: nat := ticksToWait;
    ghost var k0: nat :| d > 0 || ticksToWait == 0 || free(k0);
    while remaining > 0
      invariant delayed + remaining == ticksToWait && (d == 0 ==> tries <= k0 || remaining == 0)
      invariant forall k | 0 <= k < tries :: !free(k)
      invariant remaining > 0 ==> delayed == tries * d
      invariant remaining == 0 ==> ticksToWait <= tries * d && (tries > 0 ==> (tries - 1) * d < ticksToWait)
      decreases remaining, k0 - tries
    {
      if free(tries) {
        return Success, delayed, tries;
      }
      var ticks := if remaining < d then remaining else d;
      remaining := remaining - ticks;
      delayed := delayed + ticks;
      tries := tries + 1;
      assert tries * d == (tries - 1) * d + d;
    }
    return Failed, delayed, tries;
  }

  /** The ticks that remain after `k` failed tries. */
  function RemainingAfter(ticks: nat, d: nat, k: nat): nat {
    if k == 0 then ticks else Minus(RemainingAfter(ticks, d, k - 1), d)
  }

  lemma {:induction false} RemainingIs(ticks: nat, d: nat, k: nat)
    ensures RemainingAfter(ticks, d, k) == if k * d <= ticks then ticks - k * d else 0
  {
    if k > 0 {
      RemainingIs(ticks, d, k - 1);
      assert k * d == (k - 1) * d + d;
    }
  }

  /** A finite wait for a lock that never becomes free gives up exactly when the retry interval is not
      zero ticks, or there is nothing to wait for. */
  lemma WaitEndsIff(ticks: nat, d: nat)
    ensures (exists k: nat :: RemainingAfter(ticks, d, k) == 0) <==> d > 0 || ticks == 0
  {
    if d > 0 {
      RemainingIs(ticks, d, ticks);
      assert ticks * d >= ticks by { if ticks > 0 { assert ticks * d == ticks * (d - 1) + ticks; } }
      assert RemainingAfter(ticks, d, ticks) == 0;
    } else {
      forall k: nat ensures RemainingAfter(ticks, d, k) == ticks {
        RemainingIs(ticks, d, k);
        assert k * d == 0;
      }
      assert ticks == 0 ==> RemainingAfter(ticks, d, 0) == 0;
    }
  }

  // ----- the retry loop in a run -----

  /** Step `j` of the run is a failed try of thread `i`. */
  ghost predicate RetryAt(who: seq<nat>, steps: seq<Step>, i: nat, j: nat)
    requires |who| == |steps| && j < |steps|
  {
    who[j] == i && steps[j].Retry?
  }

  /** The ticks that thread `i` sleeps in the steps from `b` up to `k`: each failed try sleeps for the retry
      interval, or for what remains. */
  ghost function Slept(ws: seq<World>, who: seq<nat>, steps: seq<Step>, d: nat, i: nat, b: nat, k: nat): nat
    requires Run(ws, who, steps, d) && b <= k <= |steps|
    decreases k
  {
    if b == k then 0
    else
      Slept(ws, who, steps, d, i, b, k - 1) +
      if RetryAt(who, steps, i, k - 1) then
        assert NextAt(ws, who, steps, d, k - 1);
        var ticks := ws[k - 1].threads[i].attempt.value.ticks;
        if ticks < d then ticks else d
      else 0
  }

  /** How often thread `i` fails in the steps from `b` up to `k`. */
  ghost function Tries(who: seq<nat>, steps: seq<Step>, i: nat, b: nat, k: nat): nat
    requires |who| == |steps| && b <= k <= |steps|
    decreases k
  {
    if b == k then 0 else Tries(who, steps, i, b, k - 1) + if RetryAt(who, steps, i, k - 1) then 1 else 0
  }

  /** At step `b` thread `i`, which does not own the lock, enters the constructor for the wait `a`, and at `k` it
      has not returned. */
  ghost predicate Waits(
    ws: seq<World>, who: seq<nat>, steps: seq<Step>, i: nat, a: Attempt, b: nat, k: nat)
  {
    && b < k < |ws| && |ws| == |who| + 1 == |steps| + 1
    && who[b] == i && steps[b] == Begin(a) && ws[b].owner != Some(i)
    && forall j | b < j <= k :: i < |ws[j].threads| && ws[j].threads[i].attempt.Some?
  }

  lemma {:induction false} WaitKeepsCount(
    ws: seq<World>, who: seq<nat>, steps: seq<Step>, d: nat, i: nat, t: nat, b: nat, k: nat)
    requires Run(ws, who, steps, d) && Waits(ws, who, steps, i, Remaining(t), b, k)
    ensures var a := ws[k].threads[i].attempt.value;
            && a == Remaining(RemainingAfter(t, d, Tries(who, steps, i, b, k)))
            && Slept(ws, who, steps, d, i, b, k) + a.ticks == t
    decreases k
  {
    assert NextAt(ws, who, steps, d, k - 1);
    if k == b + 1 {
      assert Slept(ws, who, steps, d, i, b, b) == 0 && Tries(who, steps, i, b, b) == 0;
    } else {
      WaitKeepsCount(ws, who, steps, d, i, t, b, k - 1);
    }
  }

  /** In every interleaving a wait sleeps no longer than it was given: all of it when it gives up, less when it
      gets the lock, and in between as much as its number of failed tries says. It gives up exactly when the time
      is over, and until then takes the lock at the first try that finds it free. */
  lemma WaitSleeps(ws: seq<World>, who: seq<nat>, steps: seq<Step>, d: nat, i: nat, t: nat, b: nat, k: nat)
    requires Run(ws, who, steps, d) && Waits(ws, who, steps, i, Remaining(t), b, k) && k < |steps|
    ensures var slept, tries := Slept(ws, who, steps, d, i, b, k), Tries(who, steps, i, b, k);
            && slept == (if tries * d <= t then tries * d else t)
            && (who[k] == i && steps[k] == GiveUp ==> slept == t)
            && (who[k] == i && steps[k] == Acquire ==> slept == tries * d < t)
            && (who[k] == i ==>
                  steps[k] == if slept == t then GiveUp else if ws[k].owner.None? then Acquire else Retry)
  {
    WaitKeepsCount(ws, who, steps, d, i, t, b, k);
    RemainingIs(t, d, Tries(who, steps, i, b, k));
    assert NextAt(ws, who, steps, d, k);
  }

  lemma {:induction false} StillForever(
    ws: seq<World>, who: seq<nat>, steps: seq<Step>, d: nat, i: nat, b: nat, k: nat)
    requires Run(ws, who, steps, d) && Waits(ws, who, steps, i, Forever, b, k)
    ensures ws[k].threads[i].attempt == Some(Forever) && ws[k].threads[i].frames == ws[b + 1].threads[i].frames
    decreases k
  {
    assert NextAt(ws, who, steps, d, k - 1);
    if k > b + 1 { StillForever(ws, who, steps, d, i, b, k - 1); }
  }

  /** A scope that waits without limit ends only by getting the lock: no interleaving gives it FAILED. */
  lemma ForeverNeverFails(ws: seq<World>, who: seq<nat>, steps: seq<Step>, d: nat, i: nat, b: nat, k: nat)
    requires Run(ws, who, steps, d) && Waits(ws, who, steps, i, Forever, b, k)
    requires k < |steps| && who[k] == i
    ensures steps[k] == Acquire && ws[k + 1].owner == Some(i) && i < |ws[k + 1].threads|
    ensures ws[k + 1].threads[i] == Thread(ws[b + 1].threads[i].frames + [SUCCESS], None)
  {
    StillForever(ws, who, steps, d, i, b, k);
    assert NextAt(ws, who, steps, d, k);
  }

  // ----- scopes and calls -----

  /** A constructor that is entered without the lock is in its wait, for as long as it was given; entered with the
      lock, it returns at once. */
  lemma Enters(ws: seq<World>, who: seq<nat>, steps: seq<Step>, d: nat, k: nat)
    requires Run(ws, who, steps, d) && k < |steps| && steps[k].Begin?
    ensures var i, a := who[k], steps[k].attempt;
            if ws[k].owner == Some(i) then i < |ws[k + 1].threads| && ws[k + 1].threads[i].attempt == None
            else Waits(ws, who, steps, i, a, k, k + 1) && ws[k + 1].threads[i].attempt == Some(a)
  {
    assert NextAt(ws, who, steps, d, k);
  }

  /** Thread `i` makes a frame in step `j`: a constructor returns, with whatever status, or the stack is locked. */
  ghost predicate Opens(ws: seq<World>, who: seq<nat>, steps: seq<Step>, i: nat, j: nat)
    requires |ws| == |who| + 1 == |steps| + 1 && j < |steps|
  {
    && who[j] == i
    && (steps[j].Acquire? || steps[j].GiveUp? || steps[j].PlainLock? || (steps[j].Begin? && ws[j].owner == Some(i)))
  }

  /** The frames that thread `i` has made and not left in the first `k` steps. */
  ghost function Depth(ws: seq<World>, who: seq<nat>, steps: seq<Step>, i: nat, k: nat): int
    requires |ws| == |who| + 1 == |steps| + 1 && k <= |steps|
  {
    if k == 0 then 0
    else
      Depth(ws, who, steps, i, k - 1) +
      if Opens(ws, who, steps, i, k - 1) then 1 else if who[k - 1] == i && steps[k - 1].Leave? then -1 else 0
  }

  /** Every constructor leaves exactly one scope behind, and every destructor takes exactly one away: at all times a
      thread has as many frames as it has made and not left. */
  lemma {:induction false} FramesBalance(ws: seq<World>, who: seq<nat>, steps: seq<Step>, d: nat, i: nat, k: nat)
    requires Run(ws, who, steps, d) && k < |ws| && i < |ws[0].threads|
    ensures |ws[k].threads| == |ws[0].threads| && |ws[k].threads[i].frames| == Depth(ws, who, steps, i, k)
  {
    if k > 0 {
      FramesBalance(ws, who, steps, d, i, k - 1);
      assert NextAt(ws, who, steps, d, k - 1);
    }
  }
}
