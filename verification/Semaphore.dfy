/**
  `LightweightSemaphore` with one signalling thread and one waiting thread, as a step machine:
  an atomic count in front of a kernel semaphore. The kernel semaphore is a bag of posts, each
  tagged with the number of the wait during which the signaller decided to make it.
*/
module Semaphore {

  // wait() is Wait with a negative timeout
  datatype WaitOp = TryWait | Wait(timeout: int)

  datatype Waiter =
    | WIdle
    | WReturn(granted: bool)
    | WTry(op: WaitOp)                   // tryWait: load the count
    | WTake                              // the count was positive: take one
    | WSpin(timeout: int, left: nat)     // spin: load the count again
    | WDecrement(timeout: int)           // announce the wait in the count
    | WKernelWait(timeout: int)
    | WRestore                           // timed out: take the announcement back
    | WRedecrement                       // too late, a post is on its way: announce again
    | WKernelTry

  datatype Signaller =
    | SIdle
    | SAdd(n: nat)                       // signal(n): add to the count
    | SPost(wait: nat)                   // the count was negative: post to the kernel

  /** `signalled` and `granted` are the permits handed in and handed out so far. */
  datatype Sem = Sem(
    count: int,
    kernel: seq<nat>,
    waiter: Waiter,
    signaller: Signaller,
    waits: nat,                          // number of the current (or last) wait
    signalled: nat,
    granted: nat)

  const SPINS: nat := 1024

  datatype SemAction =
    | SignalCall(n: nat)
    | WaitCall(op: WaitOp)
    | SignalStep
    | WaitStep(expires: bool)            // whether a kernel wait runs out

  predicate Inside(w: Waiter) { !w.WIdle? && !w.WReturn? }

  predicate SemEnabled(s: Sem, a: SemAction) {
    match a
    case SignalCall(n) => s.signaller.SIdle? && n >= 1
    case WaitCall(_) => !Inside(s.waiter)
    case SignalStep => !s.signaller.SIdle?
    case WaitStep(expires) => Inside(s.waiter) && (s.waiter.WKernelWait? ==> expires || s.kernel != [])
  }

  function Grant(s: Sem): Sem {
    s.(waiter := WReturn(true), granted := s.granted + 1)
  }

  function WaiterNext(s: Sem, expires: bool): Sem
    requires SemEnabled(s, WaitStep(expires))
  {
    match s.waiter
    case WTry(op) =>
      s.(waiter := if s.count > 0 then WTake
                   else if op.TryWait? then WReturn(false)
                   else WSpin(op.timeout, SPINS))
    case WTake => Grant(s.(count := s.count - 1))
    case WSpin(t, left) =>
      s.(waiter := if left == 0 then WDecrement(t)
                   else if s.count > 0 then WTake
                   else WSpin(t, left - 1))
    case WDecrement(t) =>
      var n := s.(count := s.count - 1);
      if s.count > 0 then Grant(n)
      else n.(waiter := if t == 0 then WRestore else WKernelWait(t))
    case WKernelWait(_) =>
      if expires then s.(waiter := WRestore)
      else Grant(s.(kernel := s.kernel[1..]))
    case WRestore =>
      s.(count := s.count + 1, waiter := if s.count < 0 then WReturn(false) else WRedecrement)
    case WRedecrement =>
      s.(count := s.count - 1, waiter := if s.count > 0 then WKernelTry else WRestore)
    case WKernelTry =>
      if s.kernel != [] then Grant(s.(kernel := s.kernel[1..]))
      else s.(waiter := WRestore)
  }

  function SemStep(s: Sem, a: SemAction): Sem
    requires SemEnabled(s, a)
  {
    match a
    case SignalCall(n) => s.(signaller := SAdd(n))
    case WaitCall(op) => s.(waiter := WTry(op), waits := s.waits + 1)
    case SignalStep =>
      (match s.signaller
       case SAdd(n) =>
         s.(count := s.count + n, signalled := s.signalled + n,
            signaller := if s.count < 0 then SPost(s.waits) else SIdle)
       case SPost(w) => s.(kernel := s.kernel + [w], signaller := SIdle))
    case WaitStep(expires) => WaiterNext(s, expires)
  }

  function SemInit(): Sem { Sem(0, [], WIdle, SIdle, 0, 0, 0) }

  // ---------------------------------------------------------------- invariant

  // The waiter has announced itself in the count and neither got a permit nor taken it back.
  predicate Announced(w: Waiter) { w.WKernelWait? || w.WRestore? || w.WKernelTry? }

  // posts made, or about to be made, and not yet consumed
  function Outstanding(s: Sem): seq<nat> {
    s.kernel + if s.signaller.SPost? then [s.signaller.wait] else []
  }

  ghost predicate SemInv(s: Sem) {
    && s.count == s.signalled - s.granted - (if Announced(s.waiter) then 1 else 0)
    && s.count >= -1
    && (s.waiter.WTake? || s.waiter.WRedecrement? ==> s.count >= 1)
    && (s.waiter.WKernelTry? ==> s.count >= 0)
    && (!Announced(s.waiter) ==> s.count >= 0)
    && (if s.waiter.WRedecrement? || (Announced(s.waiter) && s.count >= 0)
        then Outstanding(s) == [s.waits]
        else Outstanding(s) == [])
    && (s.signaller.SAdd? ==> s.signaller.n >= 1)
  }

  /** Every step keeps the semaphore's invariant. */
  lemma SemStepKeepsInv(s: Sem, a: SemAction)
    requires SemInv(s) && SemEnabled(s, a)
    ensures SemInv(SemStep(s, a))
  {
    if s.signaller.SPost? {
      assert Outstanding(s)[|s.kernel|] == s.signaller.wait;
    } else {
      assert Outstanding(s) == s.kernel;
    }
  }

  ghost predicate SemRun(run: seq<Sem>, acts: seq<SemAction>) {
    && |run| == |acts| + 1 && run[0] == SemInit()
    && forall i :: 0 <= i < |acts| ==> SemEnabled(run[i], acts[i]) && run[i + 1] == SemStep(run[i], acts[i])
  }

  lemma {:induction false} SemRunInv(run: seq<Sem>, acts: seq<SemAction>, i: nat)
    requires SemRun(run, acts) && i < |run|
    ensures SemInv(run[i])
  {
    if i > 0 {
      SemRunInv(run, acts, i - 1);
      assert SemEnabled(run[i - 1], acts[i - 1]) && run[i] == SemStep(run[i - 1], acts[i - 1]);
      SemStepKeepsInv(run[i - 1], acts[i - 1]);
    }
  }

  // ---------------------------------------------------------------- calls and their answers

  // The permits of the signal calls made before action i
  function Signals(acts: seq<SemAction>, i: nat): nat
    requires i <= |acts|
  {
    if i == 0 then 0
    else if acts[i - 1].SignalCall? then Signals(acts, i - 1) + acts[i - 1].n
    else Signals(acts, i - 1)
  }

  // The number of waits that have returned true before action i
  function Grants(run: seq<Sem>, acts: seq<SemAction>, i: nat): nat
    requires i <= |acts| && |run| == |acts| + 1
  {
    if i == 0 then 0
    else if acts[i - 1].WaitStep? && run[i].waiter == WReturn(true) then Grants(run, acts, i - 1) + 1
    else Grants(run, acts, i - 1)
  }

  /** The balance is that of the calls: permits handed in by signal, handed out by waits that returned true. */
  lemma {:induction false} PermitsOfCalls(run: seq<Sem>, acts: seq<SemAction>, i: nat)
    requires SemRun(run, acts) && i < |run|
    ensures Signals(acts, i) == run[i].signalled + (if run[i].signaller.SAdd? then run[i].signaller.n else 0)
    ensures Grants(run, acts, i) == run[i].granted
  {
    if i > 0 {
      PermitsOfCalls(run, acts, i - 1);
      assert SemEnabled(run[i - 1], acts[i - 1]) && run[i] == SemStep(run[i - 1], acts[i - 1]);
    }
  }

  // Wait call number c is the one under way, or last completed, at j.
  ghost predicate WaitCallSpans(acts: seq<SemAction>, c: nat, j: nat) {
    c < j <= |acts| && acts[c].WaitCall? && forall k :: c < k < j ==> !acts[k].WaitCall?
  }

  // What a wait step can lead to
  lemma Refusal(s: Sem, expires: bool)
    requires SemInv(s) && SemEnabled(s, WaitStep(expires)) && WaiterNext(s, expires).waiter == WReturn(false)
    ensures s.signalled == s.granted
  {
  }

  /**
    A wait that returns false was right to: at some instant between its call and its return every
    permit handed in had been handed out.
  */
  lemma {:induction false} HonestRefusal(run: seq<Sem>, acts: seq<SemAction>, c: nat, j: nat)
    requires SemRun(run, acts) && WaitCallSpans(acts, c, j) && run[j].waiter == WReturn(false)
    ensures exists k :: c < k <= j && run[k].signalled == run[k].granted
    decreases j
  {
    hide SemInv;
    assert SemEnabled(run[j - 1], acts[j - 1]) && run[j] == SemStep(run[j - 1], acts[j - 1]);
    if acts[j - 1].WaitStep? {
      SemRunInv(run, acts, j - 1);
      Refusal(run[j - 1], acts[j - 1].expires);
    } else if c < j - 1 {
      HonestRefusal(run, acts, c, j - 1);
    }
  }

  // The places that a wait of this kind can reach
  predicate Within(op: WaitOp, w: Waiter) {
    match w
    case WIdle => false
    case WReturn(_) | WTake => true
    case WTry(o) => o == op
    case WSpin(t, left) => op == Wait(t) && left <= SPINS
    case WDecrement(t) => op == Wait(t)
    case WKernelWait(t) => op == Wait(t) && t != 0
    case _ => op.Wait?
  }

  /** tryWait neither spins nor announces itself, and a wait with timeout 0 does not block. */
  lemma {:induction false} StaysWithin(run: seq<Sem>, acts: seq<SemAction>, c: nat, j: nat)
    requires SemRun(run, acts) && WaitCallSpans(acts, c, j)
    ensures Within(acts[c].op, run[j].waiter)
    ensures acts[c].op.TryWait? ==> run[j].waiter.WTry? || run[j].waiter.WTake? || run[j].waiter.WReturn?
    ensures acts[c].op == Wait(0) ==> !run[j].waiter.WKernelWait?
    decreases j
  {
    assert SemEnabled(run[j - 1], acts[j - 1]) && run[j] == SemStep(run[j - 1], acts[j - 1]);
    if c < j - 1 { StaysWithin(run, acts, c, j - 1); }
  }

  function WaitRank(w: Waiter): nat {
    match w
    case WIdle | WReturn(_) => 0
    case WTake | WKernelTry => 1
    case WRedecrement => 2
    case WRestore => 3
    case WKernelWait(_) => 4
    case WDecrement(_) => 5
    case WSpin(_, left) => 6 + left
    case WTry(_) => 7 + 1024
  }

  /**
    A wait comes to its end: every step brings it closer to its return, except while it waits for
    the post that a signaller has already decided to make. A permit that it sees it takes at once.
  */
  lemma WaitProgress(s: Sem, expires: bool)
    requires SemInv(s) && SemEnabled(s, WaitStep(expires))
    ensures var n := SemStep(s, WaitStep(expires));
      && (WaitRank(n.waiter) < WaitRank(s.waiter) || (s.waiter.WKernelTry? && s.signaller.SPost?))
      && (s.count > 0 && (s.waiter.WTry? || (s.waiter.WSpin? && s.waiter.left > 0)) ==> n.waiter == WTake)
      && (s.waiter.WTake? ==> n.waiter == WReturn(true) && n.granted == s.granted + 1)
  {
    assert s.signaller.SPost? || Outstanding(s) == s.kernel;
  }

  /** No thread is stuck, but for a wait in the kernel that has neither a post nor an end to its time. */
  lemma SemNeverStuck(s: Sem, n: nat, op: WaitOp, expires: bool)
    requires n >= 1
    ensures SemEnabled(s, if s.signaller.SIdle? then SignalCall(n) else SignalStep)
    ensures if Inside(s.waiter) then SemEnabled(s, WaitStep(true)) else SemEnabled(s, WaitCall(op))
    ensures Inside(s.waiter) && (s.waiter.WKernelWait? ==> s.kernel != []) ==> SemEnabled(s, WaitStep(false))
    ensures Inside(s.waiter) <==> s.waiter != WIdle && s.waiter != WReturn(true) && s.waiter != WReturn(false)
  {
  }

  /**
    Conservation, over every run of signals and waits, timeouts included: the count never drops
    below -1; permits are never handed out before they were handed in; a waiter between calls
    leaves no post behind and the count is then exactly the permits still available.
  */
  lemma Conservation(run: seq<Sem>, acts: seq<SemAction>, i: nat)
    requires SemRun(run, acts) && i < |run|
    ensures run[i].count >= -1 && Grants(run, acts, i) <= Signals(acts, i)
    ensures !Inside(run[i].waiter) ==> run[i].kernel == [] && !run[i].signaller.SPost?
    ensures !Inside(run[i].waiter) && run[i].signaller.SIdle? ==>
      run[i].count == Signals(acts, i) - Grants(run, acts, i)
  {
    SemRunInv(run, acts, i);
    PermitsOfCalls(run, acts, i);
  }

  /**
    No wake-up is lost: a waiter blocked in the kernel has a permit to come exactly when a post is
    there or about to be made, and then the wait can end, at the latest after the signaller's step.
  */
  lemma NoLostWakeUp(run: seq<Sem>, acts: seq<SemAction>, i: nat)
    requires SemRun(run, acts) && i < |run| && run[i].waiter.WKernelWait?
    ensures run[i].signalled > run[i].granted <==> run[i].kernel != [] || run[i].signaller.SPost?
    ensures run[i].signalled > run[i].granted ==>
      || SemEnabled(run[i], WaitStep(false))
      || (SemEnabled(run[i], SignalStep) && SemEnabled(SemStep(run[i], SignalStep), WaitStep(false)))
  {
    SemRunInv(run, acts, i);
    assert |Outstanding(run[i])| == |run[i].kernel| + if run[i].signaller.SPost? then 1 else 0;
  }

  /** A post that a wait takes from the kernel was made on account of that same wait. */
  lemma PostsMatchWaits(run: seq<Sem>, acts: seq<SemAction>, i: nat)
    requires SemRun(run, acts) && i < |acts|
    requires acts[i].WaitStep? && run[i + 1].kernel != run[i].kernel
    ensures run[i].kernel == [run[i].waits] && run[i + 1].kernel == [] && run[i + 1].waiter == WReturn(true)
  {
    SemRunInv(run, acts, i);
    assert SemEnabled(run[i], acts[i]) && run[i + 1] == SemStep(run[i], acts[i]);
    var k := run[i].kernel;
    assert k <= Outstanding(run[i]);
  }

  /** A wait that fails hands its announcement back: it changes neither side of the balance. */
  lemma FailedWaitChangesNothing(run: seq<Sem>, acts: seq<SemAction>, i: nat)
    requires SemRun(run, acts) && i < |run| && run[i].waiter == WReturn(false)
    ensures run[i].count == run[i].signalled - run[i].granted && Outstanding(run[i]) == []
  {
    SemRunInv(run, acts, i);
  }
}
