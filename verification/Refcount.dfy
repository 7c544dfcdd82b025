/** Shared reference counts: the compare-and-swap version under every interleaving, and the lock version it refines. */
module Refcount {
  import opened Bits

  /** `CRYPTO_REFCOUNT_MAX`, where a count saturates. */
  const MAX: nat := 0xFFFF_FFFF

  /** What an operation comes to: an increment, a decrement and whether it was told zero, or an abort. */
  datatype Event = Incremented | Decremented(zero: bool) | Aborted

  // ----- the lock version -----

  /** One operation under the lock: the new count, and what the caller sees. */
  function LockInc(count: nat): (nat, Event) {
    (if count < MAX then count + 1 else count, Incremented)
  }

  function LockDec(count: nat): (nat, Event) {
    if count == 0 then (0, Aborted)
    else
      var c := if count < MAX then count - 1 else count;
      (c, Decremented(c == 0))
  }

  /** `refcount_lock.c`; abort is the flag. */
  class LockCount {
    var count: nat
    var aborted: bool

    ghost predicate Valid()
      reads this
    {
      count <= MAX
    }

    constructor (start: nat)
      requires start <= MAX
      ensures Valid() && count == start && !aborted
    {
      count, aborted := start, false;
    }

    method Inc()
      requires Valid() && !aborted
      modifies this
      ensures Valid() && !aborted && (count, Incremented) == LockInc(old(count))
      ensures count == old(count) + if old(count) == 0xFFFF_FFFF then 0 else 1
    {
      if count < MAX {
        count := count + 1;
      }
    }

    method DecAndTestZero() returns (ret: bool)
      requires Valid() && !aborted
      modifies this
      ensures Valid() && aborted == (old(count) == 0)
      ensures (count, if aborted then Aborted else Decremented(ret)) == LockDec(old(count))
      ensures ret <==> old(count) == 1
      ensures count == old(count) - if old(count) == 0 || old(count) == 0xFFFF_FFFF then 0 else 1
    {
      if count == 0 {
        aborted := true;
        return false;
      }
      if count < MAX {
        count := count - 1;
      }
      ret := count == 0;
    }
  }

  // ----- the compare-and-swap version -----

  /** Where a thread is: not in an operation, about to load, or in the loop with the value it expects. */
  datatype Thread = Idle | IncLoad | DecLoad | IncLoop(expected: nat) | DecLoop(expected: nat) | Dead

  /** `done` records each operation when it takes effect. */
  datatype Machine = Machine(count: nat, threads: seq<Thread>, done: seq<Event>)

  datatype Step =
    | CallInc(t: nat) | CallDec(t: nat) | Load(t: nat)
    | Swap(t: nat, spurious: bool)

  /** After an abort there is nothing left to run. */
  predicate Enabled(m: Machine, s: Step) {
    && s.t < |m.threads| && Aborted !in m.done
    && match s
       case CallInc(t) => m.threads[t].Idle?
       case CallDec(t) => m.threads[t].Idle?
       case Load(t) => m.threads[t].IncLoad? || m.threads[t].DecLoad?
       case Swap(t, _) => m.threads[t].IncLoop? || m.threads[t].DecLoop?
  }

  function Put(m: Machine, t: nat, th: Thread): Machine
    requires t < |m.threads|
  {
    m.(threads := m.threads[t := th])
  }

  function Finish(m: Machine, t: nat, count: nat, e: Event): Machine
    requires t < |m.threads|
  {
    Machine(count, m.threads[t := if e.Aborted? then Dead else Idle], m.done + [e])
  }

  /** A thread has got hold of a value, by loading it or from a failed swap, and looks at it. */
  function Look(m: Machine, t: nat, inc: bool): Machine
    requires t < |m.threads|
  {
    if inc then
      if m.count != MAX then Put(m, t, IncLoop(m.count)) else Finish(m, t, m.count, Incremented)
    else
      if m.count == 0 then Finish(m, t, m.count, Aborted)
      else if m.count == MAX then Finish(m, t, m.count, Decremented(false))
      else Put(m, t, DecLoop(m.count))
  }

  /** `uint32_t` arithmetic. */
  function Word(n: int): nat {
    n % (MAX + 1)
  }

  /** One atomic step of one thread; a weak compare-and-swap may fail for no reason. */
  function Next(m: Machine, s: Step): Machine
    requires Enabled(m, s)
  {
    match s
    case CallInc(t) => Put(m, t, IncLoad)
    case CallDec(t) => Put(m, t, DecLoad)
    case Load(t) => Look(m, t, m.threads[t].IncLoad?)
    case Swap(t, spurious) =>
      var th := m.threads[t];
      if spurious || m.count != th.expected then Look(m, t, th.IncLoop?)
      else if th.IncLoop? then Finish(m, t, Word(th.expected + 1), Incremented)
      else Finish(m, t, Word(th.expected - 1), Decremented(Word(th.expected - 1) == 0))
  }

  ghost predicate ThreadOK(th: Thread) {
    (th.IncLoop? ==> th.expected < MAX) && (th.DecLoop? ==> 0 < th.expected < MAX)
  }

  ghost predicate Inv(m: Machine) {
    m.count <= MAX && forall t: nat :: t < |m.threads| ==> ThreadOK(m.threads[t])
  }

  predicate Incrementing(th: Thread) {
    th.IncLoad? || th.IncLoop?
  }

  /** Thread `t` does one whole operation of the lock version, the one it was called for, and has ended it. */
  ghost predicate DoesOne(m: Machine, m': Machine, t: nat, e: Event)
    requires t < |m.threads|
  {
    && m' == Finish(m, t, m'.count, e) && !m.threads[t].Idle?
    && (m'.count, e) == if Incrementing(m.threads[t]) then LockInc(m.count) else LockDec(m.count)
  }

  /** Each step of a thread is nothing to the others and ends no operation, or is one whole operation of the lock version. */
  ghost predicate IsLockStep(m: Machine, m': Machine, t: nat)
    requires t < |m.threads|
  {
    || (exists th: Thread :: m' == Put(m, t, th) && !th.Idle? && !th.Dead?)
    || (exists e :: DoesOne(m, m', t, e))
  }

  lemma LookIsLockStep(m: Machine, t: nat)
    requires Inv(m) && t < |m.threads| && !m.threads[t].Idle?
    ensures Inv(Look(m, t, Incrementing(m.threads[t]))) && IsLockStep(m, Look(m, t, Incrementing(m.threads[t])), t)
  {
    var inc := Incrementing(m.threads[t]);
    if inc && m.count == MAX {
      assert DoesOne(m, Look(m, t, inc), t, Incremented);
    } else if !inc && m.count == 0 {
      assert DoesOne(m, Look(m, t, inc), t, Aborted);
    } else if !inc && m.count == MAX {
      assert DoesOne(m, Look(m, t, inc), t, Decremented(false));
    } else {
      assert Look(m, t, inc) == Put(m, t, if inc then IncLoop(m.count) else DecLoop(m.count));
    }
  }

  lemma SwapIsLockStep(m: Machine, t: nat)
    requires Inv(m) && Enabled(m, Swap(t, false)) && m.count == m.threads[t].expected
    ensures Inv(Next(m, Swap(t, false))) && IsLockStep(m, Next(m, Swap(t, false)), t)
  {
    var m', th := Next(m, Swap(t, false)), m.threads[t];
    assert ThreadOK(th);
    assert DoesOne(m, m', t, if th.IncLoop? then Incremented else Decremented(m'.count == 0));
  }

  lemma StepRefines(m: Machine, s: Step)
    requires Inv(m) && Enabled(m, s)
    ensures Inv(Next(m, s)) && IsLockStep(m, Next(m, s), s.t)
  {
    hide Finish;
    match s
    case CallInc(t) => assert Next(m, s) == Put(m, t, IncLoad);
    case CallDec(t) => assert Next(m, s) == Put(m, t, DecLoad);
    case Load(t) => LookIsLockStep(m, t);
    case Swap(t, spurious) =>
      if spurious || m.count != m.threads[t].expected { LookIsLockStep(m, t); } else { SwapIsLockStep(m, t); }
  }

  // ----- whole runs -----

  /** The count after a history of whole operations of the lock version; none if it is not one. */
  ghost function LockRun(start: nat, h: seq<Event>): Option<nat> {
    if h == [] then Some(start)
    else
      var r := LockRun(start, h[..|h| - 1]);
      if r.None? then None
      else if LockInc(r.value).1 == h[|h| - 1] then Some(LockInc(r.value).0)
      else if LockDec(r.value).1 == h[|h| - 1] then Some(LockDec(r.value).0)
      else None
  }

  lemma LockRunMore(start: nat, h: seq<Event>, e: Event)
    requires LockRun(start, h).Some?
    ensures var c := LockRun(start, h).value;
      LockRun(start, h + [e])
        == if LockInc(c).1 == e then Some(LockInc(c).0) else if LockDec(c).1 == e then Some(LockDec(c).0) else None
  {
    assert (h + [e])[..|h + [e]| - 1] == h;
  }

  ghost predicate Run(start: nat, ms: seq<Machine>) {
    && |ms| > 0 && ms[0].count == start <= MAX && ms[0].done == [] && (forall th | th in ms[0].threads :: th.Idle?)
    && forall i :: 0 <= i < |ms| - 1 ==> CanStep(ms[i], ms[i + 1])
  }

  ghost predicate CanStep(m: Machine, m': Machine) {
    exists s :: Enabled(m, s) && m' == Next(m, s)
  }

  /** Under every interleaving, with swaps that fail for no reason, the operations come out as a sequence of whole
      operations of the lock version that ends with the same count. */
  lemma {:induction false} CasRefinesLock(start: nat, ms: seq<Machine>, i: nat)
    requires Run(start, ms) && i < |ms|
    ensures Inv(ms[i]) && LockRun(start, ms[i].done) == Some(ms[i].count)
  {
    hide Inv, Next, Enabled;
    if i == 0 {
      StartOK(ms[0]);
    } else {
      var m, m' := ms[i - 1], ms[i];
      CasRefinesLock(start, ms, i - 1);
      assert CanStep(m, m');
      var s :| Enabled(m, s) && m' == Next(m, s);
      StepHistory(start, m, s);
    }
  }

  lemma StepHistory(start: nat, m: Machine, s: Step)
    requires Inv(m) && Enabled(m, s) && LockRun(start, m.done) == Some(m.count)
    ensures Inv(Next(m, s)) && LockRun(start, Next(m, s).done) == Some(Next(m, s).count)
  {
    hide Inv, Next, LockRun;
    StepRefines(m, s);
    var m' := Next(m, s);
    if e :| DoesOne(m, m', s.t, e) {
      LockRunMore(start, m.done, e);
    }
  }

  lemma StartOK(m: Machine)
    requires m.count <= MAX && forall th | th in m.threads :: th.Idle?
    ensures Inv(m)
  {
    forall t: nat | t < |m.threads| ensures ThreadOK(m.threads[t]) { assert m.threads[t] in m.threads; }
  }

  function Incs(h: seq<Event>): nat {
    if h == [] then 0 else Incs(h[..|h| - 1]) + (if h[|h| - 1].Incremented? then 1 else 0)
  }

  function Decs(h: seq<Event>): nat {
    if h == [] then 0 else Decs(h[..|h| - 1]) + (if h[|h| - 1].Decremented? then 1 else 0)
  }

  /** How many decrements were told that they had reached zero. */
  function Zeros(h: seq<Event>): nat {
    if h == [] then 0 else Zeros(h[..|h| - 1]) + (if h[|h| - 1] == Decremented(true) then 1 else 0)
  }

  /** The count never reaches the value where it saturates. */
  ghost predicate Unsaturated(start: nat, h: seq<Event>) {
    forall n :: 0 <= n <= |h| ==> LockRun(start, h[..n]) != Some(MAX)
  }

  /** Every operation is made while there is a reference, as it is by a holder of one. */
  ghost predicate AlwaysHeld(start: nat, h: seq<Event>) {
    forall n :: 0 <= n < |h| ==> LockRun(start, h[..n]) != Some(0)
  }

  lemma Shorter(start: nat, h: seq<Event>)
    requires |h| > 0
    ensures Unsaturated(start, h) ==> Unsaturated(start, h[..|h| - 1])
    ensures AlwaysHeld(start, h) ==> AlwaysHeld(start, h[..|h| - 1]) && LockRun(start, h[..|h| - 1]) != Some(0)
  {
    hide LockRun;
    var g := h[..|h| - 1];
    forall n | 0 <= n <= |g| ensures g[..n] == h[..n] {}
  }

  /** Unless it saturates, the count is the start plus the increments minus the decrements. */
  lemma {:induction false} CountIsBalance(start: nat, h: seq<Event>)
    requires LockRun(start, h).Some? && Unsaturated(start, h) && Aborted !in h && start < MAX
    ensures LockRun(start, h).value == start + Incs(h) - Decs(h) < MAX
  {
    if h != [] {
      Shorter(start, h);
      CountIsBalance(start, h[..|h| - 1]);
      assert h[..|h|] == h;
    }
  }

  /** A saturated count stays where it is, and no decrement of it is told zero. */
  lemma SaturatedStays(start: nat, h: seq<Event>, e: Event)
    requires LockRun(start, h) == Some(MAX) && LockRun(start, h + [e]).Some?
    ensures LockRun(start, h + [e]) == Some(MAX) && e != Decremented(true) && e != Aborted
  {
    LockRunMore(start, h, e);
  }

  /** As long as every operation is made by a holder of a reference, nothing aborts, and a decrement is told zero
      exactly when all references are gone: then, by the last operation, and once. */
  lemma {:induction false} ZeroOnce(start: nat, h: seq<Event>)
    requires 0 < start < MAX && LockRun(start, h).Some? && Unsaturated(start, h) && AlwaysHeld(start, h)
    ensures Aborted !in h
    ensures Zeros(h) == if start + Incs(h) == Decs(h) then 1 else 0
    ensures start + Incs(h) == Decs(h) ==> h != [] && h[|h| - 1] == Decremented(true)
  {
    if h != [] {
      var g := h[..|h| - 1];
      Shorter(start, h);
      ZeroOnce(start, g);
      CountIsBalance(start, g);
      assert h == g + [h[|h| - 1]];
    }
  }

  /** The same for the compare-and-swap version. */
  lemma BalancedIsFreedOnce(start: nat, ms: seq<Machine>)
    requires Run(start, ms) && 0 < start < MAX
    requires var h := ms[|ms| - 1].done; Unsaturated(start, h) && AlwaysHeld(start, h) && start + Incs(h) == Decs(h)
    ensures ms[|ms| - 1].count == 0 && Zeros(ms[|ms| - 1].done) == 1
  {
    var h := ms[|ms| - 1].done;
    CasRefinesLock(start, ms, |ms| - 1);
    ZeroOnce(start, h);
    CountIsBalance(start, h);
  }

  // ----- holders -----

  /** A machine, and how many references each thread holds. */
  datatype Held = Held(m: Machine, owns: seq<nat>)

  datatype Act = Do(s: Step) | Give(t: nat, u: nat)

  predicate Decrementing(th: Thread) {
    th.DecLoad? || th.DecLoop?
  }

  /** An operation is called by a holder of a reference. A thread that is in no operation may give one to another. */
  predicate Allowed(x: Held, a: Act) {
    |x.owns| == |x.m.threads| && Aborted !in x.m.done
    && match a
       case Do(s) => Enabled(x.m, s) && (s.CallInc? || s.CallDec? ==> x.owns[s.t] > 0)
       case Give(t, u) => t < |x.owns| && u < |x.owns| && x.owns[t] > 0 && x.m.threads[t].Idle?
  }

  /** A decrement takes the caller's reference, an increment that has ended gives it one more. */
  function Then(x: Held, a: Act): (y: Held)
    requires Allowed(x, a)
  {
    match a
    case Give(t, u) =>
      var less := x.owns[t := x.owns[t] - 1];
      Held(x.m, less[u := less[u] + 1])
    case Do(s) =>
      var m', n := Next(x.m, s), x.owns[s.t];
      Held(m', if s.CallDec? then x.owns[s.t := n - 1]
               else if Incrementing(x.m.threads[s.t]) && m'.threads[s.t].Idle? then x.owns[s.t := n + 1]
               else x.owns)
  }

  /** The references of a thread: those it holds, and the one that a decrement has yet to take off the count. */
  function Share(x: Held, t: nat): nat
    requires t < |x.owns| == |x.m.threads|
  {
    x.owns[t] + if Decrementing(x.m.threads[t]) then 1 else 0
  }

  function Shares(x: Held): (r: seq<nat>)
    requires |x.owns| == |x.m.threads|
    ensures |r| == |x.owns|
  {
    seq(|x.owns|, t requires 0 <= t < |x.owns| => Share(x, t))
  }

  function Total(ns: seq<nat>): nat {
    if ns == [] then 0 else ns[0] + Total(ns[1..])
  }

  lemma {:induction false} TotalWith(ns: seq<nat>, i: nat, n: nat)
    requires i < |ns|
    ensures ns[i] <= Total(ns) && Total(ns[i := n]) == Total(ns) - ns[i] + n
  {
    if i == 0 {
      assert ns[0 := n][1..] == ns[1..];
    } else {
      assert ns[i := n][1..] == ns[1..][i - 1 := n];
      TotalWith(ns[1..], i - 1, n);
    }
  }

  lemma {:induction false} TotalZero(ns: seq<nat>)
    ensures Total(ns) == 0 <==> forall i :: 0 <= i < |ns| ==> ns[i] == 0
  {
    if ns != [] {
      TotalZero(ns[1..]);
      assert forall i :: 1 <= i < |ns| ==> ns[i] == ns[1..][i - 1];
    }
  }

  /** The count is the number of references held, and whoever increments holds one. */
  ghost predicate Accounted(x: Held) {
    && |x.owns| == |x.m.threads| && Inv(x.m) && x.m.count == Total(Shares(x)) && Aborted !in x.m.done
    && forall t: nat :: t < |x.owns| && Incrementing(x.m.threads[t]) ==> x.owns[t] > 0
  }

  lemma GiveKeeps(x: Held, t: nat, u: nat)
    requires Accounted(x) && Allowed(x, Give(t, u))
    ensures Accounted(Then(x, Give(t, u)))
  {
    hide Total;
    var y, ns := Then(x, Give(t, u)), Shares(x);
    TotalWith(ns, t, ns[t] - 1);
    var less := ns[t := ns[t] - 1];
    TotalWith(less, u, less[u] + 1);
    assert Shares(y) == less[u := less[u] + 1];
  }

  /** A step moves the count by as much as the thread's share, and takes effect only while there is a reference. */
  lemma StepCounts(x: Held, s: Step)
    requires Allowed(x, Do(s)) && x.m.count < MAX && ThreadOK(x.m.threads[s.t]) && Share(x, s.t) <= x.m.count
    requires Incrementing(x.m.threads[s.t]) ==> x.owns[s.t] > 0
    ensures |Next(x.m, s).threads| == |x.m.threads|
    ensures var y := Then(x, Do(s));
      && y.m.count == x.m.count - Share(x, s.t) + Share(y, s.t)
      && (Incrementing(y.m.threads[s.t]) ==> y.owns[s.t] > 0)
      && (y.m.done != x.m.done ==> x.m.count > 0) && Aborted !in y.m.done
  {
  }

  lemma StepShare(x: Held, s: Step)
    requires Accounted(x) && Allowed(x, Do(s)) && x.m.count < MAX
    ensures Inv(Next(x.m, s)) && |Next(x.m, s).threads| == |x.m.threads|
    ensures var y := Then(x, Do(s));
      && Shares(y) == Shares(x)[s.t := Share(y, s.t)] && y.m.count == x.m.count - Share(x, s.t) + Share(y, s.t)
      && (Incrementing(y.m.threads[s.t]) ==> y.owns[s.t] > 0)
      && (y.m.done != x.m.done ==> x.m.count > 0) && Aborted !in y.m.done
  {
    hide Next, Total;
    StepRefines(x.m, s);
    OthersStay(x.m, s);
    TotalWith(Shares(x), s.t, 0);
    assert Shares(x)[s.t] == Share(x, s.t);
    StepCounts(x, s);
    var y := Then(x, Do(s));
    forall t | 0 <= t < |y.owns| && t != s.t ensures Share(y, t) == Share(x, t) {}
  }

  lemma DoKeeps(x: Held, s: Step)
    requires Accounted(x) && Allowed(x, Do(s)) && x.m.count < MAX
    ensures Accounted(Then(x, Do(s)))
  {
    hide Inv, Next, Total;
    StepShare(x, s);
    TotalWith(Shares(x), s.t, Share(Then(x, Do(s)), s.t));
    assert Shares(x)[s.t] == Share(x, s.t);
    OthersStay(x.m, s);
  }

  lemma OthersStay(m: Machine, s: Step)
    requires Enabled(m, s)
    ensures |Next(m, s).threads| == |m.threads|
    ensures forall t :: 0 <= t < |m.threads| && t != s.t ==> Next(m, s).threads[t] == m.threads[t]
  {
  }

  ghost predicate CanAct(x: Held, y: Held) {
    exists a :: Allowed(x, a) && y == Then(x, a)
  }

  /** A run in which all references there are at the start are held, and never as many as saturate the count. */
  ghost predicate HolderRun(start: nat, xs: seq<Held>) {
    && |xs| > 0 && xs[0].m.count == start && xs[0].m.done == [] && (forall th | th in xs[0].m.threads :: th.Idle?)
    && 0 < start == Total(xs[0].owns)
    && (forall i :: 0 <= i < |xs| ==> |xs[i].owns| == |xs[i].m.threads| && Total(Shares(xs[i])) < MAX)
    && forall i :: 0 <= i < |xs| - 1 ==> CanAct(xs[i], xs[i + 1])
  }

  lemma LongerHistory(start: nat, h: seq<Event>, e: Event)
    requires Unsaturated(start, h) && AlwaysHeld(start, h) && LockRun(start, h).Some? && LockRun(start, h) != Some(0)
    requires LockRun(start, h + [e]) != Some(MAX)
    ensures Unsaturated(start, h + [e]) && AlwaysHeld(start, h + [e])
  {
    hide LockRun;
    var g := h + [e];
    forall n | 0 <= n <= |h| ensures g[..n] == h[..n] {}
    assert h[..|h|] == h && g[..|g|] == g;
  }

  lemma HolderStart(start: nat, xs: seq<Held>)
    requires HolderRun(start, xs)
    ensures Accounted(xs[0]) && LockRun(start, xs[0].m.done) == Some(xs[0].m.count)
    ensures Unsaturated(start, xs[0].m.done) && AlwaysHeld(start, xs[0].m.done)
  {
    var x := xs[0];
    forall t: nat | t < |x.owns| ensures x.m.threads[t].Idle? && Share(x, t) == x.owns[t] {
      assert x.m.threads[t] in x.m.threads;
    }
    assert Shares(x) == x.owns;
    StartOK(x.m);
  }

  /** In a run of holders the count is the number of references held, and every operation takes effect while there is
      one. */
  lemma {:induction false} HoldersHold(start: nat, xs: seq<Held>, i: nat)
    requires HolderRun(start, xs) && i < |xs|
    ensures Accounted(xs[i]) && LockRun(start, xs[i].m.done) == Some(xs[i].m.count)
    ensures Unsaturated(start, xs[i].m.done) && AlwaysHeld(start, xs[i].m.done)
  {
    hide LockRun, Unsaturated, AlwaysHeld, Next, Enabled, Inv, Shares, Total;
    if i == 0 {
      HolderStart(start, xs);
    } else {
      var x, y := xs[i - 1], xs[i];
      HoldersHold(start, xs, i - 1);
      assert CanAct(x, y);
      var a :| Allowed(x, a) && y == Then(x, a);
      match a
      case Give(t, u) => GiveKeeps(x, t, u);
      case Do(s) =>
        DoKeeps(x, s);
        StepShare(x, s);
        StepHistory(start, x.m, s);
        DoneGrows(x.m, s);
        if y.m.done != x.m.done { LongerHistory(start, x.m.done, y.m.done[|x.m.done|]); }
    }
  }

  lemma DoneGrows(m: Machine, s: Step)
    requires Enabled(m, s)
    ensures var d := Next(m, s).done; d == m.done || (|d| == |m.done| + 1 && d == m.done + [d[|m.done|]])
  {
  }

  /** Nothing aborts while every operation is called by a holder. A decrement is told zero exactly if no thread holds a
      reference any more and none is still giving one up: then, by the last operation, and once. */
  lemma FreedOnce(start: nat, xs: seq<Held>)
    requires HolderRun(start, xs)
    ensures var x := xs[|xs| - 1];
      var gone := forall t: nat :: t < |x.owns| ==> x.owns[t] == 0 && !Decrementing(x.m.threads[t]);
      && Aborted !in x.m.done && Zeros(x.m.done) == (if gone then 1 else 0)
      && (gone ==> x.m.done != [] && x.m.done[|x.m.done| - 1] == Decremented(true))
  {
    hide LockRun, Unsaturated, AlwaysHeld, Zeros, Incs, Decs;
    var x := xs[|xs| - 1];
    HolderStart(start, xs);
    HoldersHold(start, xs, |xs| - 1);
    ZeroOnce(start, x.m.done);
    CountIsBalance(start, x.m.done);
    NoneLeft(x);
  }

  lemma NoneLeft(x: Held)
    requires |x.owns| == |x.m.threads|
    ensures Total(Shares(x)) == 0 <==> forall t: nat :: t < |x.owns| ==> x.owns[t] == 0 && !Decrementing(x.m.threads[t])
  {
    hide Total;
    TotalZero(Shares(x));
    assert forall t :: 0 <= t < |x.owns| ==> Shares(x)[t] == Share(x, t);
    if t: nat :| t < |x.owns| && !(x.owns[t] == 0 && !Decrementing(x.m.threads[t])) { assert Shares(x)[t] > 0; }
  }
}
