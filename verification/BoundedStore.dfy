/**
  A shop floor: producers put products into a bounded queue, customers take them out and give up
  after a timed wait. All of them share one monitor with one wait set. A run interleaves the
  threads at every point where the monitor lets it: between the statements of a critical section
  a waiting customer may time out, and between critical sections any contender may enter.
*/
module BoundedStore {
  import opened Wrappers

  datatype Thread = Thread(id: nat)

  datatype Product = Product(name: string, price: real)

  datatype Call = Purchase(product: Product) | Sell

  /** Where a thread is inside a call. */
  datatype Phase =
    | Entering                  // at the lock statement
    | Testing(pulsed: bool)     // owns the monitor, about to test the loop condition
    | Signalling                // owns the monitor, the queue is updated, nobody is woken yet
    | Leaving                   // owns the monitor, about to release it
    | Waiting                   // in the wait set
    | Woken(pulsed: bool)       // out of the wait set, wants the monitor back

  datatype Activity = Idle | Busy(call: Call, phase: Phase)

  datatype State = State(
    capacity: int,
    stock: seq<Product>,
    waitSet: seq<Thread>,
    owner: Option<Thread>,
    threads: map<Thread, Activity>,
    purchased: seq<Product>,
    sold: seq<Product>)

  datatype Step =
    | Begin(thread: Thread, call: Call)
    | Enter(thread: Thread)
    | Proceed(thread: Thread)     // the owner runs its next statement
    | TimeOut(thread: Thread)

  // ---------------------------------------------------------------- what each step does

  function Doing(s: State, t: Thread): Activity {
    if t in s.threads then s.threads[t] else Idle
  }

  function At(s: State, t: Thread, phase: Phase): State
    requires Doing(s, t).Busy?
  {
    s.(threads := s.threads[t := Busy(s.threads[t].call, phase)])
  }

  function Without(ts: seq<Thread>, t: Thread): seq<Thread> {
    if ts == [] then [] else if ts[0] == t then Without(ts[1..], t) else [ts[0]] + Without(ts[1..], t)
  }

  /** The loop test, then either the wait or the queue update. */
  function AfterTest(s: State, t: Thread): State
    requires Doing(s, t).Busy?
  {
    match s.threads[t].call
    case Purchase(p) =>
      if |s.stock| >= s.capacity
      then At(s, t, Waiting).(waitSet := s.waitSet + [t], owner := None)
      else At(s, t, Signalling).(stock := s.stock + [p], purchased := s.purchased + [p])
    case Sell =>
      if s.stock == []
      then At(s, t, Waiting).(waitSet := s.waitSet + [t], owner := None)
      else At(s, t, Signalling).(stock := s.stock[1..], sold := s.sold + [s.stock[0]])
  }

  function Wake(threads: map<Thread, Activity>, ts: set<Thread>): map<Thread, Activity> {
    map t | t in threads :: if t in ts && threads[t].Busy? then Busy(threads[t].call, Woken(true)) else threads[t]
  }

  /** Pulse after a purchase, PulseAll after a sale. */
  function AfterSignal(s: State, t: Thread): State
    requires Doing(s, t).Busy?
  {
    var s' :=
      if s.threads[t].call.Sell? then s.(threads := Wake(s.threads, set u | u in s.waitSet), waitSet := [])
      else if s.waitSet == [] then s
      else s.(threads := Wake(s.threads, {s.waitSet[0]}), waitSet := s.waitSet[1..]);
    At(s', t, Leaving)
  }

  function Next(s: State, step: Step): State {
    var t, a := step.thread, Doing(s, step.thread);
    match step
    case Begin(_, call) =>
      if a.Idle? then s.(threads := s.threads[t := Busy(call, Entering)]) else s
    case Enter(_) =>
      if s.owner.Some? || a.Idle? then s
      else if a.phase.Entering? then At(s, t, Testing(false)).(owner := Some(t))
      else if a.phase.Woken? && (a.phase.pulsed || a.call.Purchase?) then At(s, t, Testing(true)).(owner := Some(t))
      else if a.phase.Woken? then At(s, t, Leaving).(owner := Some(t))
      else s
    case Proceed(_) =>
      if s.owner != Some(t) || a.Idle? then s
      else if a.phase.Testing? then AfterTest(s, t)
      else if a.phase.Signalling? then AfterSignal(s, t)
      else if a.phase.Leaving? then s.(owner := None, threads := s.threads[t := Idle])
      else s
    case TimeOut(_) =>
      if a.Busy? && a.phase.Waiting? && a.call.Sell?
      then At(s, t, Woken(false)).(waitSet := Without(s.waitSet, t))
      else s
  }

  function Run(s: State, steps: seq<Step>): State
    decreases |steps|
  {
    if steps == [] then s else Run(Next(s, steps[0]), steps[1..])
  }

  function Open(capacity: int): State {
    State(capacity, [], [], None, map[], [], [])
  }

  // ---------------------------------------------------------------- invariant

  ghost predicate InPhase(s: State, t: Thread, phase: Phase) {
    Doing(s, t).Busy? && Doing(s, t).phase == phase
  }

  ghost predicate Owns(a: Activity) {
    a.Busy? && (a.phase.Testing? || a.phase.Signalling? || a.phase.Leaving?)
  }

  ghost predicate Distinct(ts: seq<Thread>) {
    forall i, j :: 0 <= i < j < |ts| ==> ts[i] != ts[j]
  }

  /** The monitor's own bookkeeping. */
  ghost predicate Bookkeeping(s: State) {
    && (forall t: Thread :: t in s.waitSet <==> InPhase(s, t, Waiting))
    && Distinct(s.waitSet)
    && (forall t: Thread :: Owns(Doing(s, t)) <==> s.owner == Some(t))
  }

  ghost predicate Conserved(s: State) {
    && s.sold + s.stock == s.purchased
    && (s.stock == [] || |s.stock| <= s.capacity)
  }

  ghost predicate Waits(s: State, t: Thread, producer: bool) {
    InPhase(s, t, Waiting) && s.threads[t].call.Purchase? == producer
  }

  ghost predicate OwnerIs(s: State, phase: Phase, producer: bool) {
    && s.owner.Some? && InPhase(s, s.owner.value, phase)
    && s.threads[s.owner.value].call.Purchase? == producer
  }

  /** Customers that were pulsed and have not run since. */
  ghost function PulsedCustomers(s: State): set<Thread> {
    set t | t in s.threads && s.threads[t] == Busy(Sell, Woken(true))
  }

  /** The customer that will take one more item: pulsed and now testing, or about to be pulsed. */
  ghost function Credit(s: State): nat {
    if OwnerIs(s, Testing(true), false) || OwnerIs(s, Signalling, true) then 1 else 0
  }

  ghost predicate NoLostWakeUp(s: State) {
    && (forall t: Thread :: Waits(s, t, true) ==>
          OwnerIs(s, Signalling, false) || (|s.stock| >= s.capacity && !OwnerIs(s, Signalling, true)))
    && (forall t: Thread :: Waits(s, t, false) ==>
          OwnerIs(s, Signalling, false) || |s.stock| <= |PulsedCustomers(s)| + Credit(s))
  }

  ghost predicate Inv(s: State) {
    Bookkeeping(s) && Conserved(s) && NoLostWakeUp(s)
  }

  lemma {:induction false} WithoutMember(ts: seq<Thread>, t: Thread)
    requires Distinct(ts)
    ensures forall u :: u in Without(ts, t) <==> u in ts && u != t
    ensures Distinct(Without(ts, t))
  {
    if ts != [] {
      WithoutMember(ts[1..], t);
      assert forall u :: u in ts <==> u == ts[0] || u in ts[1..];
      var rest := Without(ts[1..], t);
      assert ts[0] !in rest;
      assert forall u :: u in [ts[0]] + rest <==> u == ts[0] || u in rest;
    }
  }

  lemma DistinctTail(ts: seq<Thread>)
    requires Distinct(ts) && ts != []
    ensures Distinct(ts[1..])
    ensures forall u :: u in ts[1..] <==> u in ts && u != ts[0]
  {
    assert ts == [ts[0]] + ts[1..];
  }

  lemma SignalKeepsBookkeeping(s: State, t: Thread)
    requires Bookkeeping(s) && InPhase(s, t, Signalling)
    ensures Bookkeeping(AfterSignal(s, t))
  {
    assert s.owner == Some(t);
    if s.waitSet != [] {
      DistinctTail(s.waitSet);
    }
  }

  lemma TestKeepsBookkeeping(s: State, t: Thread)
    requires Bookkeeping(s) && Doing(s, t).Busy? && s.threads[t].phase.Testing?
    ensures Bookkeeping(AfterTest(s, t))
  {
    assert s.owner == Some(t);
    assert !InPhase(s, t, Waiting);
    assert t !in s.waitSet;
    assert Distinct(s.waitSet + [t]);
  }

  lemma NextKeepsBookkeeping(s: State, step: Step)
    requires Bookkeeping(s)
    ensures Bookkeeping(Next(s, step))
  {
    var t := step.thread;
    match step
    case TimeOut(_) => WithoutMember(s.waitSet, t);
    case Proceed(_) =>
      if s.owner == Some(t) && Doing(s, t).Busy? {
        if s.threads[t].phase.Signalling? {
          SignalKeepsBookkeeping(s, t);
        } else if s.threads[t].phase.Testing? {
          TestKeepsBookkeeping(s, t);
        }
      }
    case _ =>
  }

  lemma NextKeepsConserved(s: State, step: Step)
    requires Bookkeeping(s) && Conserved(s)
    ensures Conserved(Next(s, step))
  {
    if s.stock != [] {
      assert s.stock == [s.stock[0]] + s.stock[1..];
    }
  }

  lemma TestKeepsWakeUps(s: State, t: Thread)
    requires Inv(s) && Doing(s, t).Busy? && s.threads[t].phase.Testing?
    ensures NoLostWakeUp(AfterTest(s, t))
  {
    var s' := AfterTest(s, t);
    assert s.owner == Some(t);
    assert PulsedCustomers(s') == PulsedCustomers(s);
    TestKeepsBookkeeping(s, t);
    forall u | Waits(s', u, true) && u != t ensures Waits(s, u, true) {}
    forall u | Waits(s', u, false) && u != t ensures Waits(s, u, false) {}
  }

  /** The pulse of a purchase wakes a customer: no producer waits while there is room. */
  lemma PulseReachesCustomer(s: State, t: Thread)
    requires Inv(s) && InPhase(s, t, Signalling) && s.threads[t].call.Purchase?
    ensures forall u :: !Waits(s, u, true)
    ensures s.waitSet != [] ==> Waits(s, s.waitSet[0], false)
  {
    assert s.owner == Some(t);
    assert OwnerIs(s, Signalling, true);
    if s.waitSet != [] {
      var h := s.waitSet[0];
      assert InPhase(s, h, Waiting);
      assert Waits(s, h, true) || Waits(s, h, false);
    }
  }

  lemma PulseKeepsWakeUps(s: State, t: Thread)
    requires Inv(s) && InPhase(s, t, Signalling) && s.threads[t].call.Purchase?
    ensures NoLostWakeUp(AfterSignal(s, t))
  {
    PulseReachesCustomer(s, t);
    var s' := AfterSignal(s, t);
    assert s.owner == Some(t);
    assert Credit(s) == 1;
    forall u | Waits(s', u, false) || Waits(s', u, true) ensures Waits(s, u, false) {
      assert Waits(s, u, true) || Waits(s, u, false);
    }
    if s.waitSet == [] {
      assert forall u :: InPhase(s, u, Waiting) <==> u in s.waitSet;
    } else {
      PulsedGrows(s, t);
    }
  }

  lemma PulsedGrows(s: State, t: Thread)
    requires InPhase(s, t, Signalling) && s.threads[t].call.Purchase?
    requires s.waitSet != [] && Waits(s, s.waitSet[0], false)
    ensures |PulsedCustomers(AfterSignal(s, t))| == |PulsedCustomers(s)| + 1
  {
    var h := s.waitSet[0];
    assert h !in PulsedCustomers(s);
    assert PulsedCustomers(AfterSignal(s, t)) == PulsedCustomers(s) + {h};
  }

  lemma PulseAllKeepsWakeUps(s: State, t: Thread)
    requires Inv(s) && InPhase(s, t, Signalling) && s.threads[t].call.Sell?
    ensures NoLostWakeUp(AfterSignal(s, t))
  {
    var s' := AfterSignal(s, t);
    assert s.owner == Some(t);
    assert s'.waitSet == [];
    SignalKeepsBookkeeping(s, t);
    forall u ensures !Waits(s', u, true) && !Waits(s', u, false) {
      assert InPhase(s', u, Waiting) <==> u in s'.waitSet;
    }
  }

  lemma EnterKeepsWakeUps(s: State, t: Thread)
    requires Inv(s)
    ensures NoLostWakeUp(Next(s, Enter(t)))
  {
    var s' := Next(s, Enter(t));
    if s' != s {
      assert PulsedCustomers(s') == PulsedCustomers(s) - {t};
      forall u | Waits(s', u, false) ensures Waits(s, u, false) {}
      forall u | Waits(s', u, true) ensures Waits(s, u, true) {}
    }
  }

  lemma NextKeepsWakeUps(s: State, step: Step)
    requires Inv(s)
    ensures NoLostWakeUp(Next(s, step))
  {
    var t, s' := step.thread, Next(s, step);
    match step
    case Enter(_) => EnterKeepsWakeUps(s, t);
    case Proceed(_) =>
      if s.owner == Some(t) && Doing(s, t).Busy? {
        if s.threads[t].phase.Testing? {
          TestKeepsWakeUps(s, t);
        } else if s.threads[t].phase.Signalling? && s.threads[t].call.Purchase? {
          PulseKeepsWakeUps(s, t);
        } else if s.threads[t].phase.Signalling? {
          PulseAllKeepsWakeUps(s, t);
        } else if s.threads[t].phase.Leaving? {
          OthersKeepWakeUps(s, s', t);
        }
      }
    case _ => OthersKeepWakeUps(s, s', t);
  }

  /** A step that moves no customer into or out of the pulsed ones, nor into the wait set. */
  lemma OthersKeepWakeUps(s: State, s': State, t: Thread)
    requires Inv(s) && s'.stock == s.stock && s'.capacity == s.capacity
    requires s'.owner == s.owner || (s'.owner.None? && s.owner == Some(t) && InPhase(s, t, Leaving))
    requires forall u :: u != t ==> Doing(s', u) == Doing(s, u)
    requires s.owner == Some(t) ==> s'.owner.None? || Doing(s', t) == Doing(s, t)
    requires !InPhase(s', t, Waiting) || Doing(s', t) == Doing(s, t)
    requires Doing(s, t) == Busy(Sell, Woken(true)) <==> Doing(s', t) == Busy(Sell, Woken(true))
    ensures NoLostWakeUp(s')
  {
    assert PulsedCustomers(s') == PulsedCustomers(s) by {
      forall u ensures u in PulsedCustomers(s') <==> u in PulsedCustomers(s) {
        assert Doing(s', u) == Doing(s, u) || u == t;
      }
    }
    forall u | Waits(s', u, false) ensures Waits(s, u, false) {}
    forall u | Waits(s', u, true) ensures Waits(s, u, true) {}
  }

  lemma NextKeepsInv(s: State, step: Step)
    requires Inv(s)
    ensures Inv(Next(s, step))
  {
    NextKeepsBookkeeping(s, step);
    NextKeepsConserved(s, step);
    NextKeepsWakeUps(s, step);
  }

  lemma {:induction false} RunKeepsInv(s: State, steps: seq<Step>)
    requires Inv(s)
    ensures Inv(Run(s, steps)) && Run(s, steps).capacity == s.capacity
    decreases |steps|
  {
    if steps != [] {
      NextKeepsInv(s, steps[0]);
      RunKeepsInv(Next(s, steps[0]), steps[1..]);
    }
  }

  lemma OpenInv(capacity: int)
    ensures Inv(Open(capacity))
  {
    var s := Open(capacity);
    assert forall t :: Doing(s, t) == Idle;
  }

  // ---------------------------------------------------------------- every run

  /** Nothing is lost, duplicated or reordered, and the stock never exceeds the capacity. */
  lemma StockIsSafe(capacity: int, steps: seq<Step>)
    ensures var s := Run(Open(capacity), steps);
            s.sold + s.stock == s.purchased && (s.stock == [] || |s.stock| <= capacity)
  {
    OpenInv(capacity);
    RunKeepsInv(Open(capacity), steps);
  }

  /** Whenever the monitor is free, whoever waits has a reason to. */
  lemma WaitersHaveAReason(capacity: int, steps: seq<Step>, t: Thread)
    ensures var s := Run(Open(capacity), steps);
            s.owner.None? ==>
              && (Waits(s, t, true) ==> |s.stock| >= capacity)
              && (Waits(s, t, false) ==> |s.stock| <= |PulsedCustomers(s)|)
  {
    OpenInv(capacity);
    RunKeepsInv(Open(capacity), steps);
  }

  /** The single Pulse after a purchase is never spent on a producer. */
  lemma PulseNeverLandsOnProducer(capacity: int, steps: seq<Step>, t: Thread)
    ensures var s := Run(Open(capacity), steps);
            InPhase(s, t, Signalling) && s.threads[t].call.Purchase? && s.waitSet != []
            ==> Waits(s, s.waitSet[0], false)
  {
    OpenInv(capacity);
    RunKeepsInv(Open(capacity), steps);
    var s := Run(Open(capacity), steps);
    if InPhase(s, t, Signalling) && s.threads[t].call.Purchase? {
      PulseReachesCustomer(s, t);
    }
  }

  /** With a customer waiting and goods in stock, some pulsed customer buys as soon as it runs. */
  lemma SomePulsedCustomerBuys(capacity: int, steps: seq<Step>, t: Thread) returns (buyer: Thread)
    requires var s := Run(Open(capacity), steps); s.owner.None? && Waits(s, t, false) && s.stock != []
    ensures var s := Run(Open(capacity), steps);
            Run(s, [Enter(buyer), Proceed(buyer)]).sold == s.sold + [s.stock[0]]
  {
    var s := Run(Open(capacity), steps);
    WaitersHaveAReason(capacity, steps, t);
    assert PulsedCustomers(s) != {};
    buyer :| buyer in PulsedCustomers(s);
    var s1 := Next(s, Enter(buyer));
    var enter: Step, proceed: Step := Enter(buyer), Proceed(buyer);
    assert [enter, proceed][1..] == [proceed] && [proceed][1..] == [];
    assert Run(s1, [proceed]) == Run(Next(s1, proceed), []);
  }

  /** Nobody can run any further; only a time-out or a new call could change the state. */
  ghost predicate Stuck(s: State) {
    forall t :: Next(s, Enter(t)) == s && Next(s, Proceed(t)) == s
  }

  lemma OwnerCanProceed(s: State, t: Thread)
    requires Inv(s) && s.owner == Some(t)
    ensures Next(s, Proceed(t)) != s
  {
    assert Owns(Doing(s, t));
    assert Doing(Next(s, Proceed(t)), t) != Doing(s, t);
  }

  lemma StuckThreadWaits(s: State, t: Thread)
    requires Inv(s) && Stuck(s)
    ensures s.owner.None? && (Doing(s, t).Busy? ==> InPhase(s, t, Waiting))
  {
    if s.owner.Some? {
      var u := s.owner.value;
      OwnerCanProceed(s, u);
      assert false;
    }
    assert Next(s, Enter(t)).owner == s.owner;
  }

  /** A standstill is a shop that is sold out or full, never producers and customers at once. */
  lemma NoStandoff(capacity: int, steps: seq<Step>, producer: Thread, customer: Thread)
    requires capacity >= 1
    ensures var s := Run(Open(capacity), steps);
            Stuck(s) ==>
              && (Waits(s, customer, false) ==> s.stock == [])
              && (Waits(s, producer, true) ==> |s.stock| == capacity)
              && !(Waits(s, customer, false) && Waits(s, producer, true))
  {
    OpenInv(capacity);
    RunKeepsInv(Open(capacity), steps);
    var s := Run(Open(capacity), steps);
    if Stuck(s) {
      StuckThreadWaits(s, customer);
      if PulsedCustomers(s) != {} {
        var u :| u in PulsedCustomers(s);
        StuckThreadWaits(s, u);
        assert false;
      }
      WaitersHaveAReason(capacity, steps, customer);
      WaitersHaveAReason(capacity, steps, producer);
      StockIsSafe(capacity, steps);
    }
  }

  // ---------------------------------------------------------------- the store

  /** The store and its monitor. Each method is one uninterrupted stretch of a thread's call. */
  class Store {
    const capacity: int
    var stock: seq<Product>
    var waitSet: seq<Thread>
    var owner: Option<Thread>
    var threads: map<Thread, Activity>
    ghost var purchased: seq<Product>
    ghost var sold: seq<Product>

    ghost function View(): State
      reads this
    {
      State(capacity, stock, waitSet, owner, threads, purchased, sold)
    }

    constructor (maxInStock: int)
      ensures View() == Open(maxInStock)
    {
      capacity := maxInStock;
      stock, waitSet, owner, threads, purchased, sold := [], [], None, map[], [], [];
    }

    method Wait(t: Thread)
      requires Doing(View(), t).Busy?
      modifies this
      ensures View() == At(old(View()), t, Waiting).(waitSet := old(waitSet) + [t], owner := None)
    {
      threads := threads[t := Busy(threads[t].call, Waiting)];
      waitSet := waitSet + [t];
      owner := None;
    }

    method Pulse()
      requires Inv(View())
      modifies this
      ensures View() == if old(waitSet) == [] then old(View())
                        else old(View()).(threads := Wake(old(threads), {old(waitSet)[0]}),
                                          waitSet := old(waitSet)[1..])
    {
      if waitSet != [] {
        var u := waitSet[0];
        assert InPhase(View(), u, Waiting);
        threads := threads[u := Busy(threads[u].call, Woken(true))];
        waitSet := waitSet[1..];
        assert threads == Wake(old(threads), {u});
      }
    }

    static lemma WakeOneMore(threads: map<Thread, Activity>, ts: seq<Thread>, u: Thread)
      requires u in threads && threads[u].Busy?
      ensures Wake(threads, set t | t in ts)[u := Busy(threads[u].call, Woken(true))]
           == Wake(threads, set t | t in ts + [u])
    {
    }

    method PulseAll()
      requires forall u :: u in waitSet ==> u in threads && threads[u].Busy?
      modifies `waitSet, `threads
      ensures waitSet == []
      ensures threads == Wake(old(threads), set u | u in old(waitSet))
    {
      ghost var all, before, woken: seq<Thread> := waitSet, threads, [];
      while waitSet != []
        invariant woken + waitSet == all
        invariant threads == Wake(before, set u | u in woken)
        decreases |waitSet|
      {
        var u := waitSet[0];
        assert all[|woken|] == u && u in before && before[u].Busy?;
        WakeOneMore(before, woken, u);
        threads := threads[u := Busy(threads[u].call, Woken(true))];
        woken := woken + [u];
        waitSet := waitSet[1..];
      }
      assert woken == all;
    }

    /** The owner's next statement inside PurchaseProduct, up to where it can be interrupted. */
    method ContinuePurchase(t: Thread)
      requires Inv(View()) && owner == Some(t) && Doing(View(), t).Busy? && threads[t].call.Purchase?
      modifies this
      ensures View() == Next(old(View()), Proceed(t))
    {
      if threads[t].phase.Testing? {
        if |stock| >= capacity {
          Wait(t);
        } else {
          stock := stock + [threads[t].call.product];
          purchased := purchased + [threads[t].call.product];
          threads := threads[t := Busy(threads[t].call, Signalling)];
        }
      } else if threads[t].phase.Signalling? {
        Pulse();
        threads := threads[t := Busy(threads[t].call, Leaving)];
      } else {
        owner := None;
        threads := threads[t := Idle];
      }
    }

    /** The owner's next statement inside Sell; `answer` is set when a product is taken. */
    method ContinueSell(t: Thread) returns (answer: Option<Product>)
      requires Inv(View()) && owner == Some(t) && Doing(View(), t).Busy? && threads[t].call.Sell?
      modifies this
      ensures View() == Next(old(View()), Proceed(t))
      ensures answer.Some? ==> sold == old(sold) + [answer.value]
      ensures answer.None? ==> sold == old(sold)
    {
      answer := None;
      if threads[t].phase.Testing? {
        if stock == [] {
          Wait(t);
        } else {
          answer := Some(stock[0]);
          sold := sold + [stock[0]];
          stock := stock[1..];
          threads := threads[t := Busy(threads[t].call, Signalling)];
        }
      } else if threads[t].phase.Signalling? {
        PulseAll();
        threads := threads[t := Busy(threads[t].call, Leaving)];
      } else {
        owner := None;
        threads := threads[t := Idle];
      }
    }

    /** A thread calls PurchaseProduct or Sell and comes to the lock statement. */
    method Begin(t: Thread, call: Call)
      modifies this
      ensures View() == Next(old(View()), Step.Begin(t, call))
    {
      if t !in threads || threads[t].Idle? {
        threads := threads[t := Busy(call, Entering)];
      }
    }

    /** The one second of a waiting customer is over. */
    method TimeOut(t: Thread)
      modifies this
      ensures View() == Next(old(View()), Step.TimeOut(t))
    {
      if t in threads && threads[t].Busy? && threads[t].phase.Waiting? && threads[t].call.Sell? {
        waitSet := Without(waitSet, t);
        threads := threads[t := Busy(threads[t].call, Woken(false))];
      }
    }

    /**
      A thread gets the free monitor: it tests the loop condition, for the first time or again, but
      after a time-out it leaves with null.
    */
    method Enter(t: Thread)
      modifies this
      ensures View() == Next(old(View()), Step.Enter(t))
    {
      if owner.Some? || t !in threads || threads[t].Idle? {
        return;
      }
      if threads[t].phase.Entering? {
        threads := threads[t := Busy(threads[t].call, Testing(false))];
        owner := Some(t);
      } else if threads[t].phase.Woken? {
        if threads[t].phase.pulsed || threads[t].call.Purchase? {
          threads := threads[t := Busy(threads[t].call, Testing(true))];
        } else {
          threads := threads[t := Busy(threads[t].call, Leaving)];
        }
        owner := Some(t);
      }
    }
  }
}
