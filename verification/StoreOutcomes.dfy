/**
  How calls of the store end: every purchase adds its own product once, and every sale takes one
  product or times out, never both and never neither.
*/
module StoreOutcomes {
  import opened Wrappers
  import opened BoundedStore

  // ---------------------------------------------------------------- sales

  /** Inside Sell, with neither a product nor a time-out yet. */
  ghost predicate SaleIsOpen(s: State, t: Thread) {
    var a := Doing(s, t);
    a.Busy? && a.call.Sell? && (a.phase.Entering? || a.phase.Testing? || a.phase.Waiting? || a.phase == Woken(true))
  }

  ghost predicate BeginsSale(s: State, step: Step, t: Thread) {
    step == Begin(t, Sell) && Doing(s, t).Idle?
  }

  /** The thread takes the oldest product. */
  ghost predicate TakesProduct(s: State, step: Step, t: Thread) {
    step == Proceed(t) && s.stock != [] && Next(s, step).sold == s.sold + [s.stock[0]]
  }

  ghost predicate TimesOut(s: State, step: Step, t: Thread) {
    step == TimeOut(t) && Waits(s, t, false)
  }

  ghost function Sales(s: State, steps: seq<Step>, t: Thread): nat
    decreases |steps|
  {
    if steps == [] then 0
    else (if BeginsSale(s, steps[0], t) then 1 else 0) + Sales(Next(s, steps[0]), steps[1..], t)
  }

  ghost function ProductsTaken(s: State, steps: seq<Step>, t: Thread): nat
    decreases |steps|
  {
    if steps == [] then 0
    else (if TakesProduct(s, steps[0], t) then 1 else 0) + ProductsTaken(Next(s, steps[0]), steps[1..], t)
  }

  ghost function TimeOuts(s: State, steps: seq<Step>, t: Thread): nat
    decreases |steps|
  {
    if steps == [] then 0
    else (if TimesOut(s, steps[0], t) then 1 else 0) + TimeOuts(Next(s, steps[0]), steps[1..], t)
  }

  /** Another thread can only wake this one. */
  lemma OthersOnlyWake(s: State, step: Step, t: Thread)
    requires Inv(s) && step.thread != t
    ensures Doing(Next(s, step), t) == Doing(s, t)
         || (InPhase(s, t, Waiting) && Doing(Next(s, step), t) == Busy(s.threads[t].call, Woken(true)))
  {
  }

  /** The owner of the monitor is testing, signalling or leaving. */
  lemma OwnProceed(s: State, t: Thread)
    requires Inv(s) && s.owner == Some(t)
    ensures var s', a := Next(s, Proceed(t)), Doing(s, t);
            && a.Busy?
            && if a.phase.Leaving? then Doing(s', t) == Idle && s'.sold == s.sold && s'.purchased == s.purchased
               else if a.phase.Signalling? then
                 s'.sold == s.sold && s'.purchased == s.purchased && Doing(s', t) == Busy(a.call, Leaving)
               else if a.call.Sell? then
                 if s.stock == [] then s'.sold == s.sold && Doing(s', t) == Busy(a.call, Waiting)
                 else s'.sold == s.sold + [s.stock[0]] && Doing(s', t) == Busy(a.call, Signalling)
               else if |s.stock| >= s.capacity then s'.purchased == s.purchased && Doing(s', t) == Busy(a.call, Waiting)
               else s'.purchased == s.purchased + [a.call.product] && Doing(s', t) == Busy(a.call, Signalling)
  {
    assert Owns(Doing(s, t));
  }

  lemma OneStepOfSales(s: State, step: Step, t: Thread)
    requires Inv(s)
    ensures (if TakesProduct(s, step, t) then 1 else 0) + (if TimesOut(s, step, t) then 1 else 0)
              + (if SaleIsOpen(Next(s, step), t) then 1 else 0)
            == (if BeginsSale(s, step, t) then 1 else 0) + if SaleIsOpen(s, t) then 1 else 0
  {
    if step.thread != t {
      OthersOnlyWake(s, step, t);
    } else if step.Proceed? && s.owner == Some(t) {
      assert Owns(Doing(s, t));
      OwnProceed(s, t);
    } else if step.Proceed? {
      assert Next(s, step) == s;
    }
  }

  /** Along every run: the sales of a thread are those that took a product, those that timed out, and an open one. */
  lemma {:induction false} SalesAddUp(s: State, steps: seq<Step>, t: Thread)
    requires Inv(s)
    ensures ProductsTaken(s, steps, t) + TimeOuts(s, steps, t) + (if SaleIsOpen(Run(s, steps), t) then 1 else 0)
            == Sales(s, steps, t) + if SaleIsOpen(s, t) then 1 else 0
    decreases |steps|
  {
    if steps != [] {
      OneStepOfSales(s, steps[0], t);
      NextKeepsInv(s, steps[0]);
      SalesAddUp(Next(s, steps[0]), steps[1..], t);
    }
  }

  /** Every sale that has ended took exactly one product or timed out, and not both. */
  lemma SaleEndsOneWay(capacity: int, history: seq<Step>, steps: seq<Step>, t: Thread)
    requires Doing(Run(Open(capacity), history), t).Idle?
    requires var s := Run(Open(capacity), history); Sales(s, steps, t) == 1 && Doing(Run(s, steps), t).Idle?
    ensures var s := Run(Open(capacity), history); ProductsTaken(s, steps, t) + TimeOuts(s, steps, t) == 1
  {
    OpenInv(capacity);
    RunKeepsInv(Open(capacity), history);
    SalesAddUp(Run(Open(capacity), history), steps, t);
  }

  /** A customer whose second is over leaves as soon as it has the monitor, even with goods in stock. */
  lemma TimeOutEndsSale(capacity: int, history: seq<Step>, c: Thread)
    requires var s := Run(Open(capacity), history); s.owner.None? && Waits(s, c, false)
    ensures var s := Run(Open(capacity), history);
            var t := Run(s, [TimeOut(c), Enter(c), Proceed(c)]);
            Doing(t, c).Idle? && t.owner.None? && t.stock == s.stock && t.sold == s.sold && c !in t.waitSet
  {
    var s := Run(Open(capacity), history);
    OpenInv(capacity);
    RunKeepsInv(Open(capacity), history);
    RunOfThree(s, TimeOut(c), Enter(c), Proceed(c));
    var t := Run(s, [TimeOut(c), Enter(c), Proceed(c)]);
    RunKeepsInv(s, [TimeOut(c), Enter(c), Proceed(c)]);
    assert !InPhase(t, c, Waiting);
  }

  lemma RunOfThree(s: State, a: Step, b: Step, c: Step)
    ensures Run(s, [a, b, c]) == Next(Next(Next(s, a), b), c)
  {
    assert [a, b, c][1..] == [b, c] && [b, c][1..] == [c] && [c][1..] == [];
    assert Run(Next(s, a), [b, c]) == Run(Next(Next(s, a), b), [c]);
  }

  // ---------------------------------------------------------------- purchases

  /** The product of a purchase that is not in the queue yet. */
  ghost function Pending(s: State, t: Thread): seq<Product> {
    var a := Doing(s, t);
    if a.Busy? && a.call.Purchase? && !a.phase.Signalling? && !a.phase.Leaving? then [a.call.product] else []
  }

  /** The products a thread brings, in the order of its calls. */
  ghost function Brought(s: State, steps: seq<Step>, t: Thread): seq<Product>
    decreases |steps|
  {
    if steps == [] then []
    else BroughtBy(s, steps[0], t) + Brought(Next(s, steps[0]), steps[1..], t)
  }

  ghost function BroughtBy(s: State, step: Step, t: Thread): seq<Product> {
    if step.Begin? && step.thread == t && step.call.Purchase? && Doing(s, t).Idle? then [step.call.product] else []
  }

  /** The products its steps add to the purchased ones. */
  ghost function Added(s: State, steps: seq<Step>, t: Thread): seq<Product>
    decreases |steps|
  {
    if steps == [] then []
    else AddedBy(s, steps[0], t) + Added(Next(s, steps[0]), steps[1..], t)
  }

  ghost function AddedBy(s: State, step: Step, t: Thread): seq<Product> {
    var s' := Next(s, step);
    if step == Proceed(t) && s.purchased <= s'.purchased then s'.purchased[|s.purchased|..] else []
  }

  lemma OneStepOfPurchases(s: State, step: Step, t: Thread)
    requires Inv(s)
    ensures AddedBy(s, step, t) + Pending(Next(s, step), t) == Pending(s, t) + BroughtBy(s, step, t)
  {
    if step.thread != t {
      OthersOnlyWake(s, step, t);
    } else if step.Proceed? && s.owner == Some(t) {
      assert Owns(Doing(s, t));
      OwnProceed(s, t);
    } else if step.Proceed? {
      assert Next(s, step) == s;
    }
  }

  /** Along every run: a thread adds exactly the products it brings, in that order, but for a pending one. */
  lemma {:induction false} PurchasesAddUp(s: State, steps: seq<Step>, t: Thread)
    requires Inv(s)
    ensures Added(s, steps, t) + Pending(Run(s, steps), t) == Pending(s, t) + Brought(s, steps, t)
    decreases |steps|
  {
    if steps != [] {
      var s' := Next(s, steps[0]);
      OneStepOfPurchases(s, steps[0], t);
      NextKeepsInv(s, steps[0]);
      PurchasesAddUp(s', steps[1..], t);
      Regrouped(AddedBy(s, steps[0], t), Added(s', steps[1..], t), Pending(Run(s, steps), t), Pending(s', t),
                Brought(s', steps[1..], t), Pending(s, t), BroughtBy(s, steps[0], t));
    }
  }

  lemma Regrouped(a: seq<Product>, b: seq<Product>, c: seq<Product>, d: seq<Product>, e: seq<Product>, f: seq<Product>,
                  g: seq<Product>)
    requires b + c == d + e && a + d == f + g
    ensures a + b + c == f + (g + e)
  {
    calc {
      a + b + c;
      a + (b + c);
      a + (d + e);
      (a + d) + e;
      (f + g) + e;
      f + (g + e);
    }
  }

  /** A purchase that has ended added its own product, once. */
  lemma PurchaseAddsItsProduct(capacity: int, history: seq<Step>, steps: seq<Step>, t: Thread)
    requires Doing(Run(Open(capacity), history), t).Idle?
    requires Doing(Run(Run(Open(capacity), history), steps), t).Idle?
    ensures var s := Run(Open(capacity), history); Added(s, steps, t) == Brought(s, steps, t)
  {
    OpenInv(capacity);
    RunKeepsInv(Open(capacity), history);
    var s := Run(Open(capacity), history);
    PurchasesAddUp(s, steps, t);
    assert Added(s, steps, t) + [] == Added(s, steps, t) && [] + Brought(s, steps, t) == Brought(s, steps, t);
  }

  // ---------------------------------------------------------------- who is woken

  ghost predicate IsFirst(line: seq<Thread>, u: Thread) {
    line != [] && line[0] == u
  }

  /** A purchase wakes the thread that waits longest and nobody else; a sale wakes everybody. */
  lemma WhoIsWoken(capacity: int, history: seq<Step>, t: Thread, u: Thread)
    requires InPhase(Run(Open(capacity), history), t, Signalling)
    ensures var s := Run(Open(capacity), history);
            var s' := Next(s, Proceed(t));
            InPhase(s, u, Waiting) ==>
              InPhase(s', u, if s.threads[t].call.Purchase? && !IsFirst(s.waitSet, u) then Waiting else Woken(true))
  {
    var s := Run(Open(capacity), history);
    OpenInv(capacity);
    RunKeepsInv(Open(capacity), history);
    assert Owns(Doing(s, t));
    if InPhase(s, u, Waiting) {
      assert u in s.waitSet && u in s.threads;
      assert !InPhase(s, t, Waiting);
    }
  }

  /** Whoever starts to wait is the last in line, and the others keep their places. */
  lemma WaitsInLine(s: State, step: Step, t: Thread)
    requires Inv(s) && t !in s.waitSet && t in Next(s, step).waitSet
    ensures Next(s, step).waitSet == s.waitSet + [t]
  {
    if step.TimeOut? {
      WithoutMember(s.waitSet, step.thread);
    }
  }
}
