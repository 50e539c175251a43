/**
  How long the locks last, said of the steps alone: write locks of one owner add their leases up,
  read locks take the longest one, and an unlock releases the lock when it is the last one.
*/
module RedisLeases {
  import opened Wrappers
  import opened Helpers
  import opened RedisRwLock

  // ---------------------------------------------------------------- write locks

  /** The owner locks for writing, for at least a second each time; all others may try anything. */
  ghost predicate OnlyWriteLocks(o: Owner, steps: seq<Step>) {
    forall i :: 0 <= i < |steps| ==>
      steps[i].Tick? || steps[i].owner != o || (steps[i].WriteLock? && steps[i].timeout >= 1)
  }

  /** All seconds the owner asked for. */
  ghost function WriteSeconds(o: Owner, steps: seq<Step>): int {
    if steps == [] then 0
    else (if steps[0].WriteLock? && steps[0].owner == o then steps[0].timeout else 0) + WriteSeconds(o, steps[1..])
  }

  ghost function Elapsed(steps: seq<Step>): nat {
    if steps == [] then 0 else (if steps[0].Tick? then steps[0].ms else 0) + Elapsed(steps[1..])
  }

  /** At no moment more time has passed than the owner had asked for until then. */
  ghost predicate InTime(o: Owner, left: int, steps: seq<Step>)
    decreases |steps|
  {
    && left >= 0
    && (steps == [] ||
        InTime(o, left + 1000 * WriteSeconds(o, [steps[0]]) - Elapsed([steps[0]]), steps[1..]))
  }

  ghost predicate HeldUntil(s: State, o: Owner, end: int) {
    && Inv(s) && s.hash.Some? && s.hash.value.mode == Write && HExists(s, WriteField(o))
    && s.hash.value.expireAt == Some(end)
  }

  lemma OneStep(o: Owner, step: Step)
    ensures WriteSeconds(o, [step]) == if step.WriteLock? && step.owner == o then step.timeout else 0
    ensures Elapsed([step]) == if step.Tick? then step.ms else 0
  {
    assert [step][1..] == [];
  }

  lemma HeldOneStep(s: State, o: Owner, end: int, step: Step)
    requires HeldUntil(s, o, end) && OnlyWriteLocks(o, [step])
    requires s.now + Elapsed([step]) <= end + 1000 * WriteSeconds(o, [step])
    ensures HeldUntil(After(s, step), o, end + 1000 * WriteSeconds(o, [step]))
    ensures After(s, step).now == s.now + Elapsed([step])
  {
    AfterKeepsInv(s, step);
    OneStep(o, step);
    assert [step][0] == step;
  }

  lemma {:induction false} HeldOn(s: State, o: Owner, end: int, steps: seq<Step>)
    requires HeldUntil(s, o, end) && OnlyWriteLocks(o, steps) && InTime(o, end - s.now, steps)
    ensures HeldUntil(Run(s, steps), o, end + 1000 * WriteSeconds(o, steps))
    ensures Run(s, steps).now <= end + 1000 * WriteSeconds(o, steps)
    decreases |steps|
  {
    if steps != [] {
      var step := steps[0];
      OneStep(o, step);
      HeldOneStep(s, o, end, step);
      HeldOn(After(s, step), o, end + 1000 * WriteSeconds(o, [step]), steps[1..]);
    }
  }

  lemma RefusedUntil(s: State, o: Owner, end: int, ms: nat, w: Owner)
    requires HeldUntil(s, o, end) && w != o
    ensures var t := After(s, Tick(ms));
            && (WriteGranted(t, w) <==> s.now + ms > end)
            && (ReadGranted(t, w) <==> s.now + ms > end)
  {
  }

  /**
    From a free lock on, write locks of one owner add their leases up: every other owner is refused
    until the start plus all seconds asked for, and granted after that.
  */
  lemma WriteLeasesAddUp(now: int, history: seq<Step>, o: Owner, first: int, steps: seq<Step>, ms: nat, w: Owner)
    requires Run(Fresh(now), history).hash.None? && first >= 1 && w != o
    requires OnlyWriteLocks(o, steps) && InTime(o, 1000 * first, steps)
    ensures var s := Run(Fresh(now), history);
            var t := After(Run(After(s, WriteLock(o, first)), steps), Tick(ms));
            && (WriteGranted(t, w) <==> t.now > s.now + 1000 * (first + WriteSeconds(o, steps)))
            && (ReadGranted(t, w) <==> t.now > s.now + 1000 * (first + WriteSeconds(o, steps)))
  {
    var s := Run(Fresh(now), history);
    RunKeepsInv(Fresh(now), history);
    var s1 := After(s, WriteLock(o, first));
    AfterKeepsInv(s, WriteLock(o, first));
    HeldOn(s1, o, s.now + 1000 * first, steps);
    RefusedUntil(Run(s1, steps), o, s.now + 1000 * (first + WriteSeconds(o, steps)), ms, w);
  }

  /** An unlock that is not the last one sets the lease to what it carries, in milliseconds. */
  lemma PartialUnlockSetsLease(now: int, history: seq<Step>, o: Owner, lease: int, ms: nat, w: Owner)
    requires Counter(Run(Fresh(now), history), WriteField(o)) >= 2 && lease >= 1 && w != o
    ensures var t := After(After(Run(Fresh(now), history), WriteUnlock(o, lease)), Tick(ms));
            (WriteGranted(t, w) <==> ms > lease) && (ReadGranted(t, w) <==> ms > lease)
  {
    var s := Run(Fresh(now), history);
    RunKeepsInv(Fresh(now), history);
    AfterKeepsInv(s, WriteUnlock(o, lease));
    RefusedUntil(After(s, WriteUnlock(o, lease)), o, s.now + lease, ms, w);
  }

  /** A read lock of the writer itself lengthens the lease only if its own is longer. */
  lemma OwnReadTakesTheLonger(now: int, history: seq<Step>, o: Owner, end: int, timeout: int, ms: nat, w: Owner)
    requires HeldUntil(Run(Fresh(now), history), o, end) && timeout >= 1 && w != o
    ensures var s := Run(Fresh(now), history);
            var t := After(After(s, ReadLock(o, timeout)), Tick(ms));
            && (WriteGranted(t, w) <==> t.now > Max(end, s.now + 1000 * timeout))
            && (ReadGranted(t, w) <==> t.now > Max(end, s.now + 1000 * timeout))
  {
    var s := Run(Fresh(now), history);
    AfterKeepsInv(s, ReadLock(o, timeout));
    RefusedUntil(After(s, ReadLock(o, timeout)), o, Max(end, s.now + 1000 * timeout), ms, w);
  }

  // ---------------------------------------------------------------- read locks

  /** Anybody locks for reading, for at least a second each time, or tries to write; nobody stops reading. */
  ghost predicate NoReadUnlocks(steps: seq<Step>) {
    forall i :: 0 <= i < |steps| ==> !steps[i].ReadUnlock? && (steps[i].ReadLock? ==> steps[i].timeout >= 1)
  }

  /** The latest end of a lease, and whether it was never passed. */
  ghost function LatestEnd(now: int, end: int, steps: seq<Step>): int
    decreases |steps|
  {
    if steps == [] then end
    else
      match steps[0]
      case Tick(ms) => LatestEnd(now + ms, end, steps[1..])
      case ReadLock(_, timeout) => LatestEnd(now, Max(end, now + 1000 * timeout), steps[1..])
      case _ => LatestEnd(now, end, steps[1..])
  }

  ghost predicate NeverPassed(now: int, end: int, steps: seq<Step>)
    decreases |steps|
  {
    && now <= end
    && (steps == [] ||
        match steps[0]
        case Tick(ms) => NeverPassed(now + ms, end, steps[1..])
        case ReadLock(_, timeout) => NeverPassed(now, Max(end, now + 1000 * timeout), steps[1..])
        case _ => NeverPassed(now, end, steps[1..]))
  }

  ghost predicate ReadUntil(s: State, end: int) {
    Inv(s) && s.hash.Some? && s.hash.value.mode == Read && s.hash.value.expireAt == Some(end)
  }

  lemma {:induction false} ReadOn(s: State, end: int, steps: seq<Step>)
    requires ReadUntil(s, end) && NoReadUnlocks(steps) && NeverPassed(s.now, end, steps)
    ensures ReadUntil(Run(s, steps), LatestEnd(s.now, end, steps))
    decreases |steps|
  {
    if steps != [] {
      var step, t := steps[0], After(s, steps[0]);
      AfterKeepsInv(s, step);
      var end' := if step.ReadLock? then Max(end, s.now + 1000 * step.timeout) else end;
      ReadOneStep(s, end, step, end');
      ReadOn(t, end', steps[1..]);
    }
  }

  lemma ReadOneStep(s: State, end: int, step: Step, end': int)
    requires ReadUntil(s, end) && NoReadUnlocks([step]) && Inv(After(s, step))
    requires end' == if step.ReadLock? then Max(end, s.now + 1000 * step.timeout) else end
    requires step.Tick? ==> s.now + step.ms <= end
    ensures ReadUntil(After(s, step), end') && After(s, step).now == s.now + if step.Tick? then step.ms else 0
  {
    assert [step][0] == step;
  }

  /**
    From a free lock on, read locks take the longest lease, whoever asks: every write lock is refused
    until the latest end and granted after that, and every read lock is granted all the time.
  */
  lemma ReadLeasesTakeTheLongest(now: int, history: seq<Step>, o: Owner, first: int, steps: seq<Step>, ms: nat,
                                 w: Owner)
    requires Run(Fresh(now), history).hash.None? && first >= 1 && NoReadUnlocks(steps)
    requires var s := Run(Fresh(now), history); NeverPassed(s.now, s.now + 1000 * first, steps)
    ensures var s := Run(Fresh(now), history);
            var t := After(Run(After(s, ReadLock(o, first)), steps), Tick(ms));
            && (WriteGranted(t, w) <==> t.now > LatestEnd(s.now, s.now + 1000 * first, steps))
            && ReadGranted(t, w)
  {
    var s := Run(Fresh(now), history);
    RunKeepsInv(Fresh(now), history);
    AfterKeepsInv(s, ReadLock(o, first));
    ReadOn(After(s, ReadLock(o, first)), s.now + 1000 * first, steps);
  }

  // ---------------------------------------------------------------- counting

  ghost predicate Takes(s: State, step: Step, f: Field) {
    Locks(step, f) && if f.ReadField? then ReadGranted(s, f.owner) else WriteGranted(s, f.owner)
  }

  /** Every granted lock counts one, every unlock of a holder takes one off, and nothing else changes a count. */
  lemma StepCounts(s: State, step: Step, f: Field)
    requires Inv(s) && After(s, step).hash.Some?
    ensures Counter(After(s, step), f) == Counter(s, f)
              + (if Takes(s, step, f) then 1 else 0) - if Unlocks(step, f) && Counter(s, f) >= 1 then 1 else 0
  {
  }

  /** An unlock frees the lock exactly if it gives up the only hold there is. */
  lemma LastUnlockFrees(s: State, step: Step, f: Field)
    requires Inv(s) && Unlocks(step, f) && Counter(s, f) >= 1 && (step.WriteUnlock? ==> step.lease >= 1)
    ensures After(s, step).hash.None? <==> Counter(s, f) == 1 && OnlyHold(s, f)
  {
    var counters := s.hash.value.counters;
    if OnlyHold(s, f) {
      assert forall f' :: f' in counters ==> Counter(s, f') >= 1;
      assert counters - {f} == map[];
    } else {
      var f' :| Counter(s, f') >= 1 && f' != f;
      assert f' in counters - {f};
    }
  }

  ghost predicate OnlyHold(s: State, f: Field) {
    forall f' :: Counter(s, f') >= 1 ==> f' == f
  }

  /** A writer that unlocks while it reads becomes a reader, for the rest of the lease. */
  lemma WriterBecomesReader(s: State, o: Owner, lease: int)
    requires Inv(s) && Counter(s, WriteField(o)) == 1 && Counter(s, ReadField(o)) >= 1
    ensures var t := After(s, WriteUnlock(o, lease));
            && t.hash.Some? && t.hash.value.mode == Read && t.now == s.now
            && t.hash.value.expireAt == s.hash.value.expireAt
            && Counter(t, ReadField(o)) == Counter(s, ReadField(o)) && Counter(t, WriteField(o)) == 0
            && forall w :: ReadGranted(t, w) && !WriteGranted(t, w)
  {
    assert ReadField(o) in s.hash.value.counters - {WriteField(o)};
  }

  // ---------------------------------------------------------------- the keys of the holds

  /**
    A granted read lock sets the key of the hold it adds, for its own lease; a read unlock removes the
    key of the hold it gives up; time removes what has expired; nothing else touches these keys.
  */
  lemma HoldKeysPerStep(s: State, step: Step, key: string)
    requires Inv(s) && (step.ReadLock? ==> step.timeout >= 1)
    ensures var s' := After(s, step);
            if step.ReadLock? && ReadGranted(s, step.owner)
               && key == HoldKey(step.owner, Counter(s', ReadField(step.owner)))
            then key in s'.holds && s'.holds[key] == Some(s.now + 1000 * step.timeout)
            else if step.ReadUnlock? && HExists(s, ReadField(step.owner))
                    && key == HoldKey(step.owner, Counter(s, ReadField(step.owner)))
            then key !in s'.holds
            else (key in s'.holds <==> key in s.holds && !(step.Tick? && Expired(s.holds[key], s'.now)))
                 && (key in s'.holds ==> s'.holds[key] == s.holds[key])
  {
  }

  /** Only read locks, for at least a second each, and read unlocks. */
  ghost predicate OnlyReads(steps: seq<Step>) {
    forall i :: 0 <= i < |steps| ==> match steps[i]
                                     case ReadLock(_, timeout) => timeout >= 1
                                     case ReadUnlock(_) => true
                                     case Tick(_) => true
                                     case _ => false
  }

  /** The key belongs to a hold there is, and does not outlast the hash. */
  ghost predicate IsHeldKey(s: State, key: string, o: Owner, i: int) {
    && key == HoldKey(o, i) && 1 <= i <= Counter(s, ReadField(o))
    && key in s.holds && s.holds[key].Some? && s.hash.Some? && s.hash.value.expireAt.Some?
    && s.holds[key].value <= s.hash.value.expireAt.value
  }

  ghost predicate KeysAreHeld(s: State) {
    && Inv(s) && (s.hash.Some? ==> s.hash.value.mode == Read)
    && forall key :: key in s.holds ==> exists o, i :: IsHeldKey(s, key, o, i)
  }

  lemma StepKeepsKeys(s: State, step: Step)
    requires KeysAreHeld(s) && OnlyReads([step])
    ensures KeysAreHeld(After(s, step))
  {
    var s' := After(s, step);
    AfterKeepsInv(s, step);
    assert [step][0] == step;
    forall key | key in s'.holds ensures exists o, i :: IsHeldKey(s', key, o, i) {
      KeyAfterStep(s, step, s', key);
    }
  }

  lemma KeyAfterStep(s: State, step: Step, s': State, key: string)
    requires KeysAreHeld(s) && OnlyReads([step]) && s' == After(s, step) && Inv(s') && key in s'.holds
    ensures exists o, i :: IsHeldKey(s', key, o, i)
  {
    assert [step][0] == step;
    HoldKeysPerStep(s, step, key);
    if step.ReadLock? && key == HoldKey(step.owner, Counter(s', ReadField(step.owner))) {
      NewKeyIsHeld(s, step.owner, step.timeout, s', key);
    } else {
      var o, i :| IsHeldKey(s, key, o, i);
      match step
      case ReadLock(w, timeout) => KeyAfterLock(s, w, timeout, s', key, o, i);
      case ReadUnlock(w) => KeyAfterUnlock(s, w, s', key, o, i);
      case Tick(_) => assert IsHeldKey(s', key, o, i);
    }
  }

  lemma NewKeyIsHeld(s: State, w: Owner, timeout: int, s': State, key: string)
    requires KeysAreHeld(s) && timeout >= 1 && s' == After(s, ReadLock(w, timeout))
    requires key == HoldKey(w, Counter(s', ReadField(w)))
    ensures IsHeldKey(s', key, w, Counter(s', ReadField(w)))
  {
    HoldKeysPerStep(s, ReadLock(w, timeout), key);
  }

  lemma KeyAfterLock(s: State, w: Owner, timeout: int, s': State, key: string, o: Owner, i: int)
    requires KeysAreHeld(s) && timeout >= 1 && s' == After(s, ReadLock(w, timeout)) && IsHeldKey(s, key, o, i)
    requires key in s'.holds && s'.holds[key] == s.holds[key]
    ensures IsHeldKey(s', key, o, i)
  {
    StepCounts(s, ReadLock(w, timeout), ReadField(o));
  }

  lemma KeyAfterUnlock(s: State, w: Owner, s': State, key: string, o: Owner, i: int)
    requires KeysAreHeld(s) && s' == After(s, ReadUnlock(w)) && IsHeldKey(s, key, o, i)
    requires key in s'.holds && s'.holds[key] == s.holds[key]
    ensures IsHeldKey(s', key, o, i)
  {
    var f := ReadField(o);
    HoldKeysPerStep(s, ReadUnlock(w), key);
    if HExists(s, ReadField(w)) {
      assert o == w ==> i != Counter(s, f);
      LastUnlockFrees(s, ReadUnlock(w), ReadField(w));
      assert s'.hash.Some? by {
        assert o == w || Counter(s, f) >= 1;
      }
      StepCounts(s, ReadUnlock(w), f);
    }
  }

  /** In every run of read locks and unlocks, a key that is still there is that of a hold that is still there. */
  lemma {:induction false} RunKeepsKeys(s: State, steps: seq<Step>)
    requires KeysAreHeld(s) && OnlyReads(steps)
    ensures KeysAreHeld(Run(s, steps))
    decreases |steps|
  {
    if steps != [] {
      assert OnlyReads([steps[0]]);
      StepKeepsKeys(s, steps[0]);
      RunKeepsKeys(After(s, steps[0]), steps[1..]);
    }
  }

  /** So from the start on, every key is that of a hold there is, and it expires no later than the hash. */
  lemma KeysOfRun(now: int, steps: seq<Step>, key: string)
    requires OnlyReads(steps) && key in Run(Fresh(now), steps).holds
    ensures exists o, i :: IsHeldKey(Run(Fresh(now), steps), key, o, i)
  {
    RunKeepsKeys(Fresh(now), steps);
  }
}
