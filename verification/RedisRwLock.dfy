/**
  The reader/writer lock kept in one Redis hash: a `mode` field, one reentrant counter per
  reader and per writer, and an expiry (the lease). Four Lua scripts act on it; each script
  runs atomically, so a run of the system is a sequence of script executions and clock ticks.
*/
module RedisRwLock {
  import opened Wrappers
  import opened Helpers
  import opened Numerals

  // ---------------------------------------------------------------- names

  predicate IsGuidChar(c: char) {
    '0' <= c <= '9' || 'a' <= c <= 'f' || c == '-'
  }

  /** The text of a GUID: lower-case hexadecimal digits and hyphens. */
  type Guid = s: string | forall c :: c in s ==> IsGuidChar(c) witness ""

  /**
    Under whose name a lock is held: the GUID of a lock object and the managed thread that created it.
    Every object has a GUID of its own and is of one kind; the scripts allow one name for both kinds.
  */
  datatype Owner = Owner(guid: Guid, thread: nat)

  datatype Field = ReadField(owner: Owner) | WriteField(owner: Owner)

  const PREFIX := "{anyLock}"

  function LockName(o: Owner): string {
    o.guid + ":" + Decimal(o.thread)
  }

  function FieldName(f: Field): string {
    match f
    case ReadField(o) => LockName(o)
    case WriteField(o) => LockName(o) + ":write"
  }

  /** The per-hold key that the read-lock script sets. */
  function HoldKey(o: Owner, ind: int): string {
    PREFIX + ":" + LockName(o) + ":" + ToText(ind)
  }

  /** The per-hold key whose remaining time the read-unlock script asks for. */
  function ProbeKey(f: Field, ind: int): string {
    PREFIX + ":" + FieldName(f) + ":rwlock_timeout:" + ToText(ind)
  }

  lemma DecimalInjective(m: nat, n: nat)
    requires Decimal(m) == Decimal(n)
    ensures m == n
  {
    DecimalValue(m);
    DecimalValue(n);
  }

  lemma SplitAtColon(a: string, b: string, c: string, d: string)
    requires ':' !in a && ':' !in c && a + ":" + b == c + ":" + d
    ensures a == c && b == d
  {
    var s, t := a + ":" + b, c + ":" + d;
    assert s[|a|] == ':' && t[|c|] == ':';
    assert forall i :: 0 <= i < |a| ==> s[i] == a[i];
    assert forall i :: 0 <= i < |c| ==> t[i] == c[i];
    assert a == s[..|a|] && c == t[..|c|];
    assert b == s[|a| + 1..] && d == t[|c| + 1..];
  }

  /** What follows the first colon of a field's name. */
  function Suffix(f: Field): string {
    Decimal(f.owner.thread) + if f.WriteField? then ":write" else ""
  }

  lemma SuffixDistinct(f: Field, g: Field)
    requires Suffix(f) == Suffix(g)
    ensures f.WriteField? == g.WriteField? && f.owner.thread == g.owner.thread
  {
    var m, n := Decimal(f.owner.thread), Decimal(g.owner.thread);
    assert ':' !in m && ':' !in n;
    assert f.WriteField? ==> Suffix(f)[|m|] == ':';
    assert g.WriteField? ==> Suffix(g)[|n|] == ':';
    assert |m| == |n|;
    assert m == Suffix(f)[..|m|] && n == Suffix(g)[..|n|];
    DecimalInjective(f.owner.thread, g.owner.thread);
  }

  /** Owners, readers and writers never share a field, and no field is called `mode`. */
  lemma FieldNamesDistinct(f: Field, g: Field)
    ensures FieldName(f) == FieldName(g) ==> f == g
    ensures FieldName(f) != "mode"
  {
    assert FieldName(f) == f.owner.guid + ":" + Suffix(f);
    assert FieldName(g) == g.owner.guid + ":" + Suffix(g);
    assert FieldName(f)[|f.owner.guid|] == ':';
    if FieldName(f) == FieldName(g) {
      SplitAtColon(f.owner.guid, Suffix(f), g.owner.guid, Suffix(g));
      SuffixDistinct(f, g);
    }
  }

  // ---------------------------------------------------------------- the store

  datatype Mode = Read | Write

  datatype Hash = Hash(mode: Mode, counters: map<Field, int>, expireAt: Option<int>)

  /** Times are milliseconds. An entry of `holds` maps a per-hold key to its expiry time. */
  datatype State = State(now: int, hash: Option<Hash>, holds: map<string, Option<int>>)

  datatype Reply = Nil | Int(n: int)

  function Expired(at: Option<int>, now: int): bool {
    at.Some? && at.value < now
  }

  function ToMillisecond(timeout: int): int {
    timeout * 1000
  }

  // ---------------------------------------------------------------- Redis commands

  /** PEXPIRE with a time that is not in the future deletes the key. */
  function PExpire(s: State, ms: int): State {
    if s.hash.None? then s
    else if ms <= 0 then s.(hash := None)
    else s.(hash := Some(s.hash.value.(expireAt := Some(s.now + ms))))
  }

  function PTtl(s: State): int {
    match s.hash
    case None => -2
    case Some(h) => if h.expireAt.None? then -1 else h.expireAt.value - s.now
  }

  function HSetMode(s: State, m: Mode): State {
    match s.hash
    case None => s.(hash := Some(Hash(m, map[], None)))
    case Some(h) => s.(hash := Some(h.(mode := m)))
  }

  function Counter(s: State, f: Field): int {
    if s.hash.Some? && f in s.hash.value.counters then s.hash.value.counters[f] else 0
  }

  function HExists(s: State, f: Field): bool {
    s.hash.Some? && f in s.hash.value.counters
  }

  function HSet(s: State, f: Field, v: int): State
    requires s.hash.Some?
  {
    var h := s.hash.value;
    s.(hash := Some(h.(counters := h.counters[f := v])))
  }

  function HDel(s: State, f: Field): State
    requires s.hash.Some?
  {
    var h := s.hash.value;
    s.(hash := Some(h.(counters := h.counters - {f})))
  }

  /** The counters and the mode field. */
  function HLen(s: State): nat {
    if s.hash.None? then 0 else |s.hash.value.counters| + 1
  }

  function SetHold(s: State, key: string): State {
    s.(holds := s.holds[key := None])
  }

  function PExpireHold(s: State, key: string, ms: int): State {
    if key !in s.holds then s
    else if ms <= 0 then s.(holds := s.holds - {key})
    else s.(holds := s.holds[key := Some(s.now + ms)])
  }

  function PTtlHold(s: State, key: string): int {
    if key !in s.holds then -2
    else if s.holds[key].None? then -1
    else s.holds[key].value - s.now
  }

  // ---------------------------------------------------------------- what each step does

  datatype Step =
    | ReadLock(owner: Owner, timeout: int)
    | ReadUnlock(owner: Owner)
    | WriteLock(owner: Owner, timeout: int)
    | WriteUnlock(owner: Owner, lease: int)
    | Tick(ms: nat)

  /** Set the lease of a hash with the given mode and counters; no lease, no hash. */
  function Leased(now: int, mode: Mode, counters: map<Field, int>, ms: int): Option<Hash> {
    if ms <= 0 then None else Some(Hash(mode, counters, Some(now + ms)))
  }

  function HoldsAfterGrant(s: State, o: Owner, ms: int): map<string, Option<int>> {
    var key := HoldKey(o, Counter(s, ReadField(o)) + 1);
    if ms <= 0 then s.holds - {key} else s.holds[key := Some(s.now + ms)]
  }

  predicate ReadGranted(s: State, o: Owner) {
    s.hash.Some? && s.hash.value.mode == Write ==> HExists(s, WriteField(o))
  }

  predicate WriteGranted(s: State, o: Owner) {
    s.hash.Some? ==> s.hash.value.mode == Write && HExists(s, WriteField(o))
  }

  function AfterReadLock(s: State, o: Owner, timeout: int): State
    requires ReadGranted(s, o)
  {
    var ms := ToMillisecond(timeout);
    var hash :=
      match s.hash
      case None => Leased(s.now, Read, map[ReadField(o) := 1], ms)
      case Some(h) => Leased(s.now, h.mode, h.counters[ReadField(o) := Counter(s, ReadField(o)) + 1], Max(PTtl(s), ms));
    State(s.now, hash, HoldsAfterGrant(s, o, ms))
  }

  function AfterReadUnlock(s: State, o: Owner): State
    requires HExists(s, ReadField(o))
  {
    var h, f, c := s.hash.value, ReadField(o), Counter(s, ReadField(o));
    var counters := if c == 1 then h.counters - {f} else h.counters[f := c - 1];
    State(s.now,
          if counters == map[] then None else Some(h.(counters := counters)),
          s.holds - {HoldKey(o, c)})
  }

  function AfterWriteLock(s: State, o: Owner, timeout: int): State
    requires WriteGranted(s, o)
  {
    var ms, f := ToMillisecond(timeout), WriteField(o);
    s.(hash :=
      match s.hash
      case None => Leased(s.now, Write, map[f := 1], ms)
      case Some(h) => Leased(s.now, Write, h.counters[f := Counter(s, f) + 1], PTtl(s) + ms))
  }

  function AfterWriteUnlock(s: State, o: Owner, lease: int): State
    requires HExists(s, WriteField(o))
  {
    var h, f, c := s.hash.value, WriteField(o), Counter(s, WriteField(o));
    s.(hash :=
      if c > 1 then Leased(s.now, Write, h.counters[f := c - 1], lease)
      else if h.counters - {f} == map[] then None
      else Some(h.(mode := Read, counters := h.counters - {f})))
  }

  function AfterTick(s: State, ms: nat): State {
    var now := s.now + ms;
    State(now,
          if s.hash.Some? && Expired(s.hash.value.expireAt, now) then None else s.hash,
          map k | k in s.holds && !Expired(s.holds[k], now) :: s.holds[k])
  }

  /** The state after a step, whoever takes it and whatever the lock then holds. */
  function After(s: State, step: Step): State {
    match step
    case ReadLock(o, timeout) => if ReadGranted(s, o) then AfterReadLock(s, o, timeout) else s
    case ReadUnlock(o) => if HExists(s, ReadField(o)) then AfterReadUnlock(s, o) else s
    case WriteLock(o, timeout) => if WriteGranted(s, o) then AfterWriteLock(s, o, timeout) else s
    case WriteUnlock(o, lease) =>
      if HExists(s, WriteField(o)) && s.hash.value.mode == Write then AfterWriteUnlock(s, o, lease) else s
    case Tick(ms) => AfterTick(s, ms)
  }

  function Run(s: State, steps: seq<Step>): State
    decreases |steps|
  {
    if steps == [] then s else Run(After(s, steps[0]), steps[1..])
  }

  function Fresh(now: int): State {
    State(now, None, map[])
  }

  // ---------------------------------------------------------------- the state invariant

  /** Write mode: one writer, and every reader is that writer. Read mode: readers only. */
  ghost predicate WellHeld(h: Hash) {
    && h.counters != map[]
    && (forall f :: f in h.counters ==> h.counters[f] >= 1)
    && match h.mode
       case Read => forall f :: f in h.counters ==> f.ReadField?
       case Write => exists w ::
         WriteField(w) in h.counters && forall f :: f in h.counters ==> f == WriteField(w) || f == ReadField(w)
  }

  ghost predicate Inv(s: State) {
    && (s.hash.Some? ==>
          WellHeld(s.hash.value) && s.hash.value.expireAt.Some? && s.hash.value.expireAt.value >= s.now)
    && forall k :: k in s.holds ==> '_' !in k
  }

  lemma NoUnderscore(a: string, b: string)
    requires '_' !in a && '_' !in b
    ensures '_' !in a + b
  {
  }

  lemma HoldKeyNoUnderscore(o: Owner, ind: int)
    ensures '_' !in HoldKey(o, ind)
  {
    NoUnderscore(o.guid, ":");
    NoUnderscore(o.guid + ":", Decimal(o.thread));
    NoUnderscore(PREFIX + ":", LockName(o));
    NoUnderscore(PREFIX + ":" + LockName(o), ":");
    NoUnderscore(PREFIX + ":" + LockName(o) + ":", ToText(ind));
  }

  lemma MemberOfConcat(a: string, b: string, c: string, x: char)
    requires x in b
    ensures x in a + b + c
  {
    var i :| 0 <= i < |b| && b[i] == x;
    assert (a + b + c)[|a| + i] == x;
  }

  /** No key that locking sets is ever a key that unlocking asks about. */
  lemma ProbeMissesEveryHold(f: Field, i: int, o: Owner, ind: int)
    ensures ProbeKey(f, i) != HoldKey(o, ind)
    ensures '_' in ProbeKey(f, i)
  {
    HoldKeyNoUnderscore(o, ind);
    var infix := ":rwlock_timeout:";
    assert infix[7] == '_';
    MemberOfConcat(PREFIX + ":" + FieldName(f), infix, ToText(i), '_');
  }

  lemma AfterKeepsInv(s: State, step: Step)
    requires Inv(s)
    ensures Inv(After(s, step))
  {
    match step
    case ReadLock(o, timeout) =>
      if ReadGranted(s, o) {
        HoldKeyNoUnderscore(o, Counter(s, ReadField(o)) + 1);
        var t := After(s, step);
        if t.hash.Some? {
          assert ReadField(o) in t.hash.value.counters;
        }
      }
    case ReadUnlock(o) =>
    case WriteLock(o, timeout) =>
      if WriteGranted(s, o) {
        var t := After(s, step);
        if t.hash.Some? {
          assert WriteField(o) in t.hash.value.counters;
        }
      }
    case WriteUnlock(o, lease) =>
      var t := After(s, step);
      if HExists(s, WriteField(o)) && s.hash.value.mode == Write && t.hash.Some? && Counter(s, WriteField(o)) > 1 {
        assert WriteField(o) in t.hash.value.counters;
      }
    case Tick(ms) =>
  }

  lemma {:induction false} RunKeepsInv(s: State, steps: seq<Step>)
    requires Inv(s)
    ensures Inv(Run(s, steps))
    decreases |steps|
  {
    if steps != [] {
      AfterKeepsInv(s, steps[0]);
      RunKeepsInv(After(s, steps[0]), steps[1..]);
    }
  }

  /** Safety over every run from a fresh store: a writer excludes every other owner. */
  lemma WriterExcludesOthers(now: int, steps: seq<Step>, w: Owner, o: Owner, timeout: int)
    requires w != o
    ensures var s := Run(Fresh(now), steps);
            HExists(s, WriteField(w)) ==>
              && s.hash.value.mode == Write
              && !HExists(s, WriteField(o)) && !HExists(s, ReadField(o))
              && After(s, WriteLock(o, timeout)) == s
              && After(s, ReadLock(o, timeout)) == s
  {
    RunKeepsInv(Fresh(now), steps);
  }

  /** The hash is there exactly while some owner holds the lock, at least once. */
  lemma HashExistsIffHeld(now: int, steps: seq<Step>)
    ensures var s := Run(Fresh(now), steps); s.hash.Some? <==> exists f :: Counter(s, f) >= 1
  {
    RunKeepsInv(Fresh(now), steps);
    var s := Run(Fresh(now), steps);
    if s.hash.Some? {
      var f :| f in s.hash.value.counters;
      assert Counter(s, f) >= 1;
    }
  }

  /** An unlock by an owner that holds nothing of that kind leaves the store as it was. */
  lemma UnlockByNonHolder(now: int, steps: seq<Step>, o: Owner, lease: int)
    ensures var s := Run(Fresh(now), steps);
            && (Counter(s, ReadField(o)) == 0 ==> After(s, ReadUnlock(o)) == s)
            && (Counter(s, WriteField(o)) == 0 ==> After(s, WriteUnlock(o, lease)) == s)
  {
    RunKeepsInv(Fresh(now), steps);
  }

  // ---------------------------------------------------------------- the reader's lease

  /** While readers hold the lock the expiry only moves later, whatever the step. */
  lemma ReadModeExpiryGrows(s: State, step: Step)
    requires Inv(s) && s.hash.Some? && s.hash.value.mode == Read
    requires After(s, step).hash.Some?
    ensures After(s, step).hash.value.mode == Read
    ensures After(s, step).hash.value.expireAt.value >= s.hash.value.expireAt.value
  {
    AfterKeepsInv(s, step);
  }

  ghost predicate Locks(step: Step, f: Field) {
    match f
    case ReadField(o) => step.ReadLock? && step.owner == o
    case WriteField(o) => step.WriteLock? && step.owner == o
  }

  ghost predicate Unlocks(step: Step, f: Field) {
    match f
    case ReadField(o) => step == ReadUnlock(o)
    case WriteField(o) => step.WriteUnlock? && step.owner == o
  }

  ghost function Recount(f: Field, count: int, step: Step): int {
    if Locks(step, f) then count + 1 else if Unlocks(step, f) then count - 1 else count
  }

  /** How many holds of a field are left, counted from the steps alone. */
  ghost function Balance(f: Field, count: int, steps: seq<Step>): int
    decreases |steps|
  {
    if steps == [] then count else Balance(f, Recount(f, count, steps[0]), steps[1..])
  }

  /** The owner of the field, with `count` holds at the start, never releases its last one. */
  ghost predicate Holding(f: Field, count: int, steps: seq<Step>) {
    forall i :: 0 <= i <= |steps| ==> Balance(f, count, steps[..i]) >= 1
  }

  lemma {:induction false} TimeMovesForward(s: State, steps: seq<Step>)
    ensures Run(s, steps).now >= s.now
    decreases |steps|
  {
    if steps != [] {
      TimeMovesForward(After(s, steps[0]), steps[1..]);
    }
  }

  /** Read mode, o counted `count` times, and a lease that runs to the deadline at least. */
  ghost predicate LeasedReader(s: State, o: Owner, count: int, deadline: int) {
    && s.hash.Some? && s.hash.value.mode == Read
    && count >= 1 && Counter(s, ReadField(o)) == count
    && s.hash.value.expireAt.Some? && s.hash.value.expireAt.value >= deadline
  }

  lemma HoldingTail(f: Field, count: int, steps: seq<Step>)
    requires steps != [] && Holding(f, count, steps)
    ensures Holding(f, Recount(f, count, steps[0]), steps[1..])
    ensures Recount(f, count, steps[0]) >= 1
  {
    var count' := Recount(f, count, steps[0]);
    forall i | 0 <= i <= |steps[1..]| ensures Balance(f, count', steps[1..][..i]) >= 1 {
      assert steps[..i + 1][1..] == steps[1..][..i];
      assert Balance(f, count, steps[..i + 1]) >= 1;
    }
    assert Balance(f, count', steps[1..][..0]) == count';
  }

  lemma LeasedReaderStep(s: State, o: Owner, count: int, deadline: int, step: Step)
    requires Inv(s) && LeasedReader(s, o, count, deadline) && After(s, step).now < deadline
    requires Recount(ReadField(o), count, step) >= 1
    ensures LeasedReader(After(s, step), o, Recount(ReadField(o), count, step), deadline)
  {
    if step.ReadUnlock? && HExists(s, ReadField(step.owner)) {
      if step.owner == o {
        assert ReadField(o) in s.hash.value.counters[ReadField(o) := count - 1];
      } else {
        assert ReadField(o) in s.hash.value.counters - {ReadField(step.owner)};
      }
    }
  }

  /**
    Whatever anyone does, until its last unlock or the deadline a leased reader stays counted
    exactly as often as it locked minus unlocked, and the mode stays `read`.
  */
  lemma {:induction false} LeaseKept(s: State, o: Owner, count: int, deadline: int, steps: seq<Step>)
    requires Inv(s) && LeasedReader(s, o, count, deadline)
    requires Holding(ReadField(o), count, steps) && Run(s, steps).now < deadline
    ensures LeasedReader(Run(s, steps), o, Balance(ReadField(o), count, steps), deadline)
    decreases |steps|
  {
    if steps != [] {
      var t, rest := After(s, steps[0]), steps[1..];
      TimeMovesForward(t, rest);
      HoldingTail(ReadField(o), count, steps);
      AfterKeepsInv(s, steps[0]);
      LeasedReaderStep(s, o, count, deadline, steps[0]);
      LeaseKept(t, o, Recount(ReadField(o), count, steps[0]), deadline, rest);
    }
  }

  /**
    The lease that the documentation of a read lock promises: after o is granted a read lock,
    no other owner gets the write lock before o's last unlock or the end of the lease.
  */
  ghost predicate LeaseHonoured(s: State, o: Owner, timeout: int)
    requires ReadGranted(s, o)
  {
    var t := After(s, ReadLock(o, timeout));
    forall steps, w ::
      && Holding(ReadField(o), Counter(s, ReadField(o)) + 1, steps)
      && Run(t, steps).now < s.now + 1000 * timeout
      && w != o
      ==> !WriteGranted(Run(t, steps), w)
  }

  lemma LeaseHonouredInReadMode(s: State, o: Owner, timeout: int)
    requires Inv(s) && (s.hash.Some? ==> s.hash.value.mode == Read)
    ensures LeaseHonoured(s, o, timeout)
  {
    var ms := 1000 * timeout;
    var t, count := After(s, ReadLock(o, timeout)), Counter(s, ReadField(o)) + 1;
    AfterKeepsInv(s, ReadLock(o, timeout));
    forall steps, w | Holding(ReadField(o), count, steps) && Run(t, steps).now < s.now + ms && w != o
      ensures !WriteGranted(Run(t, steps), w)
    {
      TimeMovesForward(t, steps);
      LeaseKept(t, o, count, s.now + ms, steps);
    }
  }

  /** Under its own write lock: lock again for one second, unlock once, wait two milliseconds. */
  lemma LeaseLostUnderOwnWriteLock(s: State, o: Owner, timeout: int)
    requires Inv(s) && timeout >= 1
    requires s.hash.Some? && s.hash.value.mode == Write && HExists(s, WriteField(o))
    ensures !LeaseHonoured(s, o, timeout)
  {
    var t := After(s, ReadLock(o, timeout));
    AfterKeepsInv(s, ReadLock(o, timeout));
    var steps := [WriteLock(o, 1), WriteUnlock(o, 1), Tick(2)];
    var t1 := After(t, steps[0]);
    AfterKeepsInv(t, steps[0]);
    var t2 := After(t1, steps[1]);
    assert t2.hash.value.expireAt == Some(s.now + 1);
    var t3 := After(t2, steps[2]);
    assert t3.hash == None && t3.now == s.now + 2;
    RunOfThree(t, steps[0], steps[1], steps[2]);
    BalanceOfThree(ReadField(o), Counter(s, ReadField(o)) + 1, steps[0], steps[1], steps[2]);
    var w := Owner(o.guid, o.thread + 1);
    assert WriteGranted(Run(t, steps), w);
  }

  /**
    When the lease is honoured: exactly when the read lock was not taken under the owner's own
    write lock, for every reachable store and every lease of at least a second.
  */
  lemma LeaseHonouredIff(now: int, history: seq<Step>, o: Owner, timeout: int)
    requires timeout >= 1 && ReadGranted(Run(Fresh(now), history), o)
    ensures var s := Run(Fresh(now), history);
            LeaseHonoured(s, o, timeout) <==> (s.hash.Some? ==> s.hash.value.mode == Read)
  {
    var s := Run(Fresh(now), history);
    RunKeepsInv(Fresh(now), history);
    if s.hash.Some? ==> s.hash.value.mode == Read {
      LeaseHonouredInReadMode(s, o, timeout);
    } else {
      LeaseLostUnderOwnWriteLock(s, o, timeout);
    }
  }

  // ---------------------------------------------------------------- locks of one kind

  lemma {:induction false} NeverWrote(s: State, steps: seq<Step>, o: Owner)
    requires !HExists(s, WriteField(o)) && forall i :: 0 <= i < |steps| ==> !Locks(steps[i], WriteField(o))
    ensures !HExists(Run(s, steps), WriteField(o))
    decreases |steps|
  {
    if steps != [] {
      assert !Locks(steps[0], WriteField(o));
      NeverWrote(After(s, steps[0]), steps[1..], o);
    }
  }

  /**
    In the program every lock object has an owner of its own and is of one kind. So a reader never
    took the write lock before, and all of its leases are honoured.
  */
  lemma ReaderIsHonoured(now: int, history: seq<Step>, o: Owner, timeout: int)
    requires forall i :: 0 <= i < |history| ==> !Locks(history[i], WriteField(o))
    requires ReadGranted(Run(Fresh(now), history), o)
    ensures LeaseHonoured(Run(Fresh(now), history), o, timeout)
  {
    RunKeepsInv(Fresh(now), history);
    NeverWrote(Fresh(now), history, o);
    LeaseHonouredInReadMode(Run(Fresh(now), history), o, timeout);
  }

  // ---------------------------------------------------------------- the writer's lease

  /** The owner locks for at least a second, and its unlocks carry at least `least` milliseconds. */
  ghost predicate Carries(step: Step, o: Owner, least: int) {
    match step
    case ReadLock(w, timeout) => w == o ==> timeout >= 1
    case WriteLock(w, timeout) => w == o ==> timeout >= 1
    case WriteUnlock(w, lease) => w == o ==> lease >= least
    case _ => true
  }

  ghost predicate AllCarry(steps: seq<Step>, o: Owner, least: int) {
    forall i :: 0 <= i < |steps| ==> Carries(steps[i], o, least)
  }

  /**
    After o is granted the write lock, no other owner gets any lock before o's last unlock or the
    end of the lease, as long as its unlocks carry at least `least` milliseconds.
  */
  ghost predicate WriterHonoured(s: State, o: Owner, timeout: int, least: int)
    requires WriteGranted(s, o)
  {
    var t := After(s, WriteLock(o, timeout));
    forall steps, w ::
      && Holding(WriteField(o), Counter(s, WriteField(o)) + 1, steps) && AllCarry(steps, o, least)
      && Run(t, steps).now < s.now + 1000 * timeout
      && w != o
      ==> !WriteGranted(Run(t, steps), w) && !ReadGranted(Run(t, steps), w)
  }

  /** Write mode, o counted `count` times, and an expiry that is not before the deadline. */
  ghost predicate LeasedWriter(s: State, o: Owner, count: int, deadline: int) {
    && s.hash.Some? && s.hash.value.mode == Write
    && count >= 1 && Counter(s, WriteField(o)) == count
    && s.hash.value.expireAt.Some? && s.hash.value.expireAt.value >= deadline - 1
  }

  lemma LeasedWriterStep(s: State, o: Owner, count: int, deadline: int, least: int, step: Step)
    requires Inv(s) && LeasedWriter(s, o, count, deadline) && After(s, step).now < deadline
    requires Recount(WriteField(o), count, step) >= 1 && Carries(step, o, least)
    requires least >= 1 && s.now + least >= deadline - 1
    ensures LeasedWriter(After(s, step), o, Recount(WriteField(o), count, step), deadline)
  {
    if step.ReadUnlock? && HExists(s, ReadField(step.owner)) {
      assert WriteField(o) in s.hash.value.counters - {ReadField(step.owner)};
    }
  }

  lemma {:induction false} WriterKept(s: State, o: Owner, count: int, deadline: int, least: int, steps: seq<Step>)
    requires Inv(s) && LeasedWriter(s, o, count, deadline) && least >= 1 && s.now + least >= deadline - 1
    requires Holding(WriteField(o), count, steps) && AllCarry(steps, o, least) && Run(s, steps).now < deadline
    ensures LeasedWriter(Run(s, steps), o, Balance(WriteField(o), count, steps), deadline)
    ensures Inv(Run(s, steps))
    decreases |steps|
  {
    if steps != [] {
      var t, rest := After(s, steps[0]), steps[1..];
      TimeMovesForward(s, [steps[0]]);
      assert Run(s, [steps[0]]) == t;
      TimeMovesForward(t, rest);
      HoldingTail(WriteField(o), count, steps);
      AfterKeepsInv(s, steps[0]);
      LeasedWriterStep(s, o, count, deadline, least, steps[0]);
      WriterKept(t, o, Recount(WriteField(o), count, steps[0]), deadline, least, rest);
    }
  }

  lemma WriterHonouredByLongLeases(s: State, o: Owner, timeout: int, least: int)
    requires Inv(s) && WriteGranted(s, o) && timeout >= 1 && least + 1 >= 1000 * timeout
    ensures WriterHonoured(s, o, timeout, least)
  {
    var ms := 1000 * timeout;
    var t, count := After(s, WriteLock(o, timeout)), Counter(s, WriteField(o)) + 1;
    AfterKeepsInv(s, WriteLock(o, timeout));
    forall steps, w |
      && Holding(WriteField(o), count, steps) && AllCarry(steps, o, least)
      && Run(t, steps).now < s.now + ms && w != o
      ensures !WriteGranted(Run(t, steps), w) && !ReadGranted(Run(t, steps), w)
    {
      WriterKept(t, o, count, s.now + ms, least, steps);
    }
  }

  /** Lock once more, unlock once with a short lease, and wait until it has run out. */
  lemma WriterLostByShortLeases(s: State, o: Owner, timeout: int, least: int)
    requires Inv(s) && WriteGranted(s, o) && timeout >= 1 && least + 1 < 1000 * timeout
    ensures !WriterHonoured(s, o, timeout, least)
  {
    var lease, f := Max(least, 1), WriteField(o);
    var t, count := After(s, WriteLock(o, timeout)), Counter(s, f) + 1;
    var steps := [WriteLock(o, 1), WriteUnlock(o, lease), Tick(lease + 1)];
    AfterKeepsInv(s, WriteLock(o, timeout));
    var t1 := After(t, steps[0]);
    AfterKeepsInv(t, steps[0]);
    var t2 := After(t1, steps[1]);
    assert t2.hash.value.expireAt == Some(s.now + lease);
    var t3 := After(t2, steps[2]);
    assert t3.hash == None && t3.now == s.now + lease + 1;
    RunOfThree(t, steps[0], steps[1], steps[2]);
    BalanceOfThree(f, count, steps[0], steps[1], steps[2]);
    assert AllCarry(steps, o, least);
    var w := Owner(o.guid, o.thread + 1);
    assert WriteGranted(Run(t, steps), w);
  }

  lemma RunOfThree(s: State, a: Step, b: Step, c: Step)
    ensures Run(s, [a, b, c]) == After(After(After(s, a), b), c)
  {
    assert [a, b, c][1..] == [b, c] && [b, c][1..] == [c] && [c][1..] == [];
    assert Run(After(s, a), [b, c]) == Run(After(After(s, a), b), [c]);
  }

  lemma BalanceOfThree(f: Field, count: int, a: Step, b: Step, c: Step)
    requires count >= 1 && Recount(f, count, a) >= 1
    requires Recount(f, Recount(f, count, a), b) >= 1
    requires Recount(f, Recount(f, Recount(f, count, a), b), c) >= 1
    ensures Holding(f, count, [a, b, c])
  {
    var steps, n := [a, b, c], Recount(f, count, a);
    assert [a, b][1..] == [b] && [b, c][1..] == [c];
    assert [a][1..] == [] && [b][1..] == [] && [c][1..] == [] && steps[1..] == [b, c];
    assert Balance(f, n, [b]) == Recount(f, n, b);
    assert Balance(f, n, [b, c]) == Balance(f, Recount(f, n, b), [c]) == Recount(f, Recount(f, n, b), c);
    forall i | 0 <= i <= 3 ensures Balance(f, count, steps[..i]) >= 1 {
      assert steps[..i] == if i == 0 then [] else if i == 1 then [a] else if i == 2 then [a, b] else steps;
    }
  }

  /**
    When the lease of a writer is honoured, for every reachable store: exactly when its unlocks carry
    leases of the whole length in milliseconds, up to one.
  */
  lemma WriterHonouredIff(now: int, history: seq<Step>, o: Owner, timeout: int, least: int)
    requires timeout >= 1 && WriteGranted(Run(Fresh(now), history), o)
    ensures WriterHonoured(Run(Fresh(now), history), o, timeout, least) <==> least + 1 >= 1000 * timeout
  {
    RunKeepsInv(Fresh(now), history);
    if least + 1 >= 1000 * timeout {
      WriterHonouredByLongLeases(Run(Fresh(now), history), o, timeout, least);
    } else {
      WriterLostByShortLeases(Run(Fresh(now), history), o, timeout, least);
    }
  }

  /** The program passes the timeout itself, in seconds, so it shortens every lease it unlocks in part. */
  lemma WriterIsNotHonoured(now: int, history: seq<Step>, o: Owner, timeout: int)
    requires timeout >= 1 && WriteGranted(Run(Fresh(now), history), o)
    ensures !WriterHonoured(Run(Fresh(now), history), o, timeout, timeout)
  {
    WriterHonouredIff(now, history, o, timeout, timeout);
  }

  // ---------------------------------------------------------------- the scripts

  lemma SettingAHold(s: State, key: string, ms: int)
    ensures PExpireHold(SetHold(s, key), key, ms)
         == s.(holds := if ms <= 0 then s.holds - {key} else s.holds[key := Some(s.now + ms)])
  {
    assert s.holds[key := None] - {key} == s.holds - {key};
    assert s.holds[key := None][key := Some(s.now + ms)] == s.holds[key := Some(s.now + ms)];
  }

  /** The commands of a read grant, from the counter on, amount to the step. */
  lemma ReadGrantCommands(s: State, o: Owner, timeout: int)
    requires Inv(s) && ReadGranted(s, o)
    ensures var ms, ind := ToMillisecond(timeout), Counter(s, ReadField(o)) + 1;
            var key := HoldKey(o, ind);
            var s1 := HSet(if s.hash.None? then HSetMode(s, Read) else s, ReadField(o), ind);
            var s2 := PExpireHold(SetHold(s1, key), key, ms);
            After(s, ReadLock(o, timeout)) == PExpire(s2, if s.hash.None? then ms else Max(PTtl(s2), ms))
  {
    var ms, ind := ToMillisecond(timeout), Counter(s, ReadField(o)) + 1;
    var s1 := HSet(if s.hash.None? then HSetMode(s, Read) else s, ReadField(o), ind);
    SettingAHold(s1, HoldKey(o, ind), ms);
  }

  /** The Redis server: every script is one method, and nothing happens between its commands. */
  class Server {
    var store: State

    ghost predicate Valid()
      reads this
    {
      Inv(store)
    }

    constructor (now: int)
      ensures Valid() && store == Fresh(now)
    {
      store := Fresh(now);
    }

    method TryReadLock(o: Owner, timeout: int) returns (reply: Reply)
      requires Valid()
      modifies this
      ensures Valid() && store == After(old(store), ReadLock(o, timeout))
      ensures reply == Nil <==> ReadGranted(old(store), o)
      ensures reply != Nil ==> store.hash.Some? && store.hash.value.expireAt.Some?
      ensures reply != Nil ==> reply == Int(store.hash.value.expireAt.value - store.now)
    {
      AfterKeepsInv(store, ReadLock(o, timeout));
      var ms := ToMillisecond(timeout);
      if store.hash.None? {
        ReadGrantCommands(store, o, timeout);
        store := HSetMode(store, Read);
        store := HSet(store, ReadField(o), 1);
        store := SetHold(store, HoldKey(o, 1));
        store := PExpireHold(store, HoldKey(o, 1), ms);
        store := PExpire(store, ms);
        return Nil;
      }
      var mode := store.hash.value.mode;
      if mode == Read || (mode == Write && HExists(store, WriteField(o))) {
        ReadGrantCommands(store, o, timeout);
        var ind := Counter(store, ReadField(o)) + 1;
        store := HSet(store, ReadField(o), ind);
        var key := HoldKey(o, ind);
        store := SetHold(store, key);
        store := PExpireHold(store, key, ms);
        var remainTime := PTtl(store);
        store := PExpire(store, Max(remainTime, ms));
        return Nil;
      }
      return Int(PTtl(store));
    }

    /** The largest remaining time over the probed keys of every counter; -3 if none is probed. */
    method MaxRemainTime() returns (best: int)
      requires forall k :: k in store.holds ==> '_' !in k
      ensures best <= -2
    {
      best := -3;
      var fields := if store.hash.None? then {} else store.hash.value.counters.Keys;
      while fields != {}
        invariant best <= -2
        decreases |fields|
      {
        var f :| f in fields;
        fields := fields - {f};
        var i := Counter(store, f);
        while i >= 1
          invariant best <= -2
        {
          ProbeMissesEveryHold(f, i, f.owner, i);
          best := Max(PTtlHold(store, ProbeKey(f, i)), best);
          i := i - 1;
        }
      }
    }

    /** What the store is once the counter is down and before an empty hash is removed. */
    static lemma CountedDown(before: State, o: Owner, s: State)
      requires Inv(before) && HExists(before, ReadField(o))
      requires var lower := HSet(before, ReadField(o), Counter(before, ReadField(o)) - 1);
               var hash := if Counter(before, ReadField(o)) == 1 then HDel(lower, ReadField(o)).hash else lower.hash;
               s == lower.(hash := hash, holds := before.holds - {HoldKey(o, Counter(before, ReadField(o)))})
      ensures After(before, ReadUnlock(o)) == if HLen(s) <= 1 then s.(hash := None) else s
      ensures s.hash.Some? && forall k :: k in s.holds ==> '_' !in k
      ensures before.hash.value.mode == Write ==> HLen(s) > 1
    {
      var h, f, c := before.hash.value, ReadField(o), Counter(before, ReadField(o));
      assert h.counters[f := c - 1] - {f} == h.counters - {f};
      assert HLen(s) <= 1 <==> s.hash.value.counters == map[];
      assert f in h.counters[f := c - 1];
      if h.mode == Write {
        var w :| WriteField(w) in h.counters;
        assert WriteField(w) in s.hash.value.counters;
      }
    }

    method TryReadUnlock(o: Owner) returns (reply: Reply)
      requires Valid()
      modifies this
      ensures Valid() && store == After(old(store), ReadUnlock(o))
      ensures old(store).hash.None? ==> reply == Int(1)
      ensures old(store).hash.Some? && !HExists(old(store), ReadField(o)) ==> reply == Nil
      ensures HExists(old(store), ReadField(o)) ==> reply == Int(if store.hash.None? then 1 else 0)
    {
      AfterKeepsInv(store, ReadUnlock(o));
      if store.hash.None? {
        return Int(1);
      }
      var mode := store.hash.value.mode;
      if !HExists(store, ReadField(o)) {
        return Nil;
      }
      ghost var before := store;
      var counter := Counter(store, ReadField(o)) - 1;
      store := HSet(store, ReadField(o), counter);
      if counter == 0 {
        store := HDel(store, ReadField(o));
      }
      store := store.(holds := store.holds - {HoldKey(o, counter + 1)});
      CountedDown(before, o, store);
      if HLen(store) > 1 {
        var maxRemainTime := MaxRemainTime();
        if maxRemainTime > 0 {
          // The script would set the expiry to maxRemainTime here, but no probed key exists.
          assert false;
        }
        if mode == Write {
          return Int(0);
        }
      }
      if HLen(store) <= 1 {
        store := store.(hash := None);
        return Int(1);
      }
      return Int(0);
    }

    method TryWriteLock(o: Owner, timeout: int) returns (reply: Reply)
      requires Valid()
      modifies this
      ensures Valid() && store == After(old(store), WriteLock(o, timeout))
      ensures reply == Nil <==> WriteGranted(old(store), o)
      ensures reply != Nil ==> store.hash.Some? && store.hash.value.expireAt.Some?
      ensures reply != Nil ==> reply == Int(store.hash.value.expireAt.value - store.now)
    {
      AfterKeepsInv(store, WriteLock(o, timeout));
      var ms := ToMillisecond(timeout);
      if store.hash.None? {
        store := HSetMode(store, Write);
        store := HSet(store, WriteField(o), 1);
        store := PExpire(store, ms);
        return Nil;
      }
      if store.hash.value.mode == Write {
        if HExists(store, WriteField(o)) {
          store := HSet(store, WriteField(o), Counter(store, WriteField(o)) + 1);
          var currentExpire := PTtl(store);
          store := PExpire(store, currentExpire + ms);
          return Nil;
        }
      }
      return Int(PTtl(store));
    }

    /** `lease` is the timeout last passed to TryLock, in the caller's unit, not in milliseconds. */
    method TryWriteUnlock(o: Owner, lease: int) returns (reply: Reply)
      requires Valid()
      modifies this
      ensures Valid() && store == After(old(store), WriteUnlock(o, lease))
      ensures old(store).hash.None? ==> reply == Int(1)
      ensures old(store).hash.Some? && !HExists(old(store), WriteField(o)) ==> reply == Nil
      ensures HExists(old(store), WriteField(o)) ==>
                reply == Int(if Counter(old(store), WriteField(o)) == 1 then 1 else 0)
    {
      AfterKeepsInv(store, WriteUnlock(o, lease));
      if store.hash.None? {
        return Int(1);
      }
      if store.hash.value.mode == Write {
        if !HExists(store, WriteField(o)) {
          return Nil;
        }
        var counter := Counter(store, WriteField(o)) - 1;
        ghost var kept := store.hash.value.counters - {WriteField(o)};
        store := HSet(store, WriteField(o), counter);
        if counter > 0 {
          store := PExpire(store, lease);
          return Int(0);
        } else {
          store := HDel(store, WriteField(o));
          assert store.hash.value.counters == kept;
          if HLen(store) == 1 {
            store := store.(hash := None);
          } else {
            store := HSetMode(store, Read);
          }
          return Int(1);
        }
      }
      return Nil;
    }
  }
}
