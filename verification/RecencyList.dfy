/**
  The specification of the cache: an association list, most recently used key first, and what it
  holds after any sequence of calls.
*/
module RecencyList {
  import opened Wrappers

  datatype Entry = Entry(key: int, value: int)

  ghost predicate KeysDistinct(s: seq<Entry>) {
    forall i, j :: 0 <= i < j < |s| ==> s[i].key != s[j].key
  }

  ghost predicate Has(s: seq<Entry>, key: int) {
    exists i :: 0 <= i < |s| && s[i].key == key
  }

  ghost function Lookup(s: seq<Entry>, key: int): Option<int> {
    if s == [] then None
    else if s[0].key == key then Some(s[0].value)
    else Lookup(s[1..], key)
  }

  ghost function Without(s: seq<Entry>, key: int): seq<Entry> {
    if s == [] then []
    else if s[0].key == key then s[1..]
    else [s[0]] + Without(s[1..], key)
  }

  /** The list after a call of Get. A key that is missing changes nothing. */
  ghost function AfterGet(s: seq<Entry>, key: int): seq<Entry> {
    match Lookup(s, key)
    case Some(value) => [Entry(key, value)] + Without(s, key)
    case None => s
  }

  /** The list after a call of Put: a full list loses its last entry to a new key. */
  ghost function AfterPut(s: seq<Entry>, capacity: int, key: int, value: int): seq<Entry> {
    if Lookup(s, key).Some? then [Entry(key, value)] + Without(s, key)
    else if |s| == capacity && s != [] then [Entry(key, value)] + s[..|s| - 1]
    else [Entry(key, value)] + s
  }

  // ---------------------------------------------------------------- positions

  lemma {:induction false} LookupAt(s: seq<Entry>, i: nat)
    requires KeysDistinct(s) && i < |s|
    ensures Lookup(s, s[i].key) == Some(s[i].value)
    ensures Without(s, s[i].key) == s[..i] + s[i + 1..]
  {
    if i > 0 {
      LookupAt(s[1..], i - 1);
      assert s[..i] == [s[0]] + s[1..][..i - 1];
      assert s[1..][i..] == s[i + 1..];
    }
  }

  lemma {:induction false} LookupNone(s: seq<Entry>, key: int)
    ensures Lookup(s, key).Some? <==> Has(s, key)
    ensures !Has(s, key) ==> Without(s, key) == s
  {
    if s != [] {
      LookupNone(s[1..], key);
      assert Has(s, key) <==> s[0].key == key || Has(s[1..], key) by {
        if Has(s[1..], key) {
          var i :| 0 <= i < |s[1..]| && s[1..][i].key == key;
          assert s[i + 1].key == key;
        }
        if Has(s, key) && s[0].key != key {
          var i :| 0 <= i < |s| && s[i].key == key;
          assert s[1..][i - 1].key == key;
        }
      }
    }
  }

  // ---------------------------------------------------------------- any sequence of calls

  datatype Call = Get(key: int) | Put(key: int, value: int)

  ghost function After(s: seq<Entry>, capacity: int, c: Call): seq<Entry> {
    match c
    case Get(key) => AfterGet(s, key)
    case Put(key, value) => AfterPut(s, capacity, key, value)
  }

  ghost function Run(capacity: int, calls: seq<Call>): seq<Entry>
    decreases |calls|
  {
    if calls == [] then []
    else After(Run(capacity, calls[..|calls| - 1]), capacity, calls[|calls| - 1])
  }

  /** The calls that use a key: all but the calls of Get that find nothing. */
  ghost function Uses(capacity: int, calls: seq<Call>): seq<Call>
    decreases |calls|
  {
    if calls == [] then []
    else
      var front, c := calls[..|calls| - 1], calls[|calls| - 1];
      Uses(capacity, front) + if c.Put? || Has(Run(capacity, front), c.key) then [c] else []
  }

  /** The position of the last use of a key, or -1. */
  ghost function LastUse(uses: seq<Call>, key: int): int
    decreases |uses|
  {
    if uses == [] then -1
    else if uses[|uses| - 1].key == key then |uses| - 1
    else LastUse(uses[..|uses| - 1], key)
  }

  /** The value that was last put for a key. */
  ghost function LastPut(uses: seq<Call>, key: int): Option<int>
    decreases |uses|
  {
    if uses == [] then None
    else if uses[|uses| - 1].Put? && uses[|uses| - 1].key == key then Some(uses[|uses| - 1].value)
    else LastPut(uses[..|uses| - 1], key)
  }

  /** How many keys have a later last use than this one. */
  ghost function LaterKeys(uses: seq<Call>, key: int): set<int> {
    set u | u in uses && LastUse(uses, u.key) > LastUse(uses, key) :: u.key
  }

  // ---------------------------------------------------------------- without a bound

  ghost predicate Ordered(r: seq<Entry>, uses: seq<Call>) {
    forall i, j :: 0 <= i < j < |r| ==> LastUse(uses, r[i].key) > LastUse(uses, r[j].key)
  }

  ghost predicate Current(e: Entry, uses: seq<Call>) {
    LastUse(uses, e.key) >= 0 && LastPut(uses, e.key) == Some(e.value)
  }

  /** The list holds every used key, in the order of the last uses, with the value last put. */
  ghost predicate ByLastUse(r: seq<Entry>, uses: seq<Call>) {
    && Ordered(r, uses)
    && (forall i :: 0 <= i < |r| ==> Current(r[i], uses))
    && (forall key :: LastUse(uses, key) >= 0 ==> Has(r, key))
  }

  lemma {:induction false} LastUseIsPast(uses: seq<Call>, key: int)
    ensures -1 <= LastUse(uses, key) < |uses|
    ensures LastUse(uses, key) >= 0 ==> uses[LastUse(uses, key)].key == key
    decreases |uses|
  {
    if uses != [] && uses[|uses| - 1].key != key {
      LastUseIsPast(uses[..|uses| - 1], key);
    }
  }

  lemma OneMoreUse(uses: seq<Call>, c: Call, key: int)
    ensures LastUse(uses + [c], key) == if c.key == key then |uses| else LastUse(uses, key)
    ensures LastPut(uses + [c], key) == if c.key == key && c.Put? then Some(c.value) else LastPut(uses, key)
  {
    assert (uses + [c])[..|uses|] == uses;
  }

  /** The used key moves to the front. */
  lemma MovedToFront(r: seq<Entry>, c: Call) returns (rest: seq<Entry>, value: int)
    requires KeysDistinct(r) && (c.Put? || Has(r, c.key))
    ensures After(r, -1, c) == [Entry(c.key, value)] + rest && rest == Without(r, c.key)
    ensures if c.Put? then value == c.value else exists i :: 0 <= i < |r| && r[i] == Entry(c.key, value)
  {
    rest := Without(r, c.key);
    LookupNone(r, c.key);
    value := if c.Put? then c.value else Lookup(r, c.key).value;
    if c.Get? {
      var i :| 0 <= i < |r| && r[i].key == c.key;
      LookupAt(r, i);
      assert r[i] == Entry(c.key, value);
    }
  }

  /** Where the entry i of a list without a key comes from. */
  lemma WithoutAt(r: seq<Entry>, key: int, rest: seq<Entry>, i: nat) returns (i': nat)
    requires KeysDistinct(r) && rest == Without(r, key) && i < |rest|
    ensures i' < |r| && rest[i] == r[i'] && rest[i].key != key && i <= i' <= i + 1
    ensures i' == i <==> forall n :: 0 <= n <= i ==> r[n].key != key
  {
    LookupNone(r, key);
    if Has(r, key) {
      var n :| 0 <= n < |r| && r[n].key == key;
      LookupAt(r, n);
      i' := if i < n then i else i + 1;
    } else {
      i' := i;
    }
  }

  lemma RestHas(r: seq<Entry>, key: int, k: int)
    requires KeysDistinct(r) && k != key && Has(r, k)
    ensures Has(Without(r, key), k)
  {
    var i :| 0 <= i < |r| && r[i].key == k;
    LookupNone(r, key);
    if Has(r, key) {
      var n :| 0 <= n < |r| && r[n].key == key;
      LookupAt(r, n);
      var i' := if i < n then i else i - 1;
      assert (r[..n] + r[n + 1..])[i'] == r[i];
    }
  }

  lemma FrontIsOrdered(r: seq<Entry>, uses: seq<Call>, c: Call, rest: seq<Entry>, value: int)
    requires Ordered(r, uses) && KeysDistinct(r) && rest == Without(r, c.key)
    ensures Ordered([Entry(c.key, value)] + rest, uses + [c])
  {
    var r', uses' := [Entry(c.key, value)] + rest, uses + [c];
    forall i, j | 0 <= i < j < |r'| ensures LastUse(uses', r'[i].key) > LastUse(uses', r'[j].key) {
      var j' := WithoutAt(r, c.key, rest, j - 1);
      assert r'[j] == r[j'];
      OneMoreUse(uses, c, r'[j].key);
      OneMoreUse(uses, c, r'[i].key);
      LastUseIsPast(uses, r'[j].key);
      if i > 0 {
        var i' := WithoutAt(r, c.key, rest, i - 1);
        assert r'[i] == r[i'];
      }
    }
  }

  lemma FrontIsCurrent(r: seq<Entry>, uses: seq<Call>, c: Call, value: int)
    requires if c.Put? then value == c.value
             else exists n :: 0 <= n < |r| && r[n] == Entry(c.key, value) && Current(r[n], uses)
    ensures Current(Entry(c.key, value), uses + [c])
  {
    OneMoreUse(uses, c, c.key);
  }

  lemma RestIsCurrent(r: seq<Entry>, uses: seq<Call>, c: Call, rest: seq<Entry>, i: nat)
    requires (forall n :: 0 <= n < |r| ==> Current(r[n], uses)) && KeysDistinct(r) && rest == Without(r, c.key)
    requires i < |rest|
    ensures Current(rest[i], uses + [c])
  {
    var i' := WithoutAt(r, c.key, rest, i);
    OneMoreUse(uses, c, r[i'].key);
  }

  lemma UseKeepsOrder(r: seq<Entry>, uses: seq<Call>, c: Call)
    requires ByLastUse(r, uses) && KeysDistinct(r) && (c.Put? || Has(r, c.key))
    ensures ByLastUse(After(r, -1, c), uses + [c])
  {
    var rest, value := MovedToFront(r, c);
    var r' := [Entry(c.key, value)] + rest;
    FrontIsOrdered(r, uses, c, rest, value);
    FrontIsCurrent(r, uses, c, value);
    forall i | 0 <= i < |rest| ensures Current(rest[i], uses + [c]) {
      RestIsCurrent(r, uses, c, rest, i);
    }
    forall key | LastUse(uses + [c], key) >= 0 ensures Has(r', key) {
      OneMoreUse(uses, c, key);
      FrontHas(r, c.key, value, key);
    }
  }

  lemma FrontHas(r: seq<Entry>, k: int, value: int, key: int)
    requires KeysDistinct(r) && (key == k || Has(r, key))
    ensures Has([Entry(k, value)] + Without(r, k), key)
  {
    var rest := Without(r, k);
    var r' := [Entry(k, value)] + rest;
    if key == k {
      assert r'[0].key == key;
    } else {
      RestHas(r, k, key);
      var i :| 0 <= i < |rest| && rest[i].key == key;
      assert r'[i + 1].key == key;
    }
  }

  // ---------------------------------------------------------------- with a bound

  ghost function Take(s: seq<Entry>, n: nat): seq<Entry> {
    if |s| <= n then s else s[..n]
  }

  lemma HitStaysFront(s: seq<Entry>, r: seq<Entry>, capacity: nat, c: Call, i: nat)
    requires KeysDistinct(r) && s == Take(r, capacity) && i < |s| && s[i].key == c.key
    ensures After(s, capacity, c) == Take(After(r, -1, c), capacity)
  {
    var e := Entry(c.key, if c.Put? then c.value else s[i].value);
    LookupAt(s, i);
    LookupAt(r, i);
    var rest := r[..i] + r[i + 1..];
    assert After(r, -1, c) == [e] + rest;
    assert After(s, capacity, c) == [e] + (s[..i] + s[i + 1..]);
    if |r| > capacity {
      assert rest[..capacity - 1] == s[..i] + s[i + 1..];
      assert ([e] + rest)[..capacity] == [e] + rest[..capacity - 1];
    }
  }

  lemma MissStaysFront(s: seq<Entry>, r: seq<Entry>, capacity: nat, c: Call)
    requires capacity >= 1 && KeysDistinct(r) && s == Take(r, capacity) && c.Put? && !Has(s, c.key)
    ensures After(s, capacity, c) == Take(After(r, -1, c), capacity)
  {
    LookupNone(s, c.key);
    LookupNone(r, c.key);
    var e, rest := Entry(c.key, c.value), Without(r, c.key);
    assert After(r, -1, c) == [e] + rest;
    if |s| == capacity {
      assert After(s, capacity, c) == [e] + s[..capacity - 1];
      if Has(r, c.key) {
        var i :| 0 <= i < |r| && r[i].key == c.key;
        assert forall n :: 0 <= n < |s| ==> s[n] == r[n];
        assert i >= capacity;
        LookupAt(r, i);
      }
      assert rest[..capacity - 1] == s[..capacity - 1];
    }
  }

  /** A bounded list stays the front of the unbounded one. */
  lemma StaysFront(s: seq<Entry>, r: seq<Entry>, capacity: nat, c: Call)
    requires capacity >= 1 && KeysDistinct(r) && s == Take(r, capacity) && (c.Put? || Has(s, c.key))
    ensures After(s, capacity, c) == Take(After(r, -1, c), capacity)
  {
    if Has(s, c.key) {
      var i :| 0 <= i < |s| && s[i].key == c.key;
      HitStaysFront(s, r, capacity, c, i);
    } else {
      MissStaysFront(s, r, capacity, c);
    }
  }

  lemma {:induction false} RunKeepsOrder(capacity: nat, calls: seq<Call>, uses: seq<Call>)
    requires capacity >= 1 && uses == Uses(capacity, calls)
    ensures ByLastUse(Run(-1, uses), uses) && Run(capacity, calls) == Take(Run(-1, uses), capacity)
    decreases |calls|
  {
    if calls != [] {
      var front, c := calls[..|calls| - 1], calls[|calls| - 1];
      var uses0, s := Uses(capacity, front), Run(capacity, front);
      var r := Run(-1, uses0);
      RunKeepsOrder(capacity, front, uses0);
      if c.Put? || Has(s, c.key) {
        assert Has(s, c.key) ==> Has(r, c.key);
        assert uses[..|uses| - 1] == uses0;
        UseKeepsOrder(r, uses0, c);
        StaysFront(s, r, capacity, c);
      } else {
        LookupNone(s, c.key);
        assert uses == uses0;
      }
    }
  }

  ghost function KeysBefore(r: seq<Entry>, n: nat): set<int>
    requires n <= |r|
  {
    set i | 0 <= i < n :: r[i].key
  }

  lemma {:induction false} CountKeysBefore(r: seq<Entry>, n: nat)
    requires n <= |r| && KeysDistinct(r)
    ensures |KeysBefore(r, n)| == n
  {
    if n > 0 {
      CountKeysBefore(r, n - 1);
      OneMoreKey(r, n - 1);
    }
  }

  lemma OneMoreKey(r: seq<Entry>, n: nat)
    requires n < |r| && KeysDistinct(r)
    ensures KeysBefore(r, n + 1) == KeysBefore(r, n) + {r[n].key} && r[n].key !in KeysBefore(r, n)
  {
    forall k ensures k in KeysBefore(r, n + 1) <==> k in KeysBefore(r, n) + {r[n].key} {
      if k in KeysBefore(r, n + 1) {
        var i :| 0 <= i < n + 1 && r[i].key == k;
        assert i < n ==> k in KeysBefore(r, n);
      }
    }
  }

  lemma {:induction false} UseIsIn(uses: seq<Call>, key: int)
    ensures LastUse(uses, key) >= 0 <==> exists u :: u in uses && u.key == key
    decreases |uses|
  {
    if uses != [] {
      var front, u := uses[..|uses| - 1], uses[|uses| - 1];
      UseIsIn(front, key);
      assert uses == front + [u];
    }
  }

  lemma LaterKeysAt(r: seq<Entry>, uses: seq<Call>, n: nat)
    requires ByLastUse(r, uses) && n < |r|
    ensures |LaterKeys(uses, r[n].key)| == n
  {
    var later, key := LaterKeys(uses, r[n].key), r[n].key;
    forall k ensures k in later <==> k in KeysBefore(r, n) {
      UseIsIn(uses, k);
      if k in later {
        var i :| 0 <= i < |r| && r[i].key == k;
        assert i < n;
      }
      if k in KeysBefore(r, n) {
        var i :| 0 <= i < n && r[i].key == k;
        var u :| u in uses && u.key == k;
        assert LastUse(uses, u.key) > LastUse(uses, key);
      }
    }
    assert later == KeysBefore(r, n);
    CountKeysBefore(r, n);
  }

  /**
    After any sequence of calls: the entries are ordered by the last use of their keys and hold
    the values last put, there are at most capacity of them, and a key is held exactly when it was
    used and fewer than capacity other keys were used after it.
  */
  lemma HoldsMostRecentlyUsed(capacity: nat, calls: seq<Call>, s: seq<Entry>, uses: seq<Call>)
    requires capacity >= 1 && s == Run(capacity, calls) && uses == Uses(capacity, calls)
    ensures |s| <= capacity
    ensures forall i, j :: 0 <= i < j < |s| ==> LastUse(uses, s[i].key) > LastUse(uses, s[j].key)
    ensures forall i :: 0 <= i < |s| ==> LastPut(uses, s[i].key) == Some(s[i].value)
    ensures forall key :: Has(s, key) <==> LastUse(uses, key) >= 0 && |LaterKeys(uses, key)| < capacity
  {
    var r := Run(-1, uses);
    RunKeepsOrder(capacity, calls, uses);
    assert forall i :: 0 <= i < |s| ==> s[i] == r[i];
    assert forall i :: 0 <= i < |s| ==> Current(r[i], uses);
    forall key ensures Has(s, key) <==> LastUse(uses, key) >= 0 && |LaterKeys(uses, key)| < capacity {
      HeldIffRecent(r, uses, capacity, key);
    }
  }

  /** Every call of Put is a use. */
  lemma {:induction false} PutsAreUses(capacity: int, calls: seq<Call>, key: int)
    ensures LastPut(Uses(capacity, calls), key) == LastPut(calls, key)
    decreases |calls|
  {
    if calls != [] {
      var front, c := calls[..|calls| - 1], calls[|calls| - 1];
      var uses := Uses(capacity, front);
      PutsAreUses(capacity, front, key);
      OneMoreUse(uses, c, key);
      assert uses + [] == uses;
    }
  }

  /** What is found is what was put last, among all calls. */
  lemma FindsWhatWasPutLast(capacity: nat, calls: seq<Call>, key: int, found: Option<int>)
    requires capacity >= 1 && found == Lookup(Run(capacity, calls), key)
    ensures found == if Has(Run(capacity, calls), key) then LastPut(calls, key) else None
  {
    var s, uses := Run(capacity, calls), Uses(capacity, calls);
    HoldsMostRecentlyUsed(capacity, calls, s, uses);
    PutsAreUses(capacity, calls, key);
    LookupNone(s, key);
    if Has(s, key) {
      var i :| 0 <= i < |s| && s[i].key == key;
      LookupAt(s, i);
    }
  }

  lemma HeldIffRecent(r: seq<Entry>, uses: seq<Call>, capacity: nat, key: int)
    requires ByLastUse(r, uses)
    ensures Has(Take(r, capacity), key) <==> LastUse(uses, key) >= 0 && |LaterKeys(uses, key)| < capacity
  {
    var s := Take(r, capacity);
    if LastUse(uses, key) >= 0 {
      var n :| 0 <= n < |r| && r[n].key == key;
      LaterKeysAt(r, uses, n);
      assert n < capacity ==> s[n].key == key;
    } else {
      forall n | 0 <= n < |s| ensures s[n].key != key {
        assert s[n] == r[n] && Current(r[n], uses);
      }
    }
  }

  /** A Put that finds the list full removes the key whose last use is the oldest, and no other. */
  lemma VictimIsLeastRecentlyUsed(capacity: nat, calls: seq<Call>, key: int, value: int, s: seq<Entry>, uses: seq<Call>)
    returns (victim: int)
    requires capacity >= 1 && s == Run(capacity, calls) && uses == Uses(capacity, calls)
    requires |s| == capacity && !Has(s, key)
    ensures Has(s, victim) && forall k :: Has(s, k) && k != victim ==> LastUse(uses, victim) < LastUse(uses, k)
    ensures forall k :: Has(AfterPut(s, capacity, key, value), k) <==> k == key || (Has(s, k) && k != victim)
  {
    HoldsMostRecentlyUsed(capacity, calls, s, uses);
    LookupNone(s, key);
    victim := s[|s| - 1].key;
    forall k ensures Has([Entry(key, value)] + s[..|s| - 1], k) <==> k == key || (Has(s, k) && k != victim) {
      LastIsLost(s, Entry(key, value), k);
    }
  }

  lemma LastIsLost(s: seq<Entry>, e: Entry, k: int)
    requires KeysDistinct(s) && s != []
    ensures Has([e] + s[..|s| - 1], k) <==> k == e.key || (Has(s, k) && k != s[|s| - 1].key)
  {
    var s' := [e] + s[..|s| - 1];
    if k == e.key {
      assert s'[0].key == k;
    } else if Has(s, k) && k != s[|s| - 1].key {
      var i :| 0 <= i < |s| && s[i].key == k;
      assert s'[i + 1].key == k;
    } else {
      forall i | 0 <= i < |s'| ensures s'[i].key != k {
        assert i > 0 ==> s'[i] == s[i - 1];
      }
    }
  }
}
