/** The prepared-statement cache: a list in order of last use, least recent first. */
module StatementCache {
  import opened Basics

  datatype Entry<T> = Entry(key: string, statement: T)

  /** When `key` was last used, as an index into the keys used so far, or -1. */
  function LastUse(log: seq<string>, key: string): (i: int)
    ensures -1 <= i < |log|
    ensures i >= 0 <==> key in log
    ensures i >= 0 ==> log[i] == key
  {
    if log == [] then -1
    else if log[|log| - 1] == key then |log| - 1
    else LastUse(log[..|log| - 1], key)
  }

  /** Every entry was used, and each was last used before the next; so no key appears twice. */
  predicate ByLastUse<T>(entries: seq<Entry<T>>, log: seq<string>) {
    && (forall i :: 0 <= i < |entries| ==> entries[i].key in log)
    && (forall i, j :: 0 <= i < j < |entries| ==> LastUse(log, entries[i].key) < LastUse(log, entries[j].key))
  }

  function Without<T>(entries: seq<Entry<T>>, i: nat): (r: seq<Entry<T>>)
    requires i < |entries|
    ensures |r| == |entries| - 1
    ensures forall j :: 0 <= j < |r| ==> r[j] == entries[if j < i then j else j + 1]
  {
    entries[..i] + entries[i + 1..]
  }

  function Statements<T>(entries: seq<Entry<T>>): multiset<T> {
    if entries == [] then multiset{}
    else Statements(entries[..|entries| - 1]) + multiset{entries[|entries| - 1].statement}
  }

  lemma {:induction false} StatementsWithout<T>(entries: seq<Entry<T>>, i: nat)
    requires i < |entries|
    ensures Statements(entries) == Statements(Without(entries, i)) + multiset{entries[i].statement}
    decreases |entries|
  {
    var last := |entries| - 1;
    if i < last {
      StatementsWithout(entries[..last], i);
      WithoutInit(entries, i);
      StatementsAppend(Without(entries[..last], i), entries[last]);
    } else {
      assert Without(entries, i) == entries[..last];
    }
  }

  lemma WithoutInit<T>(entries: seq<Entry<T>>, i: nat)
    requires i < |entries| - 1
    ensures Without(entries, i) == Without(entries[..|entries| - 1], i) + [entries[|entries| - 1]]
  {
  }

  lemma StatementsAppend<T>(entries: seq<Entry<T>>, e: Entry<T>)
    ensures Statements(entries + [e]) == Statements(entries) + multiset{e.statement}
  {
    assert (entries + [e])[..|entries|] == entries;
  }

  lemma LastUseAppend(log: seq<string>, key: string, other: string)
    ensures LastUse(log + [key], other) == if other == key then |log| else LastUse(log, other)
  {
    assert (log + [key])[..|log|] == log;
  }

  /** Using a key that is not in the list puts it at the end. */
  lemma AppendKeeps<T>(entries: seq<Entry<T>>, log: seq<string>, e: Entry<T>)
    requires ByLastUse(entries, log) && forall i :: 0 <= i < |entries| ==> entries[i].key != e.key
    ensures ByLastUse(entries + [e], log + [e.key])
  {
    forall i | 0 <= i < |entries| + 1 {
      LastUseAppend(log, e.key, (entries + [e])[i].key);
    }
  }

  lemma WithoutKeeps<T>(entries: seq<Entry<T>>, log: seq<string>, i: nat)
    requires ByLastUse(entries, log) && i < |entries|
    ensures ByLastUse(Without(entries, i), log)
    ensures forall j :: 0 <= j < |entries| - 1 ==> Without(entries, i)[j].key != entries[i].key
  {
  }

  // ------------------------------------------------------------------ the operations

  /** The cache, the keys used so far, and where every inserted statement has gone. */
  datatype State<T> = State(
    entries: seq<Entry<T>>, log: seq<string>, inserted: multiset<T>, returned: multiset<T>, cleared: multiset<T>)

  function IndexOf<T>(entries: seq<Entry<T>>, key: string): (i: int)
    ensures -1 <= i < |entries|
    ensures i >= 0 ==> entries[i].key == key
    ensures i < 0 ==> forall j :: 0 <= j < |entries| ==> entries[j].key != key
  {
    if entries == [] then -1
    else if entries[|entries| - 1].key == key then |entries| - 1
    else IndexOf(entries[..|entries| - 1], key)
  }

  /** `get_mut`, and `contains_key`, which the map also counts as a use. */
  function Use<T>(s: State<T>, key: string): (State<T>, Option<T>) {
    var i := IndexOf(s.entries, key);
    if i < 0 then (s, None)
    else (s.(entries := Without(s.entries, i) + [s.entries[i]], log := s.log + [key]), Some(s.entries[i].statement))
  }

  /** Takes entry `i` out of the map and hands its statement to the caller. */
  function TakeOut<T>(s: State<T>, i: nat): (State<T>, Option<T>)
    requires i < |s.entries|
  {
    var v := s.entries[i].statement;
    (s.(entries := Without(s.entries, i), returned := s.returned + multiset{v}), Some(v))
  }

  function RemoveLru<T>(s: State<T>): (State<T>, Option<T>) {
    if s.entries == [] then (s, None) else TakeOut(s, 0)
  }

  /** The map's own insert drops the least recently used entry when it grows past its capacity. */
  function Put<T>(capacity: nat, s: State<T>, key: string, statement: T): State<T> {
    var entries := s.entries + [Entry(key, statement)];
    s.(entries := if |entries| > capacity then entries[1..] else entries,
       log := s.log + [key],
       inserted := s.inserted + multiset{statement})
  }

  /** What `insert` removes first: the entry with the same key, or the oldest if the cache is full. */
  function MakeRoom<T>(capacity: nat, s: State<T>, key: string): (State<T>, Option<T>) {
    var i := IndexOf(s.entries, key);
    if capacity == |s.entries| && i < 0 then RemoveLru(s)
    else if i >= 0 then TakeOut(s, i)
    else (s, None)
  }

  function Insert<T>(capacity: nat, s: State<T>, key: string, statement: T): (State<T>, Option<T>) {
    var (s1, r) := MakeRoom(capacity, s, key);
    (Put(capacity, s1, key, statement), r)
  }

  function Clear<T>(s: State<T>): State<T> {
    s.(entries := [], cleared := s.cleared + Statements(s.entries))
  }

  // ------------------------------------------------------------------ what every run keeps

  /** Every inserted statement is cached, was returned, or was cleared, each as often as it was inserted. */
  ghost predicate Accounted<T>(s: State<T>) {
    s.inserted == Statements(s.entries) + s.returned + s.cleared
  }

  ghost predicate Good<T>(capacity: nat, s: State<T>) {
    |s.entries| <= capacity && ByLastUse(s.entries, s.log) && Accounted(s)
  }

  lemma UseKeeps<T>(capacity: nat, s: State<T>, key: string)
    requires Good(capacity, s)
    ensures Good(capacity, Use(s, key).0)
  {
    var i := IndexOf(s.entries, key);
    if i >= 0 {
      var rest := Without(s.entries, i);
      WithoutKeeps(s.entries, s.log, i);
      AppendKeeps(rest, s.log, s.entries[i]);
      StatementsWithout(s.entries, i);
      StatementsAppend(rest, s.entries[i]);
    }
  }

  lemma TakeOutKeeps<T>(capacity: nat, s: State<T>, i: nat)
    requires Good(capacity, s) && i < |s.entries|
    ensures Good(capacity, TakeOut(s, i).0)
  {
    WithoutKeeps(s.entries, s.log, i);
    StatementsWithout(s.entries, i);
  }

  /** What leaves the cache was used longer ago than everything that stays. */
  lemma LeastRecent<T>(capacity: nat, s: State<T>)
    requires Good(capacity, s) && s.entries != []
    ensures RemoveLru(s).1 == Some(s.entries[0].statement)
    ensures forall e :: e in RemoveLru(s).0.entries ==> LastUse(s.log, s.entries[0].key) < LastUse(s.log, e.key)
    ensures Good(capacity, RemoveLru(s).0)
  {
    TakeOutKeeps(capacity, s, 0);
  }

  /**
   * With room for at least one statement, `insert` keeps the cache in order and within its capacity,
   * makes the new statement the most recent one, and returns exactly the statement it replaced, or
   * the least recently used one when a new key met a full cache.
   */
  lemma InsertKeeps<T>(capacity: nat, s: State<T>, key: string, statement: T)
    requires Good(capacity, s) && capacity > 0
    ensures var (after, r) := Insert(capacity, s, key, statement);
            var i := IndexOf(s.entries, key);
            && Good(capacity, after)
            && after.entries[|after.entries| - 1] == Entry(key, statement)
            && after.log == s.log + [key]
            && r == (if i >= 0 then Some(s.entries[i].statement)
                     else if |s.entries| == capacity then Some(s.entries[0].statement)
                     else None)
  {
    MakeRoomKeeps(capacity, s, key);
    PutKeeps(capacity, MakeRoom(capacity, s, key).0, key, statement);
  }

  lemma MakeRoomKeeps<T>(capacity: nat, s: State<T>, key: string)
    requires Good(capacity, s) && capacity > 0
    ensures var s1 := MakeRoom(capacity, s, key).0;
            && Good(capacity, s1) && |s1.entries| < capacity
            && (forall j :: 0 <= j < |s1.entries| ==> s1.entries[j].key != key)
  {
    var i := IndexOf(s.entries, key);
    if i >= 0 {
      TakeOutKeeps(capacity, s, i);
      WithoutKeeps(s.entries, s.log, i);
    } else if capacity == |s.entries| {
      TakeOutKeeps(capacity, s, 0);
    }
  }

  lemma PutKeeps<T>(capacity: nat, s: State<T>, key: string, statement: T)
    requires Good(capacity, s) && |s.entries| < capacity
    requires forall j :: 0 <= j < |s.entries| ==> s.entries[j].key != key
    ensures Good(capacity, Put(capacity, s, key, statement))
  {
    AppendKeeps(s.entries, s.log, Entry(key, statement));
    PutAccounts(capacity, s, key, statement);
  }

  lemma PutAccounts<T>(capacity: nat, s: State<T>, key: string, statement: T)
    requires Accounted(s) && |s.entries| < capacity
    ensures Accounted(Put(capacity, s, key, statement))
  {
    StatementsAppend(s.entries, Entry(key, statement));
  }

  /** No statement is lost exactly when the cache has room for one. */
  lemma InsertAccountsIff<T>(capacity: nat, s: State<T>, key: string, statement: T)
    requires Good(capacity, s)
    ensures Accounted(Insert(capacity, s, key, statement).0) <==> capacity > 0
  {
    if capacity > 0 {
      InsertKeeps(capacity, s, key, statement);
    } else {
      var after := Insert(capacity, s, key, statement).0;
      assert Statements(after.entries) == multiset{};
      assert |after.inserted| == |Statements(s.entries) + s.returned + s.cleared| + 1;
    }
  }

  datatype Op<T> = OpInsert(key: string, statement: T) | OpUse(key: string) | OpRemoveLru | OpClear

  function Step<T>(capacity: nat, s: State<T>, op: Op<T>): State<T> {
    match op
    case OpInsert(key, statement) => Insert(capacity, s, key, statement).0
    case OpUse(key) => Use(s, key).0
    case OpRemoveLru => RemoveLru(s).0
    case OpClear => Clear(s)
  }

  function Run<T>(capacity: nat, s: State<T>, ops: seq<Op<T>>): State<T>
    decreases |ops|
  {
    if ops == [] then s else Run(capacity, Step(capacity, s, ops[0]), ops[1..])
  }

  /** Order, capacity and accounting hold after any run of a cache with room for a statement. */
  lemma {:induction false} RunKeeps<T>(capacity: nat, s: State<T>, ops: seq<Op<T>>)
    requires capacity > 0 && Good(capacity, s)
    ensures Good(capacity, Run(capacity, s, ops))
    decreases |ops|
  {
    if ops != [] {
      match ops[0] {
        case OpInsert(key, statement) => InsertKeeps(capacity, s, key, statement);
        case OpUse(key) => UseKeeps(capacity, s, key);
        case OpRemoveLru =>
          if s.entries != [] {
            LeastRecent(capacity, s);
          }
        case OpClear =>
      }
      RunKeeps(capacity, Step(capacity, s, ops[0]), ops[1..]);
    }
  }

  // ------------------------------------------------------------------ what callers see: a map

  /** The statement cached for each key. */
  function Contents<T>(entries: seq<Entry<T>>): map<string, T> {
    if entries == [] then map[]
    else Contents(entries[..|entries| - 1])[entries[|entries| - 1].key := entries[|entries| - 1].statement]
  }

  predicate DistinctKeys<T>(entries: seq<Entry<T>>) {
    forall i, j :: 0 <= i < j < |entries| ==> entries[i].key != entries[j].key
  }

  lemma GoodIsDistinct<T>(capacity: nat, s: State<T>)
    requires Good(capacity, s)
    ensures DistinctKeys(s.entries)
  {
  }

  lemma {:induction false} ContentsHas<T>(entries: seq<Entry<T>>, key: string)
    requires DistinctKeys(entries)
    ensures key in Contents(entries) <==> IndexOf(entries, key) >= 0
    ensures key in Contents(entries) ==> Contents(entries)[key] == entries[IndexOf(entries, key)].statement
    decreases |entries|
  {
    if entries != [] {
      ContentsHas(entries[..|entries| - 1], key);
    }
  }

  /** Which index a key has does not depend on how it is searched for. */
  lemma {:induction false} IndexIs<T>(entries: seq<Entry<T>>, i: nat)
    requires DistinctKeys(entries) && i < |entries|
    ensures IndexOf(entries, entries[i].key) == i
    decreases |entries|
  {
    if i < |entries| - 1 {
      IndexIs(entries[..|entries| - 1], i);
    }
  }

  lemma ContentsAppend<T>(entries: seq<Entry<T>>, e: Entry<T>)
    ensures Contents(entries + [e]) == Contents(entries)[e.key := e.statement]
  {
    assert (entries + [e])[..|entries|] == entries;
  }

  lemma RemoveOther<T>(m: map<string, T>, k: string, v: T, x: string)
    requires x != k
    ensures (m - {x})[k := v] == m[k := v] - {x}
  {
  }

  lemma RemoveSame<T>(m: map<string, T>, k: string, v: T)
    ensures (m - {k})[k := v] == m[k := v]
    ensures k !in m ==> m[k := v] - {k} == m
  {
  }

  lemma {:induction false} ContentsWithout<T>(entries: seq<Entry<T>>, i: nat)
    requires DistinctKeys(entries) && i < |entries|
    ensures Contents(Without(entries, i)) == Contents(entries) - {entries[i].key}
    decreases |entries|
  {
    var init, last := entries[..|entries| - 1], entries[|entries| - 1];
    if i < |entries| - 1 {
      ContentsWithout(init, i);
      WithoutInit(entries, i);
      ContentsAppend(Without(init, i), last);
      RemoveOther(Contents(init), last.key, last.statement, entries[i].key);
    } else {
      assert Without(entries, i) == init;
      ContentsHas(init, last.key);
      RemoveSame(Contents(init), last.key, last.statement);
    }
  }

  lemma {:induction false} ContentsSize<T>(entries: seq<Entry<T>>)
    requires DistinctKeys(entries)
    ensures |Contents(entries)| == |entries|
    decreases |entries|
  {
    if entries != [] {
      var init, key := entries[..|entries| - 1], entries[|entries| - 1].key;
      ContentsSize(init);
      ContentsHas(init, key);
    }
  }

  /** Of the cached keys, the one whose last use is longest ago. */
  predicate IsOldest(keys: set<string>, log: seq<string>, key: string) {
    key in keys && forall x :: x in keys ==> LastUse(log, key) <= LastUse(log, x)
  }

  lemma FirstIsOldest<T>(capacity: nat, s: State<T>)
    requires Good(capacity, s) && s.entries != []
    ensures IsOldest(Contents(s.entries).Keys, s.log, s.entries[0].key)
    ensures Contents(s.entries)[s.entries[0].key] == s.entries[0].statement
  {
    GoodIsDistinct(capacity, s);
    IndexIs(s.entries, 0);
    ContentsHas(s.entries, s.entries[0].key);
    forall x | x in Contents(s.entries) ensures LastUse(s.log, s.entries[0].key) <= LastUse(s.log, x) {
      ContentsHas(s.entries, x);
    }
  }

  function Lookup<T>(contents: map<string, T>, key: string): Option<T> {
    if key in contents then Some(contents[key]) else None
  }

  /** A lookup finds the statement cached for the key, marks it as the latest use, and changes nothing else. */
  lemma UseFinds<T>(capacity: nat, s: State<T>, key: string)
    requires Good(capacity, s)
    ensures var (after, r) := Use(s, key);
            var contents := Contents(s.entries);
            && r == Lookup(contents, key)
            && Contents(after.entries) == contents
            && (r.None? ==> after == s)
            && (r.Some? ==>
                  && after.log == s.log + [key]
                  && after.entries != [] && after.entries[|after.entries| - 1] == Entry(key, r.value)
                  && after.inserted == s.inserted && after.returned == s.returned && after.cleared == s.cleared)
  {
    GoodIsDistinct(capacity, s);
    ContentsHas(s.entries, key);
    var i := IndexOf(s.entries, key);
    if i >= 0 {
      ContentsWithout(s.entries, i);
      ContentsAppend(Without(s.entries, i), s.entries[i]);
    }
  }

  /** What `insert` does to the map: it replaces, evicts the oldest key if it must, or just adds. */
  ghost predicate Inserts<T>(
    capacity: nat, before: map<string, T>, log: seq<string>, key: string, statement: T,
    after: map<string, T>, r: Option<T>)
  {
    if key in before then r == Some(before[key]) && after == before[key := statement]
    else if |before| == capacity then
      exists victim :: IsOldest(before.Keys, log, victim) && r == Some(before[victim])
                       && after == (before - {victim})[key := statement]
    else r.None? && after == before[key := statement]
  }

  /** The oldest key goes, if there is one. */
  ghost predicate Evicts<T>(before: map<string, T>, log: seq<string>, after: map<string, T>, r: Option<T>) {
    if before == map[] then r.None? && after == before
    else exists victim :: IsOldest(before.Keys, log, victim) && r == Some(before[victim]) && after == before - {victim}
  }

  lemma PutContents<T>(capacity: nat, s: State<T>, key: string, statement: T)
    requires |s.entries| < capacity
    ensures Contents(Put(capacity, s, key, statement).entries) == Contents(s.entries)[key := statement]
  {
    ContentsAppend(s.entries, Entry(key, statement));
  }

  lemma InsertReplaces<T>(capacity: nat, s: State<T>, key: string, statement: T)
    requires Good(capacity, s) && capacity > 0 && IndexOf(s.entries, key) >= 0
    ensures var (after, r) := Insert(capacity, s, key, statement);
            var before := Contents(s.entries);
            key in before && r == Some(before[key]) && Contents(after.entries) == before[key := statement]
  {
    GoodIsDistinct(capacity, s);
    ContentsHas(s.entries, key);
    var i := IndexOf(s.entries, key);
    ContentsWithout(s.entries, i);
    PutContents(capacity, TakeOut(s, i).0, key, statement);
    RemoveSame(Contents(s.entries), key, statement);
  }

  lemma InsertEvicts<T>(capacity: nat, s: State<T>, key: string, statement: T)
    requires Good(capacity, s) && capacity > 0 && IndexOf(s.entries, key) < 0 && |s.entries| == capacity
    ensures var (after, r) := Insert(capacity, s, key, statement);
            var before, victim := Contents(s.entries), s.entries[0].key;
            && IsOldest(before.Keys, s.log, victim) && r == Some(before[victim])
            && Contents(after.entries) == (before - {victim})[key := statement]
  {
    GoodIsDistinct(capacity, s);
    FirstIsOldest(capacity, s);
    ContentsWithout(s.entries, 0);
    PutContents(capacity, TakeOut(s, 0).0, key, statement);
  }

  lemma InsertFinds<T>(capacity: nat, s: State<T>, key: string, statement: T)
    requires Good(capacity, s) && capacity > 0
    ensures var (after, r) := Insert(capacity, s, key, statement);
            Inserts(capacity, Contents(s.entries), s.log, key, statement, Contents(after.entries), r)
  {
    GoodIsDistinct(capacity, s);
    ContentsHas(s.entries, key);
    ContentsSize(s.entries);
    if IndexOf(s.entries, key) >= 0 {
      InsertReplaces(capacity, s, key, statement);
    } else if |s.entries| == capacity {
      InsertEvicts(capacity, s, key, statement);
    } else {
      PutContents(capacity, s, key, statement);
    }
  }

  /** What `remove_lru` and `clear` do to it. */
  lemma RemoveFinds<T>(capacity: nat, s: State<T>)
    requires Good(capacity, s)
    ensures Contents(Clear(s).entries) == map[]
    ensures var (after, r) := RemoveLru(s);
            Evicts(Contents(s.entries), s.log, Contents(after.entries), r)
  {
    if s.entries != [] {
      GoodIsDistinct(capacity, s);
      FirstIsOldest(capacity, s);
      ContentsWithout(s.entries, 0);
    }
  }

  /** One operation on the map and the log of uses; `r` is what it returns. */
  ghost predicate MapStep<T>(
    capacity: nat, before: map<string, T>, log: seq<string>, op: Op<T>,
    after: map<string, T>, log1: seq<string>, r: Option<T>)
  {
    match op
    case OpInsert(key, statement) => Inserts(capacity, before, log, key, statement, after, r) && log1 == log + [key]
    case OpUse(key) =>
      after == before && r == Lookup(before, key) && log1 == if key in before then log + [key] else log
    case OpRemoveLru => Evicts(before, log, after, r) && log1 == log
    case OpClear => after == map[] && log1 == log && r.None?
  }

  /** What the caller gets from an operation. */
  function Returned<T>(capacity: nat, s: State<T>, op: Op<T>): Option<T> {
    match op
    case OpInsert(key, statement) => Insert(capacity, s, key, statement).1
    case OpUse(key) => Use(s, key).1
    case OpRemoveLru => RemoveLru(s).1
    case OpClear => None
  }

  lemma StepFinds<T>(capacity: nat, s: State<T>, op: Op<T>)
    requires Good(capacity, s) && capacity > 0
    ensures var after := Step(capacity, s, op);
            MapStep(capacity, Contents(s.entries), s.log, op, Contents(after.entries), after.log,
                    Returned(capacity, s, op))
  {
    match op
    case OpInsert(key, statement) =>
      InsertFinds(capacity, s, key, statement);
      InsertKeeps(capacity, s, key, statement);
    case OpUse(key) => UseFinds(capacity, s, key);
    case OpRemoveLru => RemoveFinds(capacity, s);
    case OpClear =>
  }

  /**
   * At every operation of every run the cache answers as a map would that holds, for each key, the
   * statement last inserted under it and not replaced, evicted or cleared since.
   */
  lemma RunFinds<T>(capacity: nat, s: State<T>, ops: seq<Op<T>>, i: nat)
    requires capacity > 0 && Good(capacity, s) && i < |ops|
    ensures var before := Run(capacity, s, ops[..i]);
            var after := Run(capacity, s, ops[..i + 1]);
            && MapStep(capacity, Contents(before.entries), before.log, ops[i], Contents(after.entries), after.log,
                       Returned(capacity, before, ops[i]))
  {
    RunKeeps(capacity, s, ops[..i]);
    StepFinds(capacity, Run(capacity, s, ops[..i]), ops[i]);
    TakeNext(ops, i);
    RunAppend(capacity, s, ops[..i], ops[i]);
  }

  /** A cache without room stays empty, so nothing is ever found, evicted or handed back. */
  lemma {:induction false} NoRoom<T>(s: State<T>, ops: seq<Op<T>>, i: nat)
    requires s.entries == [] && i < |ops|
    ensures var before := Run(0, s, ops[..i]);
            before.entries == [] && Returned(0, before, ops[i]).None?
    decreases i
  {
    if i > 0 {
      NoRoom(Step(0, s, ops[0]), ops[1..], i - 1);
      assert ops[..i][1..] == ops[1..][..i - 1];
    }
  }

  lemma {:induction false} RunAppend<T>(capacity: nat, s: State<T>, ops: seq<Op<T>>, op: Op<T>)
    ensures Run(capacity, s, ops + [op]) == Step(capacity, Run(capacity, s, ops), op)
    decreases |ops|
  {
    if ops == [] {
      assert [op][1..] == [] && ops + [op] == [op];
    } else {
      assert (ops + [op])[1..] == ops[1..] + [op];
      RunAppend(capacity, Step(capacity, s, ops[0]), ops[1..], op);
    }
  }

  // ------------------------------------------------------------------ the code

  class Cache<T> {
    const capacity: nat
    var entries: seq<Entry<T>>
    ghost var log: seq<string>
    ghost var inserted: multiset<T>
    ghost var returned: multiset<T>
    ghost var cleared: multiset<T>

    constructor (capacity: nat)
      ensures this.capacity == capacity && Good(capacity, Value()) && entries == []
    {
      this.capacity := capacity;
      entries, log, inserted, returned, cleared := [], [], multiset{}, multiset{}, multiset{};
    }

    ghost function Value(): State<T>
      reads this
    {
      State(entries, log, inserted, returned, cleared)
    }

    method Find(key: string) returns (at: int)
      ensures at == IndexOf(entries, key)
    {
      at := |entries|;
      assert entries[..at] == entries;
      while at > 0
        invariant 0 <= at <= |entries|
        invariant IndexOf(entries[..at], key) == IndexOf(entries, key)
      {
        at := at - 1;
        assert entries[..at + 1][..at] == entries[..at];
        if entries[at].key == key {
          return;
        }
      }
      at := -1;
    }

    method GetMut(key: string) returns (r: Option<T>)
      modifies this
      ensures (Value(), r) == Use(old(Value()), key)
    {
      var i := Find(key);
      if i < 0 {
        return None;
      }
      r := Some(entries[i].statement);
      entries := Without(entries, i) + [entries[i]];
      log := log + [key];
    }

    method EvictLru() returns (r: Option<T>)
      modifies this
      ensures (Value(), r) == RemoveLru(old(Value()))
    {
      if entries == [] {
        return None;
      }
      r := Some(entries[0].statement);
      entries, returned := Without(entries, 0), returned + multiset{entries[0].statement};
    }

    method InsertStatement(key: string, statement: T) returns (r: Option<T>)
      modifies this
      ensures (Value(), r) == Insert(capacity, old(Value()), key, statement)
    {
      r := RemoveBefore(key);
      entries := entries + [Entry(key, statement)];
      if |entries| > capacity {
        entries := entries[1..];
      }
      log, inserted := log + [key], inserted + multiset{statement};
    }

    method RemoveBefore(key: string) returns (r: Option<T>)
      modifies this
      ensures (Value(), r) == MakeRoom(capacity, old(Value()), key)
    {
      r := None;
      var i := Find(key);
      if capacity == |entries| && i < 0 {
        r := EvictLru();
      } else if i >= 0 {
        r := Some(entries[i].statement);
        entries, returned := Without(entries, i), returned + multiset{entries[i].statement};
      }
    }

    method ClearAll()
      modifies this
      ensures Value() == Clear(old(Value()))
    {
      cleared := cleared + Statements(entries);
      entries := [];
    }
  }
}
