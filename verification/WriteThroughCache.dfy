/**
 The cached stores of resources, schedules and periods: an in-memory store in front of a table.

 Writes go to the table first and are remembered; reads go to the memory first and remember what the
 table answers.  A search fetches a page of results and remembers each of them only when it is handed on,
 so a search that is still going on can meet writes made in the meantime.
 */
module WriteThroughCache {
  import opened Wrappers

  /** `page` holds the results that were fetched and not yet handed on. */
  datatype Stores<!K, +V> = Stores(memory: map<K, V>, table: map<K, V>, page: map<K, V>)

  datatype Op<!K, !V> =
    | Put(key: K, value: V, overwrite: bool)
    | Delete(key: K, errorIfMissing: bool)
    | Get(key: K)
    | Fetch(keys: set<K>)
    | Take(key: K)
    | Preload(entries: map<K, V>)

  function Lookup<K, V>(m: map<K, V>, key: K): Option<V> {
    if key in m then Some(m[key]) else None
  }

  predicate Submap<K, V(==)>(a: map<K, V>, b: map<K, V>) {
    forall k | k in a :: k in b && a[k] == b[k]
  }

  /** Searches find what the table holds and hand on what was fetched; preloading uses entries read from the table. */
  predicate Possible<K, V(==)>(s: Stores<K, V>, op: Op<K, V>) {
    match op
    case Fetch(keys) => keys <= s.table.Keys
    case Take(key) => key in s.page
    case Preload(entries) => Submap(entries, s.table)
    case _ => true
  }

  function Step<K, V>(s: Stores<K, V>, op: Op<K, V>): Stores<K, V> {
    match op
    case Put(k, v, overwrite) =>
      if !overwrite && k in s.table then s else s.(memory := s.memory[k := v], table := s.table[k := v])
    case Delete(k, errorIfMissing) =>
      if errorIfMissing && k !in s.table then s else s.(memory := s.memory - {k}, table := s.table - {k})
    case Get(k) =>
      if k !in s.memory && k in s.table then s.(memory := s.memory[k := s.table[k]]) else s
    case Fetch(keys) =>
      s.(page := map k | k in keys && k in s.table :: s.table[k])
    case Take(k) =>
      if k in s.page then s.(memory := s.memory[k := s.page[k]], page := s.page - {k}) else s
    case Preload(entries) =>
      s.(memory := s.memory + entries)
  }

  /** The same operation on the table alone. */
  function DirectStep<K, V>(table: map<K, V>, op: Op<K, V>): map<K, V> {
    match op
    case Put(k, v, overwrite) => if !overwrite && k in table then table else table[k := v]
    case Delete(k, errorIfMissing) => table - {k}
    case _ => table
  }

  /** In a search of `keys`, `page` is what is still to be handed on and `r` what has been. */
  ghost predicate Found<K, V>(table: map<K, V>, keys: set<K>, page: map<K, V>, r: map<K, V>) {
    page.Keys + r.Keys == keys && page.Keys !! r.Keys && Submap(page, table) && Submap(r, table)
  }

  lemma NothingFoundYet<K, V>(table: map<K, V>, keys: set<K>, page: map<K, V>)
    requires page == map k | k in keys && k in table :: table[k]
    requires keys <= table.Keys
    ensures Found(table, keys, page, map[])
  {
    assert page.Keys == keys;
  }

  lemma FoundOneMore<K, V>(table: map<K, V>, keys: set<K>, page: map<K, V>, r: map<K, V>, key: K)
    requires Found(table, keys, page, r) && key in page
    ensures Found(table, keys, page - {key}, r[key := page[key]])
    ensures (page - {key}).Keys < page.Keys
  {
  }

  lemma AllFound<K, V>(table: map<K, V>, keys: set<K>, r: map<K, V>)
    requires Found(table, keys, map[], r)
    ensures keys <= table.Keys && r == map k | k in keys :: table[k]
  {
    assert r.Keys == keys;
  }

  lemma RememberOne<K, V>(memory: map<K, V>, r: map<K, V>, key: K, value: V)
    ensures (memory + r)[key := value] == memory + r[key := value]
  {
  }

  class CachedStore<K(==), V(==)> {
    var memory: map<K, V>
    var table: map<K, V>
    var page: map<K, V>

    constructor (table: map<K, V>)
      ensures State() == Stores(map[], table, map[])
    {
      this.memory := map[];
      this.table := table;
      this.page := map[];
    }

    function State(): Stores<K, V>
      reads this
    {
      Stores(memory, table, page)
    }

    /** A refused write leaves both stores as they were. */
    method Put(key: K, value: V, overwrite: bool) returns (ok: bool)
      modifies this
      ensures ok <==> overwrite || key !in old(table)
      ensures State() == Step(old(State()), Op.Put(key, value, overwrite))
    {
      if !overwrite && key in table {
        return false;
      }
      table := table[key := value];
      memory := memory[key := value];
      return true;
    }

    method Delete(key: K, errorIfMissing: bool) returns (ok: bool)
      modifies this
      ensures ok <==> !errorIfMissing || key in old(table)
      ensures State() == Step(old(State()), Op.Delete(key, errorIfMissing))
    {
      if errorIfMissing && key !in table {
        return false;
      }
      table := table - {key};
      memory := memory - {key};
      return true;
    }

    method Get(key: K, cacheOnly: bool) returns (r: Option<V>)
      modifies this
      ensures cacheOnly ==> State() == old(State()) && r == Lookup(memory, key)
      ensures !cacheOnly ==> State() == Step(old(State()), Op.Get(key))
      ensures !cacheOnly ==> r == if key in old(memory) then Some(old(memory)[key]) else Lookup(old(table), key)
    {
      r := Lookup(memory, key);
      if r.None? && !cacheOnly {
        r := Lookup(table, key);
        if r.Some? {
          memory := memory[key := r.value];
        }
      }
    }

    /** A search asks the table for its results. */
    method Fetch(keys: set<K>)
      requires keys <= table.Keys
      modifies this
      ensures State() == Step(old(State()), Op.Fetch(keys))
    {
      page := map k | k in keys :: table[k];
    }

    /** The next result of the search: it is remembered before it is handed on. */
    method Take(key: K) returns (r: V)
      requires key in page
      modifies this
      ensures State() == Step(old(State()), Op.Take(key)) && r == old(page)[key]
    {
      r := page[key];
      memory := memory[key := r];
      page := page - {key};
    }

    /** A search that is taken to its end at once, as the stores of schedules and periods do. */
    method FindAll(keys: set<K>) returns (r: map<K, V>)
      requires keys <= table.Keys
      modifies this
      ensures r == map k | k in keys :: old(table)[k]
      ensures table == old(table) && memory == old(memory) + r && page == map[]
    {
      Fetch(keys);
      r := map[];
      hide Found;
      NothingFoundYet(table, keys, page);
      while page != map[]
        invariant table == old(table) && memory == old(memory) + r && Found(table, keys, page, r)
        decreases page.Keys
      {
        var key :| key in page;
        FoundOneMore(table, keys, page, r, key);
        RememberOne(old(memory), r, key, page[key]);
        var value := Take(key);
        r := r[key := value];
      }
      AllFound(table, keys, r);
    }

    method Preload(entries: map<K, V>)
      modifies this
      ensures State() == Step(old(State()), Op.Preload(entries))
    {
      ghost var done: map<K, V> := map[];
      var remaining := entries.Keys;
      while remaining != {}
        invariant remaining <= entries.Keys && table == old(table) && page == old(page)
        invariant done == map k | k in entries.Keys - remaining :: entries[k]
        invariant memory == old(memory) + done
        decreases |remaining|
      {
        var k :| k in remaining;
        memory := memory[k := entries[k]];
        done := done[k := entries[k]];
        remaining := remaining - {k};
      }
      assert done == entries;
    }
  }

  /* ---------- stale results ---------- */

  /** Is a fetched result still what the table holds? */
  predicate Current<K, V(==)>(s: Stores<K, V>, key: K) {
    key in s.page && Lookup(s.table, key) == Some(s.page[key])
  }

  /** Handing on a fetched result keeps the memory in line with the table exactly when the result is still current. */
  lemma TakeKeepsExactlyCurrent<K, V>(s: Stores<K, V>, key: K)
    requires Submap(s.memory, s.table) && key in s.page
    ensures var after := Step(s, Take(key)); Submap(after.memory, after.table) <==> Current(s, key)
  {
    var after := Step(s, Take(key));
    assert key in after.memory && after.memory[key] == s.page[key];
  }

  /** Does the operation write this key? */
  predicate Writes<K, V>(op: Op<K, V>, key: K) {
    (op.Put? || op.Delete?) && op.key == key
  }

  /** A fetched result stays current until its key is written; another search fetches current results only. */
  lemma CurrentUntilWritten<K, V>(s: Stores<K, V>, op: Op<K, V>, key: K)
    requires (key in s.page ==> Current(s, key)) && !Writes(op, key)
    ensures key in Step(s, op).page ==> Current(Step(s, op), key)
  {
  }

  /* ---------- over whole runs ---------- */

  function Run<K, V>(s: Stores<K, V>, ops: seq<Op<K, V>>): Stores<K, V>
    decreases ops
  {
    if ops == [] then s else Run(Step(s, ops[0]), ops[1..])
  }

  predicate PossibleRun<K, V(==)>(s: Stores<K, V>, ops: seq<Op<K, V>>)
    decreases ops
  {
    ops == [] || (Possible(s, ops[0]) && PossibleRun(Step(s, ops[0]), ops[1..]))
  }

  function DirectRun<K, V>(table: map<K, V>, ops: seq<Op<K, V>>): map<K, V>
    decreases ops
  {
    if ops == [] then table else DirectRun(DirectStep(table, ops[0]), ops[1..])
  }

  /** Is the memory in line with the table after every operation of the run? */
  predicate AlwaysInLine<K, V(==)>(s: Stores<K, V>, ops: seq<Op<K, V>>)
    decreases ops
  {
    Submap(s.memory, s.table) && (ops == [] || AlwaysInLine(Step(s, ops[0]), ops[1..]))
  }

  /** Is every result that the run hands on still current when it is handed on? */
  predicate TakesCurrent<K, V(==)>(s: Stores<K, V>, ops: seq<Op<K, V>>)
    decreases ops
  {
    ops == [] || ((ops[0].Take? ==> Current(s, ops[0].key)) && TakesCurrent(Step(s, ops[0]), ops[1..]))
  }

  lemma StepInLineExactly<K, V>(s: Stores<K, V>, op: Op<K, V>)
    requires Submap(s.memory, s.table) && Possible(s, op)
    ensures Submap(Step(s, op).memory, Step(s, op).table) <==> (op.Take? ==> Current(s, op.key))
    ensures Step(s, op).table == DirectStep(s.table, op)
  {
    if op.Take? {
      TakeKeepsExactlyCurrent(s, op.key);
    } else if op.Delete? && op.key !in s.table {
      assert s.table - {op.key} == s.table;
    }
  }

  /** In every run, the memory is always in line with the table exactly when no stale result is handed on. */
  lemma {:induction false} InLineExactly<K, V>(s: Stores<K, V>, ops: seq<Op<K, V>>)
    requires Submap(s.memory, s.table) && PossibleRun(s, ops)
    ensures AlwaysInLine(s, ops) <==> TakesCurrent(s, ops)
    decreases ops
  {
    if ops != [] {
      hide Submap, Step, Possible, Current;
      StepInLineExactly(s, ops[0]);
      if Submap(Step(s, ops[0]).memory, Step(s, ops[0]).table) {
        InLineExactly(Step(s, ops[0]), ops[1..]);
      }
    }
  }

  /**
   In every run from an empty memory that hands on no stale result, the table is what it would be
   without the cache, and reading through the cache gives what reading the table would.
   */
  lemma {:induction false} CacheIsTransparent<K, V>(s: Stores<K, V>, ops: seq<Op<K, V>>, key: K)
    requires Submap(s.memory, s.table) && PossibleRun(s, ops) && TakesCurrent(s, ops)
    ensures var after := Run(s, ops);
            && Submap(after.memory, after.table)
            && after.table == DirectRun(s.table, ops)
            && (if key in after.memory then Some(after.memory[key]) else Lookup(after.table, key))
               == Lookup(DirectRun(s.table, ops), key)
            && (key in after.memory ==> Lookup(after.memory, key) == Lookup(DirectRun(s.table, ops), key))
    decreases ops
  {
    if ops != [] {
      StepInLineExactly(s, ops[0]);
      hide Step, Possible, Current;
      CacheIsTransparent(Step(s, ops[0]), ops[1..], key);
    }
  }

  /** Does every search of the run end before the next write? */
  predicate WritesBetweenSearches<K, V>(s: Stores<K, V>, ops: seq<Op<K, V>>)
    decreases ops
  {
    ops == [] || (((ops[0].Put? || ops[0].Delete?) ==> s.page == map[]) && WritesBetweenSearches(Step(s, ops[0]), ops[1..]))
  }

  ghost predicate PageIsCurrent<K, V>(s: Stores<K, V>) {
    forall key | key in s.page :: Current(s, key)
  }

  /** So a run that ends every search before it writes again is transparent. */
  lemma {:induction false} EndedSearchesAreCurrent<K, V>(s: Stores<K, V>, ops: seq<Op<K, V>>)
    requires PageIsCurrent(s) && PossibleRun(s, ops) && WritesBetweenSearches(s, ops)
    ensures TakesCurrent(s, ops)
    decreases ops
  {
    if ops != [] {
      var next := Step(s, ops[0]);
      forall key | key in next.page ensures Current(next, key) {
        if !Writes(ops[0], key) {
          CurrentUntilWritten(s, ops[0], key);
        }
      }
      EndedSearchesAreCurrent(next, ops[1..]);
    }
  }

  /** A write of a key between the fetching and the handing on of an older result leaves the older one in the cache. */
  lemma StaleResultIsRemembered<K, V>(table: map<K, V>, key: K, newer: V)
    requires key in table && table[key] != newer
    ensures var ops := [Fetch({key}), Put(key, newer, true), Take(key)];
            var s := Stores(map[], table, map[]);
            PossibleRun(s, ops) && Lookup(Run(s, ops).table, key) == Some(newer) && Run(s, ops).memory == map[key := table[key]]
  {
    var s := Stores(map[], table, map[]);
    var s1 := Step(s, Fetch({key}));
    var s2 := Step(s1, Put(key, newer, true));
    var s3 := Step(s2, Take(key));
    assert s1.page == map[key := table[key]];
    var ops: seq<Op<K, V>> := [Fetch({key}), Put(key, newer, true), Take(key)];
    assert ops[1..] == [Put(key, newer, true), Take(key)] && ops[1..][1..] == [Take(key)] && ops[1..][1..][1..] == [];
    assert Run(s3, []) == s3 && Run(s2, [Take(key)]) == s3 && Run(s1, ops[1..]) == s3 && Run(s, ops) == s3;
    assert PossibleRun(s3, ops[1..][1..][1..]) && PossibleRun(s2, ops[1..][1..]) && PossibleRun(s1, ops[1..]);
  }

  /** A key that is remembered stays so until it is deleted. */
  lemma {:induction false} RememberedUntilDeleted<K, V>(s: Stores<K, V>, ops: seq<Op<K, V>>, key: K)
    requires key in s.memory
    requires forall i | 0 <= i < |ops| && ops[i].Delete? :: ops[i].key != key
    ensures key in Run(s, ops).memory
    decreases ops
  {
    if ops != [] {
      assert key in Step(s, ops[0]).memory;
      RememberedUntilDeleted(Step(s, ops[0]), ops[1..], key);
    }
  }

  /** Does the operation read, write, find or preload the key? */
  predicate Brings<K, V>(s: Stores<K, V>, op: Op<K, V>, key: K) {
    match op
    case Put(k, _, overwrite) => k == key && (overwrite || key !in s.table)
    case Get(k) => k == key && (key in s.table || key in s.memory)
    case Take(k) => k == key && key in s.page
    case Preload(entries) => key in entries
    case _ => false
  }

  /** What has been read, written, found or preloaded is read from the memory until it is deleted. */
  lemma ReadFromMemory<K, V>(s: Stores<K, V>, op: Op<K, V>, key: K, ops: seq<Op<K, V>>)
    requires Brings(s, op, key)
    requires forall i | 0 <= i < |ops| && ops[i].Delete? :: ops[i].key != key
    ensures key in Run(Step(s, op), ops).memory
  {
    RememberedUntilDeleted(Step(s, op), ops, key);
  }
}
