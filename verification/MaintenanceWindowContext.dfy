/**
 Reconciling the maintenance windows that SSM reports with the ones kept in the window table.

 SSM only knows the next execution of a window; the table remembers the execution under way.  A pass
 keeps a stored window while it is running and otherwise takes what SSM says.  The in-memory store that
 mirrors the table shares the very dictionary that the pass reads the stored windows from.
 */
module MaintenanceWindowContext {
  import opened Wrappers
  import opened MaintenanceWindow

  type Windows = map<string, Window>

  function Get(windows: Windows, key: string): Option<Window> {
    if key in windows then Some(windows[key]) else None
  }

  /** The moment of a pass: the current time and the scheduling interval. */
  datatype Moment = Moment(utc: int, interval: nat)

  predicate Usable(w: Window, at: Moment) {
    InCalendar(w, at.interval) && at.utc + w.offset >= 1
  }

  predicate AllUsable(windows: Windows, at: Moment) {
    forall key | key in windows :: Usable(windows[key], at)
  }

  predicate IsRunning(window: Option<Window>, at: Moment)
    requires window.Some? ==> Usable(window.value, at)
  {
    window.Some? && IsRunningAt(window.value, at.utc, at.interval)
  }

  /* ---------- what a pass should do to the table ---------- */

  /** The entry after a pass: the stored one while it runs (or if its write fails), else what SSM says. */
  function ReconciledEntry(stored: Windows, ssm: Windows, at: Moment, failing: set<string>, key: string): Option<Window>
    requires AllUsable(stored, at)
  {
    if IsRunning(Get(stored, key), at) || key in failing then Get(stored, key) else Get(ssm, key)
  }

  function Reconciled(stored: Windows, ssm: Windows, at: Moment, failing: set<string>): (r: Windows)
    requires AllUsable(stored, at)
    ensures forall key :: Get(r, key) == ReconciledEntry(stored, ssm, at, failing, key)
  {
    map key | key in stored.Keys + ssm.Keys && ReconciledEntry(stored, ssm, at, failing, key).Some?
      :: ReconciledEntry(stored, ssm, at, failing, key).value
  }

  lemma SameEntriesSameWindows(a: Windows, b: Windows)
    requires forall key :: Get(a, key) == Get(b, key)
    ensures a == b
  {
    forall key ensures key in a <==> key in b {
      assert Get(a, key) == Get(b, key);
    }
    forall key | key in a ensures a[key] == b[key] {
      assert Get(a, key) == Get(b, key);
    }
  }

  /** Doing the same pass again changes nothing. */
  lemma ReconcilingAgainChangesNothing(stored: Windows, ssm: Windows, at: Moment, failing: set<string>)
    requires AllUsable(stored, at) && AllUsable(ssm, at)
    ensures var r := Reconciled(stored, ssm, at, failing);
            AllUsable(r, at) && Reconciled(r, ssm, at, failing) == r
  {
    var r := Reconciled(stored, ssm, at, failing);
    forall key | key in r ensures Usable(r[key], at) {
      assert Get(r, key) == ReconciledEntry(stored, ssm, at, failing, key);
    }
    SameEntriesSameWindows(Reconciled(r, ssm, at, failing), r);
  }

  /* ---------- runs of passes ---------- */

  datatype Pass = Pass(ssm: Windows, at: Moment, failing: set<string>)

  ghost predicate UsablePasses(stored: Windows, passes: seq<Pass>)
    decreases passes
  {
    passes == []
    || (AllUsable(stored, passes[0].at)
        && UsablePasses(Reconciled(stored, passes[0].ssm, passes[0].at, passes[0].failing), passes[1..]))
  }

  function AfterPasses(stored: Windows, passes: seq<Pass>): Windows
    requires UsablePasses(stored, passes)
    decreases passes
  {
    if passes == [] then stored
    else AfterPasses(Reconciled(stored, passes[0].ssm, passes[0].at, passes[0].failing), passes[1..])
  }

  /** Is the execution under way, and not in the one minute in which its schedule is not running? */
  predicate SafelyUnderWay(w: Window, at: Moment) {
    && at.utc + w.offset >= 1 && UnderWay(w, at.utc + w.offset)
    && InCalendar(w, at.interval) && !LastMinuteLost(w, at.interval, at.utc + w.offset)
  }

  /**
   An execution that is in the table stays there through any run of passes made while it is under way,
   whatever SSM reports in the meantime and whichever writes fail.
   */
  lemma {:induction false} WindowUnderWayIsRemembered(stored: Windows, passes: seq<Pass>, key: string, w: Window)
    requires UsablePasses(stored, passes) && Get(stored, key) == Some(w) && IsWindow(w)
    requires forall pass | pass in passes :: IsInterval(pass.at.interval) && SafelyUnderWay(w, pass.at)
    ensures Get(AfterPasses(stored, passes), key) == Some(w)
    decreases passes
  {
    if passes != [] {
      var at := passes[0].at;
      assert Usable(stored[key], at);
      WindowItselfIsCovered(w, at.interval, at.utc);
      hide IsRunningAt;
      assert passes[0] in passes;
      WindowUnderWayIsRemembered(Reconciled(stored, passes[0].ssm, at, passes[0].failing), passes[1..], key, w);
    }
  }

  /** In that one minute a pass replaces the execution under way by what SSM says, unless the write fails. */
  lemma LostMinuteForgets(stored: Windows, ssm: Windows, at: Moment, failing: set<string>, key: string, w: Window)
    requires AllUsable(stored, at) && Get(stored, key) == Some(w) && IsWindow(w) && IsInterval(at.interval)
    requires at.utc + w.offset >= 1 && UnderWay(w, at.utc + w.offset)
    requires InCalendar(w, at.interval) && LastMinuteLost(w, at.interval, at.utc + w.offset)
    ensures Get(Reconciled(stored, ssm, at, failing), key) == if key in failing then Some(w) else Get(ssm, key)
  {
    WindowItselfIsCovered(w, at.interval, at.utc);
    hide IsRunningAt;
  }

  /** Once nothing stored is running, a pass without write errors makes the table what SSM reports. */
  lemma TableFollowsSsm(stored: Windows, ssm: Windows, at: Moment)
    requires AllUsable(stored, at) && forall key | key in stored :: !IsRunning(Some(stored[key]), at)
    ensures Reconciled(stored, ssm, at, {}) == ssm
  {
    hide IsRunningAt;
    SameEntriesSameWindows(Reconciled(stored, ssm, at, {}), ssm);
  }

  /* ---------- the stores ---------- */

  /** A Python dictionary of windows, shared by reference. */
  class WindowDict {
    var entries: Windows

    constructor (entries: Windows)
      ensures this.entries == entries
    {
      this.entries := entries;
    }
  }

  predicate KeyedByName(windows: Windows, accountRegion: string) {
    forall key | key in windows :: windows[key].NameId() == key && windows[key].AccountRegion() == accountRegion
  }

  /** The window table; a write to one of the failing keys raises and changes nothing. */
  class WindowTable {
    var partitions: map<string, Windows>
    const failing: set<string>

    function Partition(accountRegion: string): Windows
      reads this
    {
      if accountRegion in partitions then partitions[accountRegion] else map[]
    }

    constructor (partitions: map<string, Windows>, failing: set<string>)
      ensures this.partitions == partitions && this.failing == failing
    {
      this.partitions, this.failing := partitions, failing;
    }

    method Put(w: Window) returns (ok: bool)
      modifies this
      ensures ok == (w.NameId() !in failing)
      ensures partitions == if ok
          then old(partitions)[w.AccountRegion() := old(Partition(w.AccountRegion()))[w.NameId() := w]]
          else old(partitions)
    {
      if w.NameId() in failing {
        return false;
      }
      partitions := partitions[w.AccountRegion() := Partition(w.AccountRegion())[w.NameId() := w]];
      return true;
    }

    method Delete(w: Window) returns (ok: bool)
      modifies this
      ensures ok == (w.NameId() !in failing)
      ensures partitions == if ok
          then old(partitions)[w.AccountRegion() := old(Partition(w.AccountRegion())) - {w.NameId()}]
          else old(partitions)
    {
      if w.NameId() in failing {
        return false;
      }
      partitions := partitions[w.AccountRegion() := Partition(w.AccountRegion()) - {w.NameId()}];
      return true;
    }
  }

  /** The in-memory store: its own outer dictionary, the caller's inner ones. */
  class InMemoryStore {
    var data: map<string, WindowDict>

    constructor (initialData: map<string, WindowDict>)
      ensures data == initialData
    {
      data := initialData;
    }

    method Put(w: Window)
      modifies this, if w.AccountRegion() in data then {data[w.AccountRegion()]} else {}
      ensures w.AccountRegion() in data && (w.AccountRegion() in old(data) ==> data == old(data))
      ensures w.AccountRegion() in old(data) ==>
                data[w.AccountRegion()].entries == old(data[w.AccountRegion()].entries)[w.NameId() := w]
      ensures w.AccountRegion() !in old(data) ==>
                fresh(data[w.AccountRegion()]) && data[w.AccountRegion()].entries == map[w.NameId() := w]
                && data == old(data)[w.AccountRegion() := data[w.AccountRegion()]]
    {
      if w.AccountRegion() !in data {
        var inner := new WindowDict(map[]);
        data := data[w.AccountRegion() := inner];
      }
      var inner := data[w.AccountRegion()];
      inner.entries := inner.entries[w.NameId() := w];
    }

    /** Popping a key that is not there raises. */
    method Delete(w: Window) returns (ok: bool)
      modifies if w.AccountRegion() in data then {data[w.AccountRegion()]} else {}
      ensures ok <==> (w.AccountRegion() in data ==> w.NameId() in old(data[w.AccountRegion()].entries))
      ensures w.AccountRegion() in data ==>
                data[w.AccountRegion()].entries == old(data[w.AccountRegion()].entries) - {w.NameId()}
    {
      if w.AccountRegion() in data {
        var inner := data[w.AccountRegion()];
        if w.NameId() !in inner.entries {
          return false;
        }
        inner.entries := inner.entries - {w.NameId()};
      }
      return true;
    }
  }

  /* ---------- the pass ---------- */

  /** The windows SSM reports that have a next execution and are named by a schedule. */
  function Relevant(windows: seq<Window>, referenced: set<string>): (r: seq<Window>)
    ensures forall w | w in r :: w in windows
  {
    if windows == [] then [] else IfRelevant(windows[0], referenced) + Relevant(windows[1..], referenced)
  }

  function IfRelevant(w: Window, referenced: set<string>): seq<Window> {
    if w.nextExecution.Some? && w.windowName in referenced then [w] else []
  }

  /** By name and id; a later window of the same name and id wins. */
  function CollectByNameId(windows: seq<Window>): (r: Windows)
    ensures forall key | key in r :: r[key] in windows && r[key].NameId() == key
    decreases windows
  {
    if windows == [] then map[]
    else
      var last := windows[|windows| - 1];
      CollectByNameId(windows[..|windows| - 1])[last.NameId() := last]
  }

  predicate Eligible(w: Window, referenced: set<string>) {
    w.windowName in referenced && w.nextExecution.Some?
  }

  /** Position `i` reports the window that counts under `key`: the last eligible one of that name and id. */
  ghost predicate IsLatest(report: seq<Window>, referenced: set<string>, key: string, i: nat) {
    && i < |report| && Eligible(report[i], referenced) && report[i].NameId() == key
    && forall j | i < j < |report| && Eligible(report[j], referenced) :: report[j].NameId() != key
  }

  ghost predicate IsReported(report: seq<Window>, referenced: set<string>, key: string, w: Option<Window>) {
    match w
    case Some(w) => exists i: nat :: IsLatest(report, referenced, key, i) && report[i] == w
    case None => forall v | v in report && Eligible(v, referenced) :: v.NameId() != key
  }

  lemma {:induction false} RelevantAppend(windows: seq<Window>, w: Window, referenced: set<string>)
    ensures Relevant(windows + [w], referenced) == Relevant(windows, referenced) + IfRelevant(w, referenced)
  {
    hide IfRelevant;
    if windows == [] {
      assert [w][1..] == [];
    } else {
      var all, rest := windows + [w], windows[1..];
      assert all[0] == windows[0] && all[1..] == rest + [w];
      RelevantAppend(rest, w, referenced);
      assert Relevant(all, referenced) == IfRelevant(windows[0], referenced) + Relevant(rest + [w], referenced);
      assert Relevant(windows, referenced) == IfRelevant(windows[0], referenced) + Relevant(rest, referenced);
      hide Relevant;
    }
  }

  lemma CollectAppend(windows: seq<Window>, w: Window)
    ensures CollectByNameId(windows + [w]) == CollectByNameId(windows)[w.NameId() := w]
  {
    assert (windows + [w])[..|windows|] == windows;
  }

  lemma ReportedNext(report: seq<Window>, last: Window, referenced: set<string>, key: string, w: Option<Window>)
    requires IsReported(report, referenced, key, w)
    ensures IsReported(report + [last], referenced, key,
                       if Eligible(last, referenced) && last.NameId() == key then Some(last) else w)
  {
    hide Eligible;
    var all := report + [last];
    assert all[|report|] == last;
    if Eligible(last, referenced) && last.NameId() == key {
      assert IsLatest(all, referenced, key, |report|);
    } else if w.Some? {
      var i: nat :| IsLatest(report, referenced, key, i) && report[i] == w.value;
      assert IsLatest(all, referenced, key, i) && all[i] == w.value;
    }
  }

  /**
   What the pass takes from SSM: under each name and id the last window reported that a schedule names
   and that has a next execution, and nothing under the others.
   */
  lemma {:induction false} TakenFromReport(report: seq<Window>, referenced: set<string>, key: string)
    ensures IsReported(report, referenced, key, Get(CollectByNameId(Relevant(report, referenced)), key))
    decreases report
  {
    if report != [] {
      var rest, last := report[..|report| - 1], report[|report| - 1];
      assert report == rest + [last];
      hide Relevant, CollectByNameId, IsReported, Eligible;
      TakenFromReport(rest, referenced, key);
      TakenNext(rest, last, referenced, key);
    }
  }

  lemma TakenNext(report: seq<Window>, last: Window, referenced: set<string>, key: string)
    requires IsReported(report, referenced, key, Get(CollectByNameId(Relevant(report, referenced)), key))
    ensures IsReported(report + [last], referenced, key, Get(CollectByNameId(Relevant(report + [last], referenced)), key))
  {
    hide Relevant, CollectByNameId, IsReported;
    var relevant := Relevant(report, referenced);
    RelevantAppend(report, last, referenced);
    CollectAppend(relevant, last);
    assert relevant + [] == relevant;
    ReportedNext(report, last, referenced, key, Get(CollectByNameId(relevant), key));
  }

  /**
   After a pass: what is not running, and whose write does not fail, is what the report says; the rest
   is as it was.
   */
  ghost predicate TakesReport(
    before: Windows, after: Windows, report: seq<Window>, referenced: set<string>, at: Moment, failing: set<string>)
  {
    AllUsable(before, at)
    && forall key ::
         if IsRunning(Get(before, key), at) || key in failing then Get(after, key) == Get(before, key)
         else IsReported(report, referenced, key, Get(after, key))
  }

  lemma ReconciledTakesReport(
    before: Windows, report: seq<Window>, referenced: set<string>, at: Moment, failing: set<string>)
    requires AllUsable(before, at)
    ensures var ssm := CollectByNameId(Relevant(report, referenced));
            TakesReport(before, Reconciled(before, ssm, at, failing), report, referenced, at, failing)
  {
    var ssm := CollectByNameId(Relevant(report, referenced));
    var after := Reconciled(before, ssm, at, failing);
    hide IsRunning, IsReported, Relevant, CollectByNameId;
    forall key
      ensures if IsRunning(Get(before, key), at) || key in failing then Get(after, key) == Get(before, key)
              else IsReported(report, referenced, key, Get(after, key))
    {
      assert Get(after, key) == ReconciledEntry(before, ssm, at, failing, key);
      TakenFromReport(report, referenced, key);
    }
  }

  predicate IsUpdate(original: Windows, new_: Windows, key: string) {
    key in new_ && Get(original, key) != Some(new_[key])
  }

  method ComputeDelta(original: Windows, new_: Windows)
    returns (unchanged_: Windows, updated: Windows, deleted: Windows)
    ensures forall key :: key in updated <==> IsUpdate(original, new_, key)
    ensures forall key :: key in unchanged_ <==> key in new_ && !IsUpdate(original, new_, key)
    ensures forall key :: key in deleted <==> key in original && key !in new_
    ensures forall key | key in updated :: Get(new_, key) == Some(updated[key])
    ensures forall key | key in unchanged_ :: Get(new_, key) == Some(unchanged_[key])
    ensures forall key | key in deleted :: Get(original, key) == Some(deleted[key])
  {
    unchanged_, updated, deleted := map[], map[], map[];
    var rest := new_.Keys;
    while rest != {}
      invariant rest <= new_.Keys
      invariant forall key :: key in updated <==> IsUpdate(original, new_, key) && key !in rest
      invariant forall key :: key in unchanged_ <==> key in new_ && !IsUpdate(original, new_, key) && key !in rest
      invariant forall key | key in updated :: updated[key] == new_[key]
      invariant forall key | key in unchanged_ :: unchanged_[key] == new_[key]
    {
      var key :| key in rest;
      rest := rest - {key};
      if Get(original, key) == Some(new_[key]) {
        unchanged_ := unchanged_[key := new_[key]];
      } else {
        updated := updated[key := new_[key]];
      }
    }
    rest := original.Keys;
    while rest != {}
      invariant rest <= original.Keys
      invariant forall key :: key in deleted <==> key in original && key !in new_ && key !in rest
      invariant forall key | key in deleted :: deleted[key] == original[key]
    {
      var key :| key in rest;
      rest := rest - {key};
      if key !in new_ {
        deleted := deleted[key := original[key]];
      }
    }
  }

  /** The values of a dictionary, each once. */
  ghost predicate Lists(windows: seq<Window>, entries: Windows) {
    && (forall w | w in windows :: Get(entries, w.NameId()) == Some(w))
    && (forall key | key in entries :: entries[key] in windows)
    && (forall i, j | 0 <= i < j < |windows| :: windows[i].NameId() != windows[j].NameId())
  }

  lemma ListsOneMore(windows: seq<Window>, done: Windows, w: Window)
    requires Lists(windows, done) && w.NameId() !in done
    ensures Lists(windows + [w], done[w.NameId() := w])
  {
    forall i | 0 <= i < |windows| ensures windows[i].NameId() != w.NameId() {
      assert windows[i] in windows;
    }
  }

  method Values(entries: Windows, ghost accountRegion: string) returns (windows: seq<Window>)
    requires KeyedByName(entries, accountRegion)
    ensures Lists(windows, entries)
  {
    hide Lists;
    windows := [];
    var rest := entries.Keys;
    ghost var done: Windows := map[];
    assert Lists(windows, done) by {
      NothingToList();
    }
    while rest != {}
      invariant rest <= entries.Keys && done.Keys == entries.Keys - rest
      invariant forall key | key in done :: done[key] == entries[key]
      invariant Lists(windows, done)
    {
      var key :| key in rest;
      ListsOneMore(windows, done, entries[key]);
      rest := rest - {key};
      windows := windows + [entries[key]];
      done := done[key := entries[key]];
    }
    assert done == entries;
  }

  lemma NothingToList()
    ensures Lists([], map[])
  {
  }

  function WithName(windows: seq<Window>, name: string): seq<Window>
    decreases windows
  {
    if windows == [] then []
    else
      var last := windows[|windows| - 1];
      WithName(windows[..|windows| - 1], name) + if last.windowName == name then [last] else []
  }

  /** The index by name lists, under each name, exactly the windows of that name, in order. */
  ghost predicate IsIndex(index: map<string, seq<Window>>, windows: seq<Window>) {
    forall name :: (if name in index then index[name] else []) == WithName(windows, name)
  }

  method CollectAndAggregateByName(windows: seq<Window>) returns (index: map<string, seq<Window>>)
    ensures IsIndex(index, windows)
  {
    index := map[];
    for i := 0 to |windows|
      invariant IsIndex(index, windows[..i])
    {
      var w := windows[i];
      assert windows[..i + 1][..i] == windows[..i];
      if w.windowName !in index {
        index := index[w.windowName := [w]];
      } else {
        index := index[w.windowName := index[w.windowName] + [w]];
      }
      forall name ensures (if name in index then index[name] else []) == WithName(windows[..i + 1], name) {
        assert WithName(windows[..i + 1], name)
            == WithName(windows[..i], name) + if w.windowName == name then [w] else [];
      }
    }
    assert windows[..|windows|] == windows;
  }

  /** The windows after the keys in `done` have been reconciled and no others. */
  ghost predicate DoneFor(current: Windows, stored: Windows, ssm: Windows, at: Moment, failing: set<string>, done: set<string>)
    requires AllUsable(stored, at)
  {
    forall key :: Get(current, key)
      == (if key in done then ReconciledEntry(stored, ssm, at, failing, key) else Get(stored, key))
  }

  lemma NothingDone(stored: Windows, ssm: Windows, at: Moment, failing: set<string>)
    requires AllUsable(stored, at)
    ensures DoneFor(stored, stored, ssm, at, failing, {})
  {
  }

  lemma EntryNotDone(current: Windows, stored: Windows, ssm: Windows, at: Moment, failing: set<string>, done: set<string>, key: string)
    requires AllUsable(stored, at) && DoneFor(current, stored, ssm, at, failing, done) && key !in done
    ensures Get(current, key) == Get(stored, key)
  {
  }

  lemma UpdateOne(current: Windows, stored: Windows, ssm: Windows, at: Moment, failing: set<string>, done: set<string>, key: string)
    requires AllUsable(stored, at) && DoneFor(current, stored, ssm, at, failing, done) && key !in done
    ensures IsRunning(Get(stored, key), at) || key in failing ==>
              DoneFor(current, stored, ssm, at, failing, done + {key})
    ensures !IsRunning(Get(stored, key), at) && key !in failing && key in ssm ==>
              DoneFor(current[key := ssm[key]], stored, ssm, at, failing, done + {key})
    ensures !IsRunning(Get(stored, key), at) && key !in failing && key !in ssm ==>
              DoneFor(current - {key}, stored, ssm, at, failing, done + {key})
  {
    hide IsRunning;
    assert Get(current, key) == Get(stored, key);
  }

  lemma AllDone(current: Windows, stored: Windows, ssm: Windows, at: Moment, failing: set<string>, done: set<string>)
    requires AllUsable(stored, at) && DoneFor(current, stored, ssm, at, failing, done)
    requires forall key :: key in done <==> IsUpdate(stored, ssm, key) || (key in stored && key !in ssm)
    ensures current == Reconciled(stored, ssm, at, failing)
  {
    hide IsRunning;
    forall key ensures Get(current, key) == Get(Reconciled(stored, ssm, at, failing), key) {
      assert key !in done ==> Get(stored, key) == Get(ssm, key);
    }
    SameEntriesSameWindows(current, Reconciled(stored, ssm, at, failing));
  }

  class Context {
    const account: string
    const region: string
    const at: Moment
    const table: WindowTable
    var prefetched: Option<map<string, seq<Window>>>

    constructor (account: string, region: string, at: Moment, table: WindowTable)
      ensures this.account == account && this.region == region && this.at == at && this.table == table
      ensures prefetched == None
    {
      this.account, this.region, this.at, this.table, prefetched := account, region, at, table, None;
    }

    function AccountRegion(): string {
      account + ":" + region
    }

    function Stored(): Windows
      reads table
    {
      table.Partition(AccountRegion())
    }

    predicate IsReport(windows: seq<Window>) {
      forall w | w in windows :: w.AccountRegion() == AccountRegion() && Usable(w, at)
    }

    predicate Ready()
      reads table
    {
      KeyedByName(Stored(), AccountRegion()) && AllUsable(Stored(), at)
    }

    /** The table's partition and the shared dictionary agree, with the keys in `done` reconciled. */
    ghost predicate Mirrored(ddbData: WindowDict, inMemory: InMemoryStore, stored: Windows, ssm: Windows, done: set<string>)
      reads this, table, ddbData, inMemory
      requires AllUsable(stored, at)
    {
      && inMemory.data == map[AccountRegion() := ddbData]
      && Stored() == ddbData.entries
      && KeyedByName(Stored(), AccountRegion())
      && DoneFor(Stored(), stored, ssm, at, table.failing, done)
    }

    /** One write of the pass: refused while the stored window runs, else made to both stores. */
    method Apply(key: string, window: Window, delete: bool, ddbData: WindowDict, inMemory: InMemoryStore,
                 ghost stored: Windows, ghost ssm: Windows, ghost done: set<string>)
      requires AllUsable(stored, at) && Mirrored(ddbData, inMemory, stored, ssm, done)
      requires key !in done && window.NameId() == key && window.AccountRegion() == AccountRegion()
      requires if delete then key !in ssm && key in stored else Get(ssm, key) == Some(window)
      modifies table, ddbData, inMemory
      ensures Mirrored(ddbData, inMemory, stored, ssm, done + {key})
      ensures forall other | other != AccountRegion() :: table.Partition(other) == old(table.Partition(other))
    {
      hide DoneFor, IsRunning;
      EntryNotDone(Stored(), stored, ssm, at, table.failing, done, key);
      UpdateOne(Stored(), stored, ssm, at, table.failing, done, key);
      if IsRunning(Get(ddbData.entries, window.NameId()), at) {
        return;
      }
      if delete {
        var ok := table.Delete(window);
        if ok {
          var popped := inMemory.Delete(window);
          assert popped;
        }
      } else {
        var ok := table.Put(window);
        if ok {
          inMemory.Put(window);
        }
      }
    }

    /** The writes for all changes of one kind, in any order. */
    method ApplyAll(changes: Windows, delete: bool, ddbData: WindowDict, inMemory: InMemoryStore,
                    ghost stored: Windows, ghost ssm: Windows, ghost earlier: set<string>)
      requires AllUsable(stored, at) && Mirrored(ddbData, inMemory, stored, ssm, earlier)
      requires KeyedByName(changes, AccountRegion()) && changes.Keys !! earlier
      requires forall key | key in changes ::
                 if delete then key !in ssm && key in stored else Get(ssm, key) == Some(changes[key])
      modifies table, ddbData, inMemory
      ensures Mirrored(ddbData, inMemory, stored, ssm, earlier + changes.Keys)
      ensures forall other | other != AccountRegion() :: table.Partition(other) == old(table.Partition(other))
    {
      hide IsRunning, DoneFor, AllUsable;
      var rest := changes.Keys;
      ghost var done := earlier;
      while rest != {}
        invariant done == earlier + (changes.Keys - rest) && rest <= changes.Keys
        invariant Mirrored(ddbData, inMemory, stored, ssm, done)
        invariant forall other | other != AccountRegion() :: table.Partition(other) == old(table.Partition(other))
      {
        var key :| key in rest;
        rest := rest - {key};
        Apply(key, changes[key], delete, ddbData, inMemory, stored, ssm, done);
        done := done + {key};
      }
      assert done == earlier + changes.Keys;
    }

    /** The index holds every window of the table's partition exactly once, under its name. */
    ghost predicate Indexes(index: map<string, seq<Window>>, windows: Windows) {
      exists listing :: Lists(listing, windows) && IsIndex(index, listing)
    }

    /**
     The pass.  The table's partition becomes the pointwise reconciliation of what was stored and what
     SSM reports, although the stored windows are read through a dictionary that the pass itself changes
     behind the in-memory store; the other partitions stay as they are.
     */
    method Reconcile(report: seq<Window>, referenced: set<string>)
      requires Ready() && IsReport(report)
      modifies this, table
      ensures Stored() == Reconciled(old(Stored()), CollectByNameId(Relevant(report, referenced)), at, table.failing)
      ensures forall other | other != AccountRegion() :: table.Partition(other) == old(table.Partition(other))
      ensures prefetched.Some? && Indexes(prefetched.value, Stored())
      ensures TakesReport(old(Stored()), Stored(), report, referenced, at, table.failing)
    {
      hide IsRunning, DoneFor, Reconciled, Lists, IsIndex, AllUsable, Usable, Relevant, TakesReport;
      var ssm := CollectByNameId(Relevant(report, referenced));
      ghost var stored := Stored();
      var ddbData := new WindowDict(Stored());
      var inMemory := new InMemoryStore(map[AccountRegion() := ddbData]);
      var unchanged_, updated, deleted := ComputeDelta(ddbData.entries, ssm);
      NothingDone(stored, ssm, at, table.failing);

      assert {} + updated.Keys == updated.Keys;
      ApplyAll(updated, false, ddbData, inMemory, stored, ssm, {});
      ApplyAll(deleted, true, ddbData, inMemory, stored, ssm, updated.Keys);
      AllDone(Stored(), stored, ssm, at, table.failing, updated.Keys + deleted.Keys);
      ReconciledTakesReport(stored, report, referenced, at, table.failing);

      var listing := Values(inMemory.data[AccountRegion()].entries, AccountRegion());
      var index := CollectAndAggregateByName(listing);
      prefetched := Some(index);
    }

    /** The windows of this name; the first lookup makes the pass. */
    method FindByName(name: string, report: seq<Window>, referenced: set<string>) returns (windows: seq<Window>)
      requires Ready() && IsReport(report)
      requires prefetched.Some? ==> Indexes(prefetched.value, Stored())
      modifies this, table
      ensures forall w :: w in windows <==> w.windowName == name && Get(Stored(), w.NameId()) == Some(w)
      ensures old(prefetched).Some? ==> Stored() == old(Stored()) && prefetched == old(prefetched)
      ensures old(prefetched).None? ==>
        Stored() == Reconciled(old(Stored()), CollectByNameId(Relevant(report, referenced)), at, table.failing)
        && TakesReport(old(Stored()), Stored(), report, referenced, at, table.failing)
    {
      if prefetched.None? {
        Reconcile(report, referenced);
      }
      windows := if name in prefetched.value then prefetched.value[name] else [];
      ghost var listing :| Lists(listing, Stored()) && IsIndex(prefetched.value, listing);
      assert windows == WithName(listing, name);
      WithNameHolds(listing, name);
    }
  }

  lemma {:induction false} WithNameHolds(windows: seq<Window>, name: string)
    ensures forall w :: w in WithName(windows, name) <==> w in windows && w.windowName == name
    decreases windows
  {
    if windows != [] {
      WithNameHolds(windows[..|windows| - 1], name);
      assert windows == windows[..|windows| - 1] + [windows[|windows| - 1]];
    }
  }
}
