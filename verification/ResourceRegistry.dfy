/**
 The registry of scheduled resources, held as one dictionary per account keyed by sort key, and the
 grouping of its resources by scheduling target.

 A scheduling target is an account, a region and a service.  The orchestrator relies on the sort order
 of the keys to see each target's resources in one run.
 */
module ResourceRegistry {
  import opened Wrappers
  import opened Strings

  /* ---------- keys ---------- */

  datatype RegistryKey = RegistryKey(
    account: string, region: string, service: string, resourceType: string, resourceId: string)

  datatype Resource = Resource(key: RegistryKey, schedule: string, name: string, storedState: string)

  function TargetPrefix(region: string, service: string): string {
    "resource#" + (region + ['#'] + (service + ['#']))
  }

  function SortKey(key: RegistryKey): string {
    "resource#" + (key.region + ['#'] + (key.service + ['#'] + (key.resourceType + ['#'] + key.resourceId)))
  }

  function ParseSortKey(account: string, sortKey: string): Option<RegistryKey> {
    var parts := Split(sortKey, '#');
    if |parts| != 5 then None
    else Some(RegistryKey(account, parts[1], parts[2], parts[3], parts[4]))
  }

  predicate HashFree(s: string) {
    '#' !in s
  }

  predicate AllHashFree(key: RegistryKey) {
    HashFree(key.region) && HashFree(key.service) && HashFree(key.resourceType) && HashFree(key.resourceId)
  }

  lemma SplitOfSortKey(key: RegistryKey)
    ensures Split(SortKey(key), '#') ==
            ["resource"] + (Split(key.region, '#') + (Split(key.service, '#')
                            + (Split(key.resourceType, '#') + Split(key.resourceId, '#'))))
  {
    var tail3 := key.resourceType + ['#'] + key.resourceId;
    var tail2 := key.service + ['#'] + tail3;
    var tail1 := key.region + ['#'] + tail2;
    assert SortKey(key) == "resource" + ['#'] + tail1;
    SplitNothing("resource", '#');
    SplitConcat("resource", tail1, '#');
    SplitConcat(key.region, tail2, '#');
    SplitConcat(key.service, tail3, '#');
    SplitConcat(key.resourceType, key.resourceId, '#');
  }

  /** A sort key is read back, to the key it was made from, exactly when no part holds a `#`. */
  lemma SortKeyReadsBackExactly(key: RegistryKey)
    ensures ParseSortKey(key.account, SortKey(key)) == if AllHashFree(key) then Some(key) else None
  {
    SplitOfSortKey(key);
    OnePart(key.region, '#');
    OnePart(key.service, '#');
    OnePart(key.resourceType, '#');
    OnePart(key.resourceId, '#');
    hide Split, SortKey;
  }

  /* ---------- the order of strings ---------- */

  predicate Less(a: string, b: string) {
    b != "" && (a == "" || a[0] < b[0] || (a[0] == b[0] && Less(a[1..], b[1..])))
  }

  lemma {:induction false} LessIsTransitive(a: string, b: string, c: string)
    requires Less(a, b) && Less(b, c)
    ensures Less(a, c)
  {
    if a != "" && a[0] == b[0] && b[0] == c[0] {
      LessIsTransitive(a[1..], b[1..], c[1..]);
    }
  }

  lemma {:induction false} LessIsTotal(a: string, b: string)
    ensures a == b || Less(a, b) || Less(b, a)
    ensures !(Less(a, b) && Less(b, a)) && !Less(a, a)
  {
    if a != "" {
      if b != "" && a[0] == b[0] {
        LessIsTotal(a[1..], b[1..]);
        assert a == [a[0]] + a[1..] && b == [b[0]] + b[1..];
      }
      LessIsTotal(a[1..], a[1..]);
    }
  }

  /** What lies between two strings with a common prefix has that prefix too. */
  lemma {:induction false} PrefixesAreContiguous(p: string, a: string, b: string, c: string)
    requires p <= a && p <= c && Less(a, b) && Less(b, c)
    ensures p <= b
  {
    if p != "" {
      PrefixesAreContiguous(p[1..], a[1..], b[1..], c[1..]);
      assert b == [b[0]] + b[1..];
    }
  }

  lemma FirstHash(x: string, u: string, y: string, v: string)
    requires HashFree(x) && HashFree(y)
    ensures x + ['#'] + u <= y + ['#'] + v <==> x == y && u <= v
  {
    var s, t := x + ['#'] + u, y + ['#'] + v;
    if s <= t {
      if |x| < |y| {
        NoHashBefore(x, u, y);
      } else if |y| < |x| {
        NoHashBefore(y, v, x);
      }
      assert x == s[..|x|] && y == t[..|y|];
      assert u == s[|x| + 1..] && v == t[|y| + 1..];
    }
  }

  lemma NoHashBefore(x: string, u: string, y: string)
    requires HashFree(y) && |x| < |y|
    ensures (x + ['#'] + u)[|x|] != y[|x|]
  {
    assert y[|x|] in y;
  }

  /** The query's prefix selects the keys of the target and no others. */
  lemma PrefixSelectsTarget(key: RegistryKey, region: string, service: string)
    requires HashFree(key.region) && HashFree(key.service) && HashFree(region) && HashFree(service)
    ensures TargetPrefix(region, service) <= SortKey(key) <==> key.region == region && key.service == service
  {
    var rest := key.resourceType + ['#'] + key.resourceId;
    var p, q := region + ['#'] + (service + ['#']), key.region + ['#'] + (key.service + ['#'] + rest);
    assert service + ['#'] == service + ['#'] + "";
    FirstHash(service, "", key.service, rest);
    FirstHash(region, service + ['#'], key.region, key.service + ['#'] + rest);
    SamePrefix("resource#", p, q);
  }

  lemma SamePrefix(head: string, p: string, q: string)
    ensures head + p <= head + q <==> p <= q
  {
    assert (head + p)[|head|..] == p && (head + q)[|head|..] == q;
  }

  /* ---------- grouping ---------- */

  datatype SchedulingTarget = SchedulingTarget(account: string, region: string, service: string, resources: seq<Resource>)

  predicate SameTarget(a: RegistryKey, b: RegistryKey) {
    a.account == b.account && a.region == b.region && a.service == b.service
  }

  predicate IsFor(target: SchedulingTarget, key: RegistryKey) {
    target.account == key.account && target.region == key.region && target.service == key.service
  }

  function NewTarget(r: Resource): SchedulingTarget {
    SchedulingTarget(r.key.account, r.key.region, r.key.service, [r])
  }

  /** Maximal runs of resources with the same target. */
  function Runs(all: seq<Resource>): (targets: seq<SchedulingTarget>)
    ensures all != [] ==> targets != [] && IsFor(targets[0], all[0].key)
  {
    if all == [] then []
    else
      var rest := Runs(all[1..]);
      if rest != [] && IsFor(rest[0], all[0].key) then
        [rest[0].(resources := [all[0]] + rest[0].resources)] + rest[1..]
      else [NewTarget(all[0])] + rest
  }

  function AddToRuns(targets: seq<SchedulingTarget>, r: Resource): seq<SchedulingTarget> {
    if targets != [] && IsFor(targets[|targets| - 1], r.key) then
      var last := targets[|targets| - 1];
      targets[..|targets| - 1] + [last.(resources := last.resources + [r])]
    else targets + [NewTarget(r)]
  }

  lemma {:induction false} RunsOfAppend(all: seq<Resource>, r: Resource)
    ensures Runs(all + [r]) == AddToRuns(Runs(all), r)
  {
    if all == [] {
      assert [r][1..] == [];
    } else {
      assert (all + [r])[1..] == all[1..] + [r];
      RunsOfAppend(all[1..], r);
      AddToTail(Runs(all[1..]), all[0], r);
    }
  }

  function PutBefore(r: Resource, rest: seq<SchedulingTarget>): seq<SchedulingTarget> {
    if rest != [] && IsFor(rest[0], r.key) then [rest[0].(resources := [r] + rest[0].resources)] + rest[1..]
    else [NewTarget(r)] + rest
  }

  lemma AddToTail(rest: seq<SchedulingTarget>, first: Resource, r: Resource)
    ensures PutBefore(first, AddToRuns(rest, r)) == AddToRuns(PutBefore(first, rest), r)
  {
    if |rest| == 1 && IsFor(rest[0], first.key) && IsFor(rest[0], r.key) {
      assert [first] + (rest[0].resources + [r]) == [first] + rest[0].resources + [r];
    }
  }

  /** The loop over all resources that yields one target after the other. */
  method GroupByTarget(all: seq<Resource>) returns (targets: seq<SchedulingTarget>)
    ensures targets == Runs(all)
  {
    targets := [];
    var current: Option<SchedulingTarget> := None;
    for i := 0 to |all|
      invariant Runs(all[..i]) == targets + if current.Some? then [current.value] else []
      invariant current.None? ==> targets == []
    {
      var resource := all[i];
      RunsOfAppend(all[..i], resource);
      assert all[..i] + [resource] == all[..i + 1];
      if current.Some? && IsFor(current.value, resource.key) {
        current := Some(current.value.(resources := current.value.resources + [resource]));
      } else {
        if current.Some? {
          targets := targets + [current.value];
        }
        current := Some(NewTarget(resource));
      }
    }
    assert all[..|all|] == all;
    if current.Some? {
      targets := targets + [current.value];
    }
  }

  predicate IsOf(key: RegistryKey, account: string, region: string, service: string) {
    key.account == account && key.region == region && key.service == service
  }

  function ForTarget(all: seq<Resource>, account: string, region: string, service: string): (r: seq<Resource>)
    ensures forall x :: x in r <==> x in all && IsOf(x.key, account, region, service)
  {
    if all == [] then []
    else
      (if IsOf(all[0].key, account, region, service) then [all[0]] else []) + ForTarget(all[1..], account, region, service)
  }

  /** Nothing of another target lies between two resources of one target. */
  ghost predicate TargetsContiguous(all: seq<Resource>) {
    forall i, j, k | 0 <= i < j < k < |all| ::
      SameTarget(all[i].key, all[k].key) ==> SameTarget(all[i].key, all[j].key)
  }

  ghost predicate EachTargetOnce(targets: seq<SchedulingTarget>) {
    forall i, j | 0 <= i < j < |targets| ::
      !(targets[i].account == targets[j].account && targets[i].region == targets[j].region
        && targets[i].service == targets[j].service)
  }

  /** Are the resources of this target all those of its account, region and service, in order? */
  ghost predicate IsComplete(target: SchedulingTarget, all: seq<Resource>) {
    target.resources != [] && target.resources == ForTarget(all, target.account, target.region, target.service)
  }

  lemma FirstTargetIsNew(all: seq<Resource>, rest: seq<SchedulingTarget>, t: SchedulingTarget)
    requires all != [] && TargetsContiguous(all) && rest == Runs(all[1..])
    requires t in rest && IsComplete(t, all[1..]) && IsFor(t, all[0].key)
    ensures IsFor(rest[0], all[0].key)
  {
    var x := t.resources[0];
    var k :| 0 <= k < |all[1..]| && all[1..][k] == x;
    assert SameTarget(all[0].key, all[k + 1].key);
    assert k > 0 ==> SameTarget(all[0].key, all[1].key);
  }

  /** When the targets are contiguous, each run holds everything of its target, and no target has two runs. */
  lemma {:induction false} RunsAreTargets(all: seq<Resource>)
    requires TargetsContiguous(all)
    ensures AreTargetsOf(Runs(all), all)
  {
    if all != [] {
      var rest := Runs(all[1..]);
      RunsAreTargets(all[1..]);
      forall t | t in rest && IsFor(t, all[0].key) ensures IsFor(rest[0], all[0].key) {
        FirstTargetIsNew(all, rest, t);
      }
      if rest != [] && IsFor(rest[0], all[0].key) {
        MergeIntoFirst(all, rest);
      } else {
        StartNewTarget(all, rest);
      }
    }
  }

  lemma CompleteAfter(t: SchedulingTarget, all: seq<Resource>)
    requires all != [] && IsComplete(t, all[1..])
    ensures if IsFor(t, all[0].key) then IsComplete(t.(resources := [all[0]] + t.resources), all) else IsComplete(t, all)
  {
  }

  ghost predicate AreTargetsOf(targets: seq<SchedulingTarget>, all: seq<Resource>) {
    && EachTargetOnce(targets)
    && (forall t | t in targets :: IsComplete(t, all))
    && (forall r | r in all :: exists t | t in targets :: IsFor(t, r.key))
  }

  lemma MergeIntoFirst(all: seq<Resource>, rest: seq<SchedulingTarget>)
    requires all != [] && AreTargetsOf(rest, all[1..]) && rest != [] && IsFor(rest[0], all[0].key)
    ensures AreTargetsOf(PutBefore(all[0], rest), all)
  {
    var first := rest[0].(resources := [all[0]] + rest[0].resources);
    var targets := [first] + rest[1..];
    assert PutBefore(all[0], rest) == targets;
    MergedOnce(first, rest);
    MergedComplete(all, rest);
    hide IsComplete, EachTargetOnce, PutBefore;
    assert targets[0] in targets && IsFor(first, all[0].key);
    assert forall t | t in rest :: t == rest[0] || t in targets;
    forall r | r in all ensures exists t | t in targets :: IsFor(t, r.key) {
      if r != all[0] {
        assert r in all[1..];
        var t :| t in rest && IsFor(t, r.key);
        assert t == rest[0] ==> IsFor(first, r.key);
      }
    }
  }

  lemma MergedOnce(first: SchedulingTarget, rest: seq<SchedulingTarget>)
    requires EachTargetOnce(rest) && rest != [] && first.(resources := rest[0].resources) == rest[0]
    ensures EachTargetOnce([first] + rest[1..])
  {
  }

  lemma MergedComplete(all: seq<Resource>, rest: seq<SchedulingTarget>)
    requires all != [] && rest != [] && IsFor(rest[0], all[0].key) && EachTargetOnce(rest)
    requires forall t | t in rest :: IsComplete(t, all[1..])
    ensures forall t | t in [rest[0].(resources := [all[0]] + rest[0].resources)] + rest[1..] :: IsComplete(t, all)
  {
    CompleteAfter(rest[0], all);
    forall i | 0 < i < |rest| ensures IsComplete(rest[i], all) {
      CompleteAfter(rest[i], all);
    }
  }

  lemma StartNewTarget(all: seq<Resource>, rest: seq<SchedulingTarget>)
    requires all != [] && AreTargetsOf(rest, all[1..])
    requires forall t | t in rest :: !IsFor(t, all[0].key)
    ensures AreTargetsOf([NewTarget(all[0])] + rest, all)
  {
    NothingForNewTarget(all, rest);
    forall t | t in rest ensures IsComplete(t, all) {
      CompleteAfter(t, all);
    }
    hide IsComplete;
    OneMoreTarget(NewTarget(all[0]), rest);
    assert NewTarget(all[0]) in [NewTarget(all[0])] + rest;
    AllCovered(all, rest, [NewTarget(all[0])] + rest);
  }

  lemma OneMoreTarget(first: SchedulingTarget, rest: seq<SchedulingTarget>)
    requires EachTargetOnce(rest) && first.resources != [] && IsFor(first, first.resources[0].key)
    requires forall t | t in rest :: !IsFor(t, first.resources[0].key)
    ensures EachTargetOnce([first] + rest)
  {
    assert forall i | 0 <= i < |rest| :: rest[i] in rest;
  }

  lemma AllCovered(all: seq<Resource>, rest: seq<SchedulingTarget>, targets: seq<SchedulingTarget>)
    requires all != []
    requires forall r | r in all[1..] :: exists t | t in rest :: IsFor(t, r.key)
    requires exists t | t in targets :: IsFor(t, all[0].key)
    requires forall t | t in rest :: t in targets
    ensures forall r | r in all :: exists t | t in targets :: IsFor(t, r.key)
  {
    hide IsFor;
    forall r | r in all ensures exists t | t in targets :: IsFor(t, r.key) {
      if r != all[0] {
        assert r in all[1..];
        var t :| t in rest && IsFor(t, r.key);
        assert t in targets;
      }
    }
  }

  lemma {:induction false} NothingForTarget(all: seq<Resource>, account: string, region: string, service: string)
    requires forall x | x in all :: !IsOf(x.key, account, region, service)
    ensures ForTarget(all, account, region, service) == []
  {
    if all != [] {
      NothingForTarget(all[1..], account, region, service);
      assert all[0] in all;
    }
  }

  lemma NothingForNewTarget(all: seq<Resource>, rest: seq<SchedulingTarget>)
    requires all != []
    requires forall r | r in all[1..] :: exists t | t in rest :: IsFor(t, r.key)
    requires forall t | t in rest :: !IsFor(t, all[0].key)
    ensures IsComplete(NewTarget(all[0]), all)
  {
    NothingForTarget(all[1..], all[0].key.account, all[0].key.region, all[0].key.service);
  }

  /* ---------- ordered listings ---------- */

  /** Resources of one account in increasing order of their keys. */
  ghost predicate KeysIncrease(all: seq<Resource>) {
    forall i, j | 0 <= i < j < |all| && all[i].key.account == all[j].key.account ::
      Less(SortKey(all[i].key), SortKey(all[j].key))
  }

  ghost predicate AccountsContiguous(all: seq<Resource>) {
    forall i, j, k | 0 <= i < j < k < |all| ::
      all[i].key.account == all[k].key.account ==> all[i].key.account == all[j].key.account
  }

  ghost predicate OneAccount(all: seq<Resource>, account: string) {
    forall r | r in all :: r.key.account == account
  }

  ghost predicate TargetsHashFree(all: seq<Resource>) {
    forall r | r in all :: HashFree(r.key.region) && HashFree(r.key.service)
  }

  /** In key order, the resources of a target are contiguous. */
  lemma OrderedTargetsAreContiguous(all: seq<Resource>)
    requires KeysIncrease(all) && AccountsContiguous(all) && TargetsHashFree(all)
    ensures TargetsContiguous(all)
  {
    forall i, j, k | 0 <= i < j < k < |all| && SameTarget(all[i].key, all[k].key)
      ensures SameTarget(all[i].key, all[j].key)
    {
      var a, b, c := all[i].key, all[j].key, all[k].key;
      assert all[i] in all && all[j] in all && all[k] in all;
      hide SortKey, TargetPrefix, Less;
      PrefixSelectsTarget(a, a.region, a.service);
      PrefixSelectsTarget(b, a.region, a.service);
      PrefixSelectsTarget(c, a.region, a.service);
      PrefixesAreContiguous(TargetPrefix(a.region, a.service), SortKey(a), SortKey(b), SortKey(c));
    }
  }

  /** Two listings of the same resources of one account in key order are the same listing. */
  lemma {:induction false} ListingIsUnique(a: seq<Resource>, b: seq<Resource>, account: string)
    requires KeysIncrease(a) && KeysIncrease(b) && OneAccount(a, account) && OneAccount(b, account)
    requires forall r :: r in a <==> r in b
    ensures a == b
  {
    hide Less, SortKey;
    assert (a != [] ==> a[0] in b) && (b != [] ==> b[0] in a);
    if a != [] {
      SameHead(a, b, account);
      var x, y := a[1..], b[1..];
      assert a == [a[0]] + x && b == [b[0]] + y;
      HeadIsNotInTail(a, account);
      HeadIsNotInTail(b, account);
      hide KeysIncrease;
      assert forall r :: r in x <==> r in a && r != a[0];
      assert forall r :: r in y <==> r in b && r != b[0];
      TailIncreases(a);
      TailIncreases(b);
      ListingIsUnique(x, y, account);
    }
  }

  lemma TailIncreases(a: seq<Resource>)
    requires a != [] && KeysIncrease(a)
    ensures KeysIncrease(a[1..])
  {
    hide Less, SortKey;
  }

  lemma HeadIsNotInTail(a: seq<Resource>, account: string)
    requires a != [] && KeysIncrease(a) && OneAccount(a, account)
    ensures a[0] !in a[1..]
  {
    hide Less, SortKey;
    LessIsTotal(SortKey(a[0].key), SortKey(a[0].key));
  }

  lemma SameHead(a: seq<Resource>, b: seq<Resource>, account: string)
    requires a != [] && b != [] && a[0] in b && b[0] in a
    requires KeysIncrease(a) && KeysIncrease(b) && OneAccount(a, account) && OneAccount(b, account)
    ensures a[0] == b[0]
  {
    hide Less, SortKey;
    var i :| 0 <= i < |b| && b[i] == a[0];
    var j :| 0 <= j < |a| && a[j] == b[0];
    LessIsTotal(SortKey(a[0].key), SortKey(b[0].key));
  }

  lemma {:induction false} ForTargetIncreases(all: seq<Resource>, account: string, region: string, service: string)
    requires KeysIncrease(all)
    ensures KeysIncrease(ForTarget(all, account, region, service))
    ensures OneAccount(ForTarget(all, account, region, service), account)
  {
    hide Less, SortKey, IsOf;
    if all != [] {
      FirstKeyIsLeast(all);
      ForTargetIncreases(all[1..], account, region, service);
      var rest := ForTarget(all[1..], account, region, service);
      LeastKeyFirst(all[0], rest);
      hide KeysIncrease;
      if IsOf(all[0].key, account, region, service) {
        assert ForTarget(all, account, region, service) == [all[0]] + rest;
      } else {
        assert ForTarget(all, account, region, service) == [] + rest == rest;
      }
    }
    TargetIsOneAccount(all, account, region, service);
  }

  lemma TargetIsOneAccount(all: seq<Resource>, account: string, region: string, service: string)
    ensures OneAccount(ForTarget(all, account, region, service), account)
  {
  }

  lemma FirstKeyIsLeast(all: seq<Resource>)
    requires KeysIncrease(all) && all != []
    ensures KeysIncrease(all[1..])
    ensures forall x | x in all[1..] && x.key.account == all[0].key.account :: Less(SortKey(all[0].key), SortKey(x.key))
  {
    hide Less, SortKey;
    forall x | x in all[1..] && x.key.account == all[0].key.account ensures Less(SortKey(all[0].key), SortKey(x.key)) {
      var k :| 0 <= k < |all[1..]| && all[1..][k] == x;
      assert all[k + 1] == x;
    }
  }

  lemma LeastKeyFirst(first: Resource, rest: seq<Resource>)
    requires KeysIncrease(rest)
    requires forall x | x in rest && x.key.account == first.key.account :: Less(SortKey(first.key), SortKey(x.key))
    ensures KeysIncrease([first] + rest)
  {
    hide Less, SortKey;
  }

  /* ---------- the registry ---------- */

  type Table = map<string, map<string, Resource>>

  /** The resource stored for an account and sort key. */
  function Lookup(data: Table, account: string, sortKey: string): Option<Resource> {
    if account in data && sortKey in data[account] then Some(data[account][sortKey]) else None
  }

  predicate Holds(data: Table, r: Resource) {
    Lookup(data, r.key.account, SortKey(r.key)) == Some(r)
  }

  /** Each resource is stored under its own key, and no account's dictionary is left empty. */
  predicate IsTable(data: Table) {
    forall account | account in data :: OwnEntries(account, data[account])
  }

  predicate OwnEntries(account: string, entries: map<string, Resource>) {
    && entries != map[]
    && forall sk | sk in entries :: entries[sk].key.account == account && SortKey(entries[sk].key) == sk
  }

  /** The sort keys in increasing order. */
  method Sorted(keys: set<string>) returns (r: seq<string>)
    ensures forall k :: k in r <==> k in keys
    ensures forall i, j | 0 <= i < j < |r| :: Less(r[i], r[j])
  {
    r := [];
    var remaining := keys;
    while remaining != {}
      invariant remaining <= keys
      invariant forall k :: k in r <==> k in keys - remaining
      invariant forall i, j | 0 <= i < j < |r| :: Less(r[i], r[j])
      invariant forall i, k | 0 <= i < |r| && k in remaining :: Less(r[i], k)
      decreases |remaining|
    {
      var least := Least(remaining);
      r := r + [least];
      remaining := remaining - {least};
    }
  }

  method Least(keys: set<string>) returns (least: string)
    requires keys != {}
    ensures least in keys && forall k | k in keys && k != least :: Less(least, k)
  {
    hide Less;
    least :| least in keys;
    var remaining := keys - {least};
    while remaining != {}
      invariant remaining <= keys && least in keys
      invariant forall k | k in keys - remaining && k != least :: Less(least, k)
      decreases |remaining|
    {
      var k :| k in remaining;
      LessIsTotal(k, least);
      if Less(k, least) {
        forall other | other in keys - remaining && other != least ensures Less(k, other) {
          LessIsTransitive(k, least, other);
        }
        least := k;
      }
      remaining := remaining - {k};
    }
  }

  /** What an account's dictionary holds. */
  function Entries(data: Table, account: string): map<string, Resource> {
    if account in data then data[account] else map[]
  }

  lemma LookupInEntries(data: Table, account: string, sortKey: string)
    ensures Lookup(data, account, sortKey) ==
      if sortKey in Entries(data, account) then Some(Entries(data, account)[sortKey]) else None
  {
  }

  lemma OneAccountChanged(data: Table, after: Table, account: string)
    requires IsTable(data) && forall a | a != account :: (a in after <==> a in data) && Entries(after, a) == Entries(data, a)
    requires account in after ==> OwnEntries(account, Entries(after, account))
    ensures IsTable(after)
  {
    hide OwnEntries;
    forall a | a in after && a != account ensures OwnEntries(a, after[a]) {
      assert Entries(after, a) == Entries(data, a);
    }
  }

  lemma OneEntryStored(account: string, entries: map<string, Resource>, r: Resource)
    requires account == r.key.account && (entries == map[] || OwnEntries(account, entries))
    ensures OwnEntries(account, entries[SortKey(r.key) := r])
  {
    hide SortKey;
    assert SortKey(r.key) in entries[SortKey(r.key) := r];
  }

  lemma OneEntryDropped(account: string, entries: map<string, Resource>, sortKey: string)
    requires OwnEntries(account, entries)
    ensures entries - {sortKey} == map[] || OwnEntries(account, entries - {sortKey})
  {
    hide SortKey;
  }

  lemma StoreOne(data: Table, after: Table, r: Resource)
    requires IsTable(data)
    requires after == data[r.key.account := Entries(data, r.key.account)[SortKey(r.key) := r]]
    ensures IsTable(after)
    ensures forall a, k :: (Lookup(after, a, k) ==
              if a == r.key.account && k == SortKey(r.key) then Some(r) else Lookup(data, a, k))
  {
    hide SortKey, OwnEntries;
    OneEntryStored(r.key.account, Entries(data, r.key.account), r);
    OneAccountChanged(data, after, r.key.account);
    hide IsTable;
    forall a, k
      ensures Lookup(after, a, k) == if a == r.key.account && k == SortKey(r.key) then Some(r) else Lookup(data, a, k)
    {
      LookupInEntries(data, a, k);
      LookupInEntries(after, a, k);
      hide Lookup;
    }
  }

  /** Removing one entry, and its account's dictionary when that was the last one. */
  lemma DropOne(data: Table, after: Table, account: string, sortKey: string)
    requires IsTable(data) && account in data
    requires var rest := data[account] - {sortKey};
             after == if rest == map[] then data - {account} else data[account := rest]
    ensures IsTable(after)
    ensures forall a, k :: (Lookup(after, a, k) == if a == account && k == sortKey then None else Lookup(data, a, k))
  {
    hide OwnEntries;
    OneEntryDropped(account, data[account], sortKey);
    assert Entries(after, account) == data[account] - {sortKey};
    OneAccountChanged(data, after, account);
    hide IsTable;
    forall a, k ensures Lookup(after, a, k) == if a == account && k == sortKey then None else Lookup(data, a, k) {
      LookupInEntries(data, a, k);
      LookupInEntries(after, a, k);
      hide Lookup;
    }
  }

  class InMemoryResourceRegistry {
    var data: Table

    constructor ()
      ensures data == map[] && IsTable(data)
    {
      data := map[];
    }

    /** Stores a resource, unless its key is taken and overwriting is not asked for. */
    method Put(resource: Resource, overwrite: bool) returns (ok: bool)
      requires IsTable(data)
      modifies this
      ensures IsTable(data)
      ensures ok <==> overwrite || Lookup(old(data), resource.key.account, SortKey(resource.key)).None?
      ensures !ok ==> data == old(data)
      ensures ok ==> forall a, k :: (Lookup(data, a, k) ==
                if a == resource.key.account && k == SortKey(resource.key) then Some(resource) else Lookup(old(data), a, k))
    {
      var account, sortKey := resource.key.account, SortKey(resource.key);
      if !overwrite && account in data && sortKey in data[account] {
        return false;
      }
      hide IsTable, Lookup, SortKey;
      if account !in data {
        data := data[account := map[]];
      }
      data := data[account := data[account][sortKey := resource]];
      StoreOne(old(data), data, resource);
      return true;
    }

    method Get(key: RegistryKey) returns (r: Option<Resource>)
      ensures r == Lookup(data, key.account, SortKey(key))
    {
      if key.account !in data || SortKey(key) !in data[key.account] {
        return None;
      }
      return Some(data[key.account][SortKey(key)]);
    }

    method Delete(key: RegistryKey, errorIfMissing: bool) returns (ok: bool)
      requires IsTable(data)
      modifies this
      ensures IsTable(data)
      ensures ok <==> !errorIfMissing || Lookup(old(data), key.account, SortKey(key)).Some?
      ensures forall a, k :: (Lookup(data, a, k) ==
                if a == key.account && k == SortKey(key) then None else Lookup(old(data), a, k))
    {
      var sortKey := SortKey(key);
      if key.account !in data || sortKey !in data[key.account] {
        return !errorIfMissing;
      }
      hide IsTable, SortKey;
      data := data[key.account := data[key.account] - {sortKey}];
      if data[key.account] == map[] {
        data := data - {key.account};
        assert data == old(data) - {key.account};
      }
      DropOne(old(data), data, key.account, sortKey);
      hide Lookup;
      return true;
    }

    /** The resources of an account whose sort keys start with `prefix`, in key order. */
    method FindByPrefix(account: string, prefix: string) returns (r: seq<Resource>)
      requires IsTable(data)
      ensures KeysIncrease(r) && OneAccount(r, account)
      ensures forall x :: x in r <==> Holds(data, x) && x.key.account == account && prefix <= SortKey(x.key)
    {
      hide Less, SortKey;
      if account !in data {
        return [];
      }
      var accountData := data[account];
      var keys := Sorted(set k | k in accountData && prefix <= k);
      r := [];
      for i := 0 to |keys|
        invariant |r| == i
        invariant forall j | 0 <= j < i :: keys[j] in accountData && r[j] == accountData[keys[j]]
      {
        assert keys[i] in keys;
        r := r + [accountData[keys[i]]];
      }
      forall x ensures x in r <==> Holds(data, x) && x.key.account == account && prefix <= SortKey(x.key) {
        if x in r {
          var j :| 0 <= j < |r| && r[j] == x;
          assert keys[j] in keys;
        }
        if Holds(data, x) && x.key.account == account && prefix <= SortKey(x.key) {
          assert SortKey(x.key) in keys;
          var j :| 0 <= j < |keys| && keys[j] == SortKey(x.key);
          assert r[j] == x;
        }
      }
    }

    method FindByAccount(account: string) returns (r: seq<Resource>)
      requires IsTable(data)
      ensures KeysIncrease(r) && OneAccount(r, account)
      ensures forall x :: x in r <==> Holds(data, x) && x.key.account == account
    {
      r := FindByPrefix(account, "");
    }

    method FindBySchedulingTarget(account: string, region: string, service: string) returns (r: seq<Resource>)
      requires IsTable(data)
      ensures IsTargetListing(data, account, region, service, r)
    {
      r := FindByPrefix(account, TargetPrefix(region, service));
    }

    /**
     Lists every resource under its target.  With no `#` in a region or service, every target with a
     resource is listed once, with what a query for that target gives.
     */
    method ListAllBySchedulingTarget() returns (targets: seq<SchedulingTarget>)
      requires IsTable(data)
      ensures exists all :: IsListing(data, all) && targets == Runs(all)
      ensures StoredHashFree(data) ==>
                && EachTargetOnce(targets)
                && (forall x | Holds(data, x) :: exists t | t in targets :: IsFor(t, x.key))
                && (forall t | t in targets :: t.resources != []
                      && IsTargetListing(data, t.account, t.region, t.service, t.resources))
    {
      var all := FindAll();
      targets := GroupByTarget(all);
      assert IsListing(data, all);
      if StoredHashFree(data) {
        RunsAreListings(data, all);
      }
    }

    /** All resources: the accounts in any order, each account's resources in key order. */
    method FindAll() returns (r: seq<Resource>)
      requires IsTable(data)
      ensures KeysIncrease(r) && AccountsContiguous(r)
      ensures forall x :: x in r <==> Holds(data, x)
    {
      r := [];
      var remaining := data.Keys;
      while remaining != {}
        invariant remaining <= data.Keys
        invariant KeysIncrease(r) && AccountsContiguous(r)
        invariant forall x :: x in r <==> Holds(data, x) && x.key.account !in remaining
        decreases |remaining|
      {
        var account :| account in remaining;
        var more := FindByAccount(account);
        NextAccount(r, more, account);
        r := r + more;
        remaining := remaining - {account};
      }
    }
  }

  ghost predicate StoredHashFree(data: Table) {
    forall x | Holds(data, x) :: HashFree(x.key.region) && HashFree(x.key.service)
  }

  /** Every stored resource, the accounts contiguous and each in key order. */
  ghost predicate IsListing(data: Table, all: seq<Resource>) {
    KeysIncrease(all) && AccountsContiguous(all) && forall x :: x in all <==> Holds(data, x)
  }

  /** Is this what a query for the target gives: the resources with the target's key prefix, in key order? */
  ghost predicate IsTargetListing(data: Table, account: string, region: string, service: string, r: seq<Resource>) {
    && KeysIncrease(r) && OneAccount(r, account)
    && forall x :: x in r <==> Holds(data, x) && x.key.account == account && TargetPrefix(region, service) <= SortKey(x.key)
  }

  /** A query has one possible answer, so a listed target's resources are the query's answer in the same order. */
  lemma TargetListingIsUnique(data: Table, account: string, region: string, service: string, x: seq<Resource>, y: seq<Resource>)
    requires IsTargetListing(data, account, region, service, x) && IsTargetListing(data, account, region, service, y)
    ensures x == y
  {
    ListingIsUnique(x, y, account);
  }

  lemma RunsAreListings(data: Table, all: seq<Resource>)
    requires KeysIncrease(all) && AccountsContiguous(all) && TargetsHashFree(all)
    requires forall x :: x in all <==> Holds(data, x)
    ensures AreTargetsOf(Runs(all), all)
    ensures forall t | t in Runs(all) :: IsTargetListing(data, t.account, t.region, t.service, t.resources)
  {
    OrderedTargetsAreContiguous(all);
    RunsAreTargets(all);
    forall t | t in Runs(all) ensures IsTargetListing(data, t.account, t.region, t.service, t.resources) {
      CompleteIsListing(data, all, t);
    }
  }

  lemma CompleteIsListing(data: Table, all: seq<Resource>, t: SchedulingTarget)
    requires KeysIncrease(all) && TargetsHashFree(all) && IsComplete(t, all)
    requires forall x :: x in all <==> Holds(data, x)
    ensures IsTargetListing(data, t.account, t.region, t.service, t.resources)
  {
    hide KeysIncrease, SortKey, TargetPrefix, Holds;
    ForTargetIncreases(all, t.account, t.region, t.service);
    var first := t.resources[0];
    assert first in t.resources;
    forall x | x in all
      ensures TargetPrefix(t.region, t.service) <= SortKey(x.key) <==> x.key.region == t.region && x.key.service == t.service
    {
      PrefixSelectsTarget(x.key, t.region, t.service);
    }
  }

  lemma NextAccount(r: seq<Resource>, more: seq<Resource>, account: string)
    requires KeysIncrease(r) && AccountsContiguous(r) && KeysIncrease(more) && OneAccount(more, account)
    requires forall x | x in r :: x.key.account != account
    ensures KeysIncrease(r + more) && AccountsContiguous(r + more)
  {
  }
}
