/**
 * `entrypoints/popup/App.tsx`, the grouping side: `groupedTabs` buckets the filtered tabs
 * by the selected classifier's key (lodash `groupby`), drops the groups its `groupFilter`
 * rejects, and sorts the groups by key; the `GroupedTabs` component re-sorts them by size.
 * Both sorts are JavaScript's in-place stable `Array#sort`.
 */
module Grouping {
  import opened Wrappers
  import opened JsString
  import opened Seqs
  import opened Protocol
  import opened Classify

  /** One entry of `Object.entries(groupby(...))`: a key and its tabs. */
  datatype Group = Group(key: string, members: seq<Tab>)

  // ---------------------------------------------------------------- bucketing

  /** The tabs whose key is `k`, in scan order. */
  function Bucket(tabs: seq<Tab>, key: Tab -> string, k: string): seq<Tab> {
    Keep(tabs, t => key(t) == k)
  }

  /** The distinct keys of `tabs`, in the order they first occur. */
  function FirstKeys(tabs: seq<Tab>, key: Tab -> string): seq<string> {
    if tabs == [] then []
    else
      var ks := FirstKeys(tabs[..|tabs| - 1], key);
      var k := key(tabs[|tabs| - 1]);
      if k in ks then ks else ks + [k]
  }

  predicate Distinct(ks: seq<string>) {
    forall i, j :: 0 <= i < j < |ks| ==> ks[i] != ks[j]
  }

  /** The groups of `tabs` for the keys `ks`. */
  function EntriesOver(tabs: seq<Tab>, key: Tab -> string, ks: seq<string>): (r: seq<Group>)
    ensures |r| == |ks|
  {
    seq(|ks|, i requires 0 <= i < |ks| => Group(ks[i], Bucket(tabs, key, ks[i])))
  }

  /** `Object.entries(groupby(tabs, groupKey))`, one group per distinct key. */
  function Entries(tabs: seq<Tab>, key: Tab -> string): seq<Group> {
    EntriesOver(tabs, key, FirstKeys(tabs, key))
  }

  /** The set of keys the tabs have. */
  function KeySet(tabs: seq<Tab>, key: Tab -> string): set<string> {
    set t | t in tabs :: key(t)
  }

  /** The keys are distinct, and they are exactly the keys of the tabs. */
  lemma {:induction false} FirstKeysSpec(tabs: seq<Tab>, key: Tab -> string)
    ensures Distinct(FirstKeys(tabs, key))
    ensures forall k :: k in FirstKeys(tabs, key) <==> k in KeySet(tabs, key)
  {
    if tabs != [] {
      var front, last := tabs[..|tabs| - 1], tabs[|tabs| - 1];
      FirstKeysSpec(front, key);
      MultisetSnoc(tabs);
      assert KeySet(tabs, key) == KeySet(front, key) + {key(last)};
    }
  }

  /** A key has a non-empty bucket exactly when some tab has that key. */
  lemma BucketNonEmpty(tabs: seq<Tab>, key: Tab -> string, k: string)
    ensures Bucket(tabs, key, k) != [] <==> k in KeySet(tabs, key)
  {
    var p := t => key(t) == k;
    if k in KeySet(tabs, key) {
      var t :| t in tabs && key(t) == k;
      KeepMember(tabs, p, t);
    }
    if Bucket(tabs, key, k) != [] {
      KeepMember(tabs, p, Bucket(tabs, key, k)[0]);
    }
  }

  /** Scanning one more tab adds it to the bucket of its own key only. */
  lemma BucketPrefix(tabs: seq<Tab>, i: nat, key: Tab -> string, k: string)
    requires i < |tabs|
    ensures Bucket(tabs[..i + 1], key, k) ==
      Bucket(tabs[..i], key, k) + (if key(tabs[i]) == k then [tabs[i]] else [])
  {
    KeepPrefix(tabs, i, t => key(t) == k);
  }

  lemma FirstKeysPrefix(tabs: seq<Tab>, i: nat, key: Tab -> string)
    requires i < |tabs|
    ensures FirstKeys(tabs[..i + 1], key) ==
      var ks := FirstKeys(tabs[..i], key);
      if key(tabs[i]) in ks then ks else ks + [key(tabs[i])]
  {
    PrefixSnoc(tabs, i);
  }

  /** `keys` and `buckets` are what `groupby` has built after scanning `tabs`. */
  ghost predicate Grouped(tabs: seq<Tab>, key: Tab -> string, keys: seq<string>, buckets: map<string, seq<Tab>>) {
    keys == FirstKeys(tabs, key) &&
    (forall k :: k in buckets <==> k in keys) &&
    forall k :: k in buckets ==> buckets[k] == Bucket(tabs, key, k)
  }

  /** Scanning one more tab: append it to its key's bucket, creating the bucket if it is new. */
  lemma GroupedStep(tabs: seq<Tab>, i: nat, key: Tab -> string, keys: seq<string>, buckets: map<string, seq<Tab>>)
    requires i < |tabs| && Grouped(tabs[..i], key, keys, buckets)
    ensures var t := tabs[i];
      var k := key(t);
      Grouped(tabs[..i + 1], key,
        if k in buckets then keys else keys + [k],
        buckets[k := if k in buckets then buckets[k] + [t] else [t]])
  {
    var t := tabs[i];
    var k := key(t);
    var keys' := if k in buckets then keys else keys + [k];
    var grown := buckets[k := if k in buckets then buckets[k] + [t] else [t]];
    FirstKeysPrefix(tabs, i, key);
    assert keys' == FirstKeys(tabs[..i + 1], key);
    forall k' ensures k' in grown <==> k' in keys' {
      if k in buckets {
        assert k' in grown <==> k' in buckets;
      } else {
        assert k' in keys' <==> k' in keys || k' == k;
      }
    }
    if k !in buckets {
      NewKeyEmpty(tabs[..i], key, k);
    }
    BucketsStep(tabs, i, key, buckets);
  }

  /** A key not seen yet has no tabs so far. */
  lemma NewKeyEmpty(tabs: seq<Tab>, key: Tab -> string, k: string)
    requires k !in FirstKeys(tabs, key)
    ensures Bucket(tabs, key, k) == []
  {
    FirstKeysSpec(tabs, key);
    BucketNonEmpty(tabs, key, k);
  }

  lemma BucketsStep(tabs: seq<Tab>, i: nat, key: Tab -> string, buckets: map<string, seq<Tab>>)
    requires i < |tabs|
    requires forall k :: k in buckets ==> buckets[k] == Bucket(tabs[..i], key, k)
    requires key(tabs[i]) !in buckets ==> Bucket(tabs[..i], key, key(tabs[i])) == []
    ensures var t := tabs[i];
      var k := key(t);
      var grown := buckets[k := if k in buckets then buckets[k] + [t] else [t]];
      forall k' :: k' in grown ==> grown[k'] == Bucket(tabs[..i + 1], key, k')
  {
    var t := tabs[i];
    var k := key(t);
    var grown := buckets[k := if k in buckets then buckets[k] + [t] else [t]];
    forall k' | k' in grown ensures grown[k'] == Bucket(tabs[..i + 1], key, k') {
      BucketPrefix(tabs, i, key, k');
    }
  }

  /**
   * lodash `groupby`: one pass over the tabs, appending each tab to the bucket of its key
   * and creating the bucket (and the key's place in the key order) at its first occurrence.
   */
  method GroupBy(tabs: seq<Tab>, key: Tab -> string) returns (keys: seq<string>, buckets: map<string, seq<Tab>>)
    ensures keys == FirstKeys(tabs, key)
    ensures forall k :: k in buckets <==> k in keys
    ensures forall k :: k in buckets ==> buckets[k] == Bucket(tabs, key, k)
  {
    keys, buckets := [], map[];
    var i := 0;
    while i < |tabs|
      invariant 0 <= i <= |tabs|
      invariant Grouped(tabs[..i], key, keys, buckets)
    {
      var t := tabs[i];
      var k := key(t);
      GroupedStep(tabs, i, key, keys, buckets);
      if k in buckets {
        buckets := buckets[k := buckets[k] + [t]];
      } else {
        keys := keys + [k];
        buckets := buckets[k := [t]];
      }
      i := i + 1;
    }
    assert tabs[..|tabs|] == tabs;
  }

  // ---------------------------------------------------------------- partition

  /** Every tab of every group, counted with multiplicity. */
  function AllMembers(gs: seq<Group>): multiset<Tab> {
    if gs == [] then multiset{} else AllMembers(gs[..|gs| - 1]) + multiset(gs[|gs| - 1].members)
  }

  /** `groups.reduce((acc, [_, tabs]) => acc + tabs.length, 0)`. */
  function TotalSize(gs: seq<Group>): nat {
    if gs == [] then 0 else TotalSize(gs[..|gs| - 1]) + |gs[|gs| - 1].members|
  }

  lemma {:induction false} TotalSizeCounts(gs: seq<Group>)
    ensures TotalSize(gs) == |AllMembers(gs)|
  {
    if gs != [] {
      TotalSizeCounts(gs[..|gs| - 1]);
    }
  }

  lemma EntriesOverFront(tabs: seq<Tab>, key: Tab -> string, ks: seq<string>)
    requires ks != []
    ensures EntriesOver(tabs, key, ks)[..|ks| - 1] == EntriesOver(tabs, key, ks[..|ks| - 1])
  {
  }

  lemma {:induction false} EntriesOverEmpty(key: Tab -> string, ks: seq<string>)
    ensures AllMembers(EntriesOver([], key, ks)) == multiset{}
  {
    if ks != [] {
      EntriesOverFront([], key, ks);
      EntriesOverEmpty(key, ks[..|ks| - 1]);
    }
  }

  lemma EntriesOverLast(tabs: seq<Tab>, key: Tab -> string, ks: seq<string>)
    requires ks != []
    ensures AllMembers(EntriesOver(tabs, key, ks)) ==
      AllMembers(EntriesOver(tabs, key, ks[..|ks| - 1])) + multiset(Bucket(tabs, key, ks[|ks| - 1]))
  {
    EntriesOverFront(tabs, key, ks);
  }

  lemma BucketSnoc(tabs: seq<Tab>, t: Tab, key: Tab -> string, k: string)
    ensures multiset(Bucket(tabs + [t], key, k)) ==
      multiset(Bucket(tabs, key, k)) + (if key(t) == k then multiset{t} else multiset{})
  {
    KeepSnoc(tabs, t, u => key(u) == k);
  }

  /** The last of distinct keys is not among the others. */
  lemma DistinctSnoc(ks: seq<string>)
    requires ks != [] && Distinct(ks)
    ensures Distinct(ks[..|ks| - 1]) && ks[|ks| - 1] !in ks[..|ks| - 1]
    ensures forall x :: x in ks <==> x in ks[..|ks| - 1] || x == ks[|ks| - 1]
  {
    MultisetSnoc(ks);
  }

  /** Adding one tab to the scan adds it to the bucket of its key and to no other. */
  lemma {:induction false} EntriesOverSnoc(tabs: seq<Tab>, t: Tab, key: Tab -> string, ks: seq<string>)
    requires Distinct(ks)
    ensures AllMembers(EntriesOver(tabs + [t], key, ks)) ==
      AllMembers(EntriesOver(tabs, key, ks)) + (if key(t) in ks then multiset{t} else multiset{})
  {
    if ks != [] {
      DistinctSnoc(ks);
      EntriesOverLast(tabs + [t], key, ks);
      EntriesOverLast(tabs, key, ks);
      EntriesOverSnoc(tabs, t, key, ks[..|ks| - 1]);
      BucketSnoc(tabs, t, key, ks[|ks| - 1]);
    }
  }

  /** Buckets over distinct keys that cover every tab's key hold every tab exactly once. */
  lemma {:induction false} EntriesOverCover(tabs: seq<Tab>, key: Tab -> string, ks: seq<string>)
    requires Distinct(ks)
    requires forall t :: t in tabs ==> key(t) in ks
    ensures AllMembers(EntriesOver(tabs, key, ks)) == multiset(tabs)
  {
    if tabs == [] {
      EntriesOverEmpty(key, ks);
    } else {
      var front, last := tabs[..|tabs| - 1], tabs[|tabs| - 1];
      MultisetSnoc(tabs);
      EntriesOverCover(front, key, ks);
      EntriesOverSnoc(front, last, key, ks);
      SplitLast(tabs);
    }
  }

  /** The entries partition the tabs: each tab lands in exactly one group, once. */
  lemma EntriesPartition(tabs: seq<Tab>, key: Tab -> string)
    ensures AllMembers(Entries(tabs, key)) == multiset(tabs)
  {
    FirstKeysSpec(tabs, key);
    EntriesOverCover(tabs, key, FirstKeys(tabs, key));
  }

  /**
   * Each entry has the key of all its members, holds them in scan order and is never
   * empty; the entry keys are distinct.
   */
  lemma EntriesShape(tabs: seq<Tab>, key: Tab -> string)
    ensures forall i, j :: 0 <= i < j < |Entries(tabs, key)| ==>
      Entries(tabs, key)[i].key != Entries(tabs, key)[j].key
    ensures forall g :: g in Entries(tabs, key) ==>
      g.members == Bucket(tabs, key, g.key) && g.members != [] && IsSubseq(g.members, tabs) &&
      forall t :: t in g.members ==> key(t) == g.key
  {
    FirstKeysSpec(tabs, key);
    var ks := FirstKeys(tabs, key);
    var es := Entries(tabs, key);
    forall g | g in es
      ensures g.members == Bucket(tabs, key, g.key) && g.members != [] && IsSubseq(g.members, tabs)
      ensures forall t :: t in g.members ==> key(t) == g.key
    {
      var i :| 0 <= i < |es| && es[i] == g;
      assert g.key == ks[i];
      var p := t => key(t) == g.key;
      BucketNonEmpty(tabs, key, g.key);
      KeepIsSubseq(tabs, p);
      forall t | t in g.members ensures key(t) == g.key {
        KeepMember(tabs, p, t);
      }
    }
  }

  /** `groupFilter` applied to an entry. */
  predicate Passes(g: Group) { GroupFilter(g.key, g.members) }

  /** The entries that `groupFilter` keeps; all of them for a classifier without one. */
  function Survivors(c: Classifier, entries: seq<Group>): seq<Group> {
    if HasGroupFilter(c) then Keep(entries, Passes) else entries
  }

  // ---------------------------------------------------------------- sorting

  /** The two comparators: `keyA.localeCompare(keyB)` and `tabsB.length - tabsA.length`. */
  datatype Order = ByKey | BySizeDesc

  function Cmp(o: Order, a: Group, b: Group): int {
    match o
    case ByKey => Compare(a.key, b.key)
    case BySizeDesc => |b.members| - |a.members|
  }

  /** `a` must be placed before `b`. */
  predicate Before(o: Order, a: Group, b: Group) { Cmp(o, a, b) < 0 }

  /** Inserts `x` after every element it need not precede, scanning from the back. */
  function InsertBack(s: seq<Group>, x: Group, o: Order): seq<Group>
    decreases |s|
  {
    if s == [] || !Before(o, x, s[|s| - 1]) then s + [x]
    else InsertBack(s[..|s| - 1], x, o) + [s[|s| - 1]]
  }

  /** The stable sort of `s` under comparator `o`: insertion sort. */
  function StableSort(s: seq<Group>, o: Order): seq<Group> {
    if s == [] then [] else InsertBack(StableSort(s[..|s| - 1], o), s[|s| - 1], o)
  }

  lemma AllMembersSnoc(gs: seq<Group>, g: Group)
    ensures AllMembers(gs + [g]) == AllMembers(gs) + multiset(g.members)
  {
    assert (gs + [g])[..|gs|] == gs;
  }

  lemma {:induction false} InsertBackPerm(s: seq<Group>, x: Group, o: Order)
    ensures multiset(InsertBack(s, x, o)) == multiset(s) + multiset{x}
    decreases |s|
  {
    if s != [] && Before(o, x, s[|s| - 1]) {
      var front, last := s[..|s| - 1], s[|s| - 1];
      InsertBackPerm(front, x, o);
      MultisetSnoc(s);
      var r := InsertBack(front, x, o);
      assert InsertBack(s, x, o) == r + [last];
      MultisetSnoc(r + [last]);
      assert (r + [last])[..|r|] == r;
    }
  }

  lemma {:induction false} InsertBackMembers(s: seq<Group>, x: Group, o: Order)
    ensures AllMembers(InsertBack(s, x, o)) == AllMembers(s) + multiset(x.members)
    decreases |s|
  {
    if s != [] && Before(o, x, s[|s| - 1]) {
      var front, last := s[..|s| - 1], s[|s| - 1];
      InsertBackMembers(front, x, o);
      var r := InsertBack(front, x, o);
      assert InsertBack(s, x, o) == r + [last];
      AllMembersSnoc(r, last);
      assert AllMembers(front) + multiset(last.members) == AllMembers(s);
    } else {
      AllMembersSnoc(s, x);
    }
  }

  /** Sorting only reorders: the same groups, hence the same tabs. */
  lemma {:induction false} StableSortPerm(s: seq<Group>, o: Order)
    ensures multiset(StableSort(s, o)) == multiset(s)
    ensures AllMembers(StableSort(s, o)) == AllMembers(s)
  {
    if s != [] {
      var front, last := s[..|s| - 1], s[|s| - 1];
      StableSortPerm(front, o);
      InsertBackPerm(StableSort(front, o), last, o);
      InsertBackMembers(StableSort(front, o), last, o);
      MultisetSnoc(s);
    }
  }

  predicate KeysAscending(s: seq<Group>) {
    forall i, j :: 0 <= i < j < |s| ==> StrLess(s[i].key, s[j].key)
  }

  lemma {:induction false} InsertBackByKey(s: seq<Group>, x: Group)
    requires KeysAscending(s)
    requires forall g :: g in s ==> g.key != x.key
    ensures KeysAscending(InsertBack(s, x, ByKey))
    decreases |s|
  {
    var r := InsertBack(s, x, ByKey);
    if s == [] {
    } else {
      var front, last := s[..|s| - 1], s[|s| - 1];
      StrLessTrichotomy(x.key, last.key);
      if !Before(ByKey, x, last) {
        assert StrLess(last.key, x.key);
        forall i | 0 <= i < |s| - 1 ensures StrLess(s[i].key, x.key) {
          StrLessTransitive(s[i].key, last.key, x.key);
        }
      } else {
        assert StrLess(x.key, last.key);
        InsertBackByKey(front, x);
        var r' := InsertBack(front, x, ByKey);
        InsertBackPerm(front, x, ByKey);
        forall g | g in r' ensures StrLess(g.key, last.key) {
          assert g in multiset(r');
          if g != x {
            assert g in front;
          }
        }
        assert r == r' + [last];
      }
    }
  }

  /** Sorting groups with distinct keys by `localeCompare` makes the keys strictly ascending. */
  lemma {:induction false} SortByKeyAscending(s: seq<Group>)
    requires forall i, j :: 0 <= i < j < |s| ==> s[i].key != s[j].key
    ensures KeysAscending(StableSort(s, ByKey))
  {
    if s != [] {
      var front, last := s[..|s| - 1], s[|s| - 1];
      SortByKeyAscending(front);
      StableSortPerm(front, ByKey);
      forall g | g in StableSort(front, ByKey) ensures g.key != last.key {
        assert g in multiset(StableSort(front, ByKey));
        assert g in front;
      }
      InsertBackByKey(StableSort(front, ByKey), last);
    }
  }

  /**
   * The order the popup shows groups in: larger groups first, and among equally large
   * groups, the earlier key first.
   */
  predicate DisplayOrdered(s: seq<Group>) {
    forall i :: 0 <= i < |s| - 1 ==>
      |s[i].members| > |s[i + 1].members| ||
      (|s[i].members| == |s[i + 1].members| && StrLess(s[i].key, s[i + 1].key))
  }

  lemma {:induction false} InsertBackBySize(s: seq<Group>, x: Group)
    requires DisplayOrdered(s)
    requires forall g :: g in s ==> StrLess(g.key, x.key)
    ensures DisplayOrdered(InsertBack(s, x, BySizeDesc))
    decreases |s|
  {
    if s != [] && Before(BySizeDesc, x, s[|s| - 1]) {
      var front, last := s[..|s| - 1], s[|s| - 1];
      InsertBackBySize(front, x);
      var r' := InsertBack(front, x, BySizeDesc);
      InsertBackLast(front, x, BySizeDesc);
      assert InsertBack(s, x, BySizeDesc) == r' + [last];
    }
  }

  /** The last element after an insertion is the inserted one or the old last one. */
  lemma InsertBackLast(s: seq<Group>, x: Group, o: Order)
    ensures |InsertBack(s, x, o)| == |s| + 1
    ensures InsertBack(s, x, o)[|s|] == x || (s != [] && InsertBack(s, x, o)[|s|] == s[|s| - 1])
  {
    InsertBackPerm(s, x, o);
  }

  /**
   * The display sort is stable: applied to groups in ascending key order it orders them by
   * size, largest first, and equally large groups stay in key order.
   */
  lemma {:induction false} SortBySizeStable(s: seq<Group>)
    requires KeysAscending(s)
    ensures DisplayOrdered(StableSort(s, BySizeDesc))
  {
    if s != [] {
      var front, last := s[..|s| - 1], s[|s| - 1];
      SortBySizeStable(front);
      StableSortPerm(front, BySizeDesc);
      forall g | g in StableSort(front, BySizeDesc) ensures StrLess(g.key, last.key) {
        assert g in multiset(StableSort(front, BySizeDesc));
        var i :| 0 <= i < |front| && front[i] == g;
        assert s[i] == g;
      }
      InsertBackBySize(StableSort(front, BySizeDesc), last);
    }
  }

  /**
   * Where the insertion lands: after the elements `x` need not precede, before the run of
   * trailing elements it must precede.
   */
  lemma {:induction false} InsertBackAt(s: seq<Group>, x: Group, o: Order, j: nat)
    requires j <= |s|
    requires forall k :: j <= k < |s| ==> Before(o, x, s[k])
    requires j == 0 || !Before(o, x, s[j - 1])
    ensures InsertBack(s, x, o) == s[..j] + [x] + s[j..]
    decreases |s|
  {
    if j < |s| {
      var front := s[..|s| - 1];
      InsertBackAt(front, x, o, j);
      assert front[..j] == s[..j];
      assert s[j..] == front[j..] + [s[|s| - 1]];
    }
  }

  /**
   * The inner loop of an insertion sort: with `a[..i]` sorted, moves `a[i]` back past every
   * element it must precede.
   */
  method InsertAt(a: array<Group>, i: nat, o: Order)
    requires i < a.Length
    modifies a
    ensures a[..i + 1] == InsertBack(old(a[..i]), old(a[i]), o)
    ensures forall k :: i < k < a.Length ==> a[k] == old(a[k])
  {
    ghost var sorted := a[..i];
    var x := a[i];
    var j := i;
    while j > 0 && Before(o, x, a[j - 1])
      invariant 0 <= j <= i
      invariant forall k :: 0 <= k < j ==> a[k] == sorted[k]
      invariant forall k :: j < k <= i ==> a[k] == sorted[k - 1]
      invariant forall k :: i < k < a.Length ==> a[k] == old(a[k])
      invariant forall k :: j <= k < i ==> Before(o, x, sorted[k])
    {
      a[j] := a[j - 1];
      j := j - 1;
    }
    a[j] := x;
    InsertBackAt(sorted, x, o, j);
    ghost var target := sorted[..j] + [x] + sorted[j..];
    assert forall k :: 0 <= k <= i ==> a[k] == target[k];
    assert a[..i + 1] == target;
  }

  /** `array.sort(comparator)`: the array becomes its stable sort. */
  method SortGroups(a: array<Group>, o: Order)
    modifies a
    ensures a[..] == StableSort(old(a[..]), o)
  {
    ghost var input := a[..];
    var i := 0;
    while i < a.Length
      invariant 0 <= i <= a.Length
      invariant a[..i] == StableSort(input[..i], o)
      invariant forall k :: i <= k < a.Length ==> a[k] == input[k]
    {
      PrefixSnoc(input, i);
      InsertAt(a, i, o);
      i := i + 1;
    }
    assert input[..a.Length] == input;
    assert a[..a.Length] == a[..];
  }

  // ---------------------------------------------------------------- groupedTabs

  /** The classifier the persisted selection names; none for no selection or an unknown name. */
  function Selected(selection: Option<string>): Option<Classifier> {
    if selection.None? || selection.value == "" then None else Lookup(selection.value)
  }

  /** The `groupKey` of classifier `c` as a key function. */
  function KeyOf(c: Classifier, env: Env): Tab -> string {
    t => GroupKey(c, env, t)
  }

  /** What `groupedTabs()` returns. */
  function GroupedView(snapshot: Option<seq<Tab>>, query: string, selection: Option<string>, env: Env): seq<Group> {
    match Selected(selection)
    case None => []
    case Some(c) => StableSort(Survivors(c, Entries(Filtered(snapshot, query), KeyOf(c, env))), ByKey)
  }

  /** `groupedTabs()`: group the filtered tabs, apply the group filter, sort by key. */
  method GroupedTabs(snapshot: Option<seq<Tab>>, query: string, selection: Option<string>, env: Env)
    returns (groups: seq<Group>)
    ensures groups == GroupedView(snapshot, query, selection, env)
  {
    var chosen := Selected(selection);
    if chosen.None? {
      return [];
    }
    var c := chosen.value;
    var tabs := Filtered(snapshot, query);
    var keys, buckets := GroupBy(tabs, KeyOf(c, env));
    var entries := seq(|keys|, i requires 0 <= i < |keys| => Group(keys[i], buckets[keys[i]]));
    assert entries == Entries(tabs, KeyOf(c, env));
    var kept := Survivors(c, entries);
    var a := new Group[|kept|](i requires 0 <= i < |kept| => kept[i]);
    assert a[..] == kept;
    SortGroups(a, ByKey);
    groups := a[..];
  }

  /** Nothing is grouped without a selection, or for a name the table does not have. */
  lemma GroupedViewUnselected(snapshot: Option<seq<Tab>>, query: string, selection: Option<string>, env: Env)
    requires selection.None? || selection.value == "" || Lookup(selection.value).None?
    ensures GroupedView(snapshot, query, selection, env) == []
  {
  }

  /**
   * Every shown group is non-empty, holds exactly the filtered tabs of its key in scan order,
   * and the keys are strictly ascending (so no key is shown twice).
   */
  lemma GroupedViewShape(snapshot: Option<seq<Tab>>, query: string, c: Classifier, env: Env)
    ensures var gs := GroupedView(snapshot, query, Some(Name(c)), env);
      var tabs := Filtered(snapshot, query);
      KeysAscending(gs) &&
      forall g :: g in gs ==>
        g.members != [] && g.members == Bucket(tabs, KeyOf(c, env), g.key) && IsSubseq(g.members, tabs) &&
        forall t :: t in g.members ==> GroupKey(c, env, t) == g.key
  {
    var tabs := Filtered(snapshot, query);
    var es := Entries(tabs, KeyOf(c, env));
    var kept := Survivors(c, es);
    EntriesShape(tabs, KeyOf(c, env));
    LookupName(c, Name(c));
    var p := Passes;
    if HasGroupFilter(c) {
      forall g | g in kept ensures g in es {
        KeepMember(es, p, g);
      }
      forall i, j | 0 <= i < j < |kept| ensures kept[i].key != kept[j].key {
        KeepSubseqIndices(es, p, i, j);
      }
    }
    SortByKeyAscending(kept);
    StableSortPerm(kept, ByKey);
    forall g | g in StableSort(kept, ByKey) ensures g in es {
      assert g in multiset(StableSort(kept, ByKey));
      assert g in kept;
    }
  }

  /** Two positions of a filtered list come from two positions of the input, in the same order. */
  lemma {:induction false} KeepSubseqIndices(es: seq<Group>, p: Group -> bool, i: nat, j: nat)
    requires forall a, b :: 0 <= a < b < |es| ==> es[a].key != es[b].key
    requires i < j < |Keep(es, p)|
    ensures Keep(es, p)[i].key != Keep(es, p)[j].key
  {
    var front, last := es[..|es| - 1], es[|es| - 1];
    var k := Keep(front, p);
    if j < |k| {
      KeepSubseqIndices(front, p, i, j);
    } else {
      KeepMember(front, p, k[i]);
      var a :| 0 <= a < |front| && front[a] == k[i];
    }
  }

  /**
   * Without a group filter the shown groups partition the filtered tabs exactly: each tab
   * appears once in all, in the group of its own key.
   */
  lemma GroupedViewPartition(snapshot: Option<seq<Tab>>, query: string, c: Classifier, env: Env)
    requires !HasGroupFilter(c)
    ensures var gs := GroupedView(snapshot, query, Some(Name(c)), env);
      var tabs := Filtered(snapshot, query);
      AllMembers(gs) == multiset(tabs) &&
      forall t :: t in tabs ==> exists g :: g in gs && g.key == GroupKey(c, env, t) && t in g.members
  {
    var tabs := Filtered(snapshot, query);
    var es := Entries(tabs, KeyOf(c, env));
    LookupName(c, Name(c));
    var gs := GroupedView(snapshot, query, Some(Name(c)), env);
    assert gs == StableSort(es, ByKey);
    EntriesPartition(tabs, KeyOf(c, env));
    StableSortPerm(es, ByKey);
    GroupedViewShape(snapshot, query, c, env);
    forall t | t in tabs ensures exists g :: g in gs && g.key == GroupKey(c, env, t) && t in g.members {
      AllMembersHas(gs, t);
    }
  }

  lemma {:induction false} AllMembersHas(gs: seq<Group>, t: Tab)
    requires t in AllMembers(gs)
    ensures exists g :: g in gs && t in g.members
  {
    var front := gs[..|gs| - 1];
    if t in AllMembers(front) {
      AllMembersHas(front, t);
      var g :| g in front && t in g.members;
      assert g in gs;
    } else {
      assert t in gs[|gs| - 1].members;
    }
  }

  /**
   * Under the duplicate classifier every shown group has at least two tabs with one url, and
   * the group of a url is shown exactly when at least two filtered tabs have that url.
   */
  lemma DuplicateGroups(snapshot: Option<seq<Tab>>, query: string, env: Env)
    ensures var gs := GroupedView(snapshot, query, Some("duplicate"), env);
      AllMembers(gs) <= multiset(Filtered(snapshot, query)) &&
      (forall g :: g in gs ==>
        |g.members| >= 2 && forall t :: t in g.members ==> t.url.GetOr("No URL") == g.key) &&
      forall k :: Group(k, Bucket(Filtered(snapshot, query), KeyOf(Duplicate, env), k)) in gs <==>
        |Bucket(Filtered(snapshot, query), KeyOf(Duplicate, env), k)| >= 2
  {
    DuplicateView(snapshot, query, env);
    DuplicateKeys(snapshot, query, env);
    DuplicateSizes(Filtered(snapshot, query), env);
    DuplicateShown(Filtered(snapshot, query), KeyOf(Duplicate, env));
  }

  /** Every key with two or more tabs keeps its group through the group filter and the sort. */
  lemma DuplicateShown(tabs: seq<Tab>, key: Tab -> string)
    ensures forall k :: |Bucket(tabs, key, k)| >= 2 ==>
      Group(k, Bucket(tabs, key, k)) in StableSort(Keep(Entries(tabs, key), Passes), ByKey)
  {
    var es := Entries(tabs, key);
    StableSortPerm(Keep(es, Passes), ByKey);
    FirstKeysSpec(tabs, key);
    forall k | |Bucket(tabs, key, k)| >= 2
      ensures Group(k, Bucket(tabs, key, k)) in StableSort(Keep(es, Passes), ByKey)
    {
      BucketNonEmpty(tabs, key, k);
      var ks := FirstKeys(tabs, key);
      var i :| 0 <= i < |ks| && ks[i] == k;
      var g := Group(k, Bucket(tabs, key, k));
      assert es[i] == g;
      KeepMember(es, Passes, g);
      assert g in multiset(Keep(es, Passes));
    }
  }

  /** The grouped view under the duplicate classifier, unfolded. */
  lemma DuplicateView(snapshot: Option<seq<Tab>>, query: string, env: Env)
    ensures GroupedView(snapshot, query, Some("duplicate"), env) ==
      StableSort(Keep(Entries(Filtered(snapshot, query), KeyOf(Duplicate, env)), Passes), ByKey)
    ensures GroupedView(snapshot, query, Some("duplicate"), env) ==
      GroupedView(snapshot, query, Some(Name(Duplicate)), env)
  {
    assert Selected(Some("duplicate")) == Some(Duplicate);
  }

  /** The duplicate classifier's groups are keyed by url. */
  lemma DuplicateKeys(snapshot: Option<seq<Tab>>, query: string, env: Env)
    ensures forall g :: g in GroupedView(snapshot, query, Some(Name(Duplicate)), env) ==>
      forall t :: t in g.members ==> t.url.GetOr("No URL") == g.key
  {
    GroupedViewShape(snapshot, query, Duplicate, env);
    UrlKeyed(GroupedView(snapshot, query, Some(Name(Duplicate)), env), env);
  }

  lemma UrlKeyed(gs: seq<Group>, env: Env)
    requires forall g :: g in gs ==> forall t :: t in g.members ==> GroupKey(Duplicate, env, t) == g.key
    ensures forall g :: g in gs ==> forall t :: t in g.members ==> t.url.GetOr("No URL") == g.key
  {
  }

  /** The groups the duplicate classifier keeps have more than one tab, all of them filtered tabs. */
  lemma DuplicateSizes(tabs: seq<Tab>, env: Env)
    ensures var gs := StableSort(Keep(Entries(tabs, KeyOf(Duplicate, env)), Passes), ByKey);
      AllMembers(gs) <= multiset(tabs) && forall g :: g in gs ==> |g.members| >= 2
  {
    var es := Entries(tabs, KeyOf(Duplicate, env));
    SurvivorsSize(es, StableSort(Keep(es, Passes), ByKey));
    KeptMembers(es, Passes);
    EntriesPartition(tabs, KeyOf(Duplicate, env));
  }

  /** The groups `groupFilter` keeps, in any order, have more than one tab and no other tabs. */
  lemma SurvivorsSize(es: seq<Group>, gs: seq<Group>)
    requires gs == StableSort(Keep(es, Passes), ByKey)
    ensures forall g :: g in gs ==> |g.members| >= 2
    ensures AllMembers(gs) == AllMembers(Keep(es, Passes))
  {
    StableSortPerm(Keep(es, Passes), ByKey);
    forall g | g in gs ensures |g.members| >= 2 {
      assert g in multiset(gs);
      KeepMember(es, Passes, g);
    }
  }

  lemma {:induction false} KeptMembers(es: seq<Group>, p: Group -> bool)
    ensures AllMembers(Keep(es, p)) <= AllMembers(es)
  {
    if es != [] {
      var front, last := es[..|es| - 1], es[|es| - 1];
      var k := Keep(front, p);
      KeptMembers(front, p);
      assert AllMembers(es) == AllMembers(front) + multiset(last.members);
      if p(last) {
        AllMembersSnoc(k, last);
        assert AllMembers(Keep(es, p)) == AllMembers(k) + multiset(last.members);
      } else {
        assert Keep(es, p) == k;
      }
    }
  }

  /** `groupCount()`: the number of groups and the number of tabs in them. */
  function GroupCount(gs: seq<Group>): (nat, nat) {
    (|gs|, TotalSize(gs))
  }

  /** Without a group filter, the tab count in the header equals the filtered count. */
  lemma GroupCountTotal(snapshot: Option<seq<Tab>>, query: string, c: Classifier, env: Env)
    requires !HasGroupFilter(c)
    ensures GroupCount(GroupedView(snapshot, query, Some(Name(c)), env)).1 == |Filtered(snapshot, query)|
  {
    GroupedViewPartition(snapshot, query, c, env);
    TotalSizeCounts(GroupedView(snapshot, query, Some(Name(c)), env));
  }

  /**
   * What the popup shows: the groups re-sorted by size. They are the same groups, largest
   * first, equally large ones in key order.
   */
  lemma DisplayOrder(snapshot: Option<seq<Tab>>, query: string, selection: Option<string>, env: Env)
    ensures var gs := GroupedView(snapshot, query, selection, env);
      multiset(StableSort(gs, BySizeDesc)) == multiset(gs) && DisplayOrdered(StableSort(gs, BySizeDesc))
  {
    var gs := GroupedView(snapshot, query, selection, env);
    StableSortPerm(gs, BySizeDesc);
    if Selected(selection).Some? {
      var c := Selected(selection).value;
      LookupName(c, selection.value);
      GroupedViewShape(snapshot, query, c, env);
      SortBySizeStable(gs);
    }
  }
}
