/**
 Removal of several columns of a table.

 Keys are sorted by descending index, which evaluates all of them before anything is removed, and columns
 are then removed one by one.
 */
module ColumnRemoval {

  import opened Wrappers
  import opened Tables
  import opened ColumnKeys

  // Removing columns one by one

  function Deleted<T>(columns: seq<Column<T>>, i: int): (r: seq<Column<T>>)
    requires 0 <= i < |columns|
    ensures |r| == |columns| - 1
    ensures forall j :: 0 <= j < i ==> r[j] == columns[j]
    ensures forall j :: i <= j < |r| ==> r[j] == columns[j + 1]
  {
    columns[..i] + columns[i + 1..]
  }

  /** The columns left after each index in turn was removed, if there always was such a column. */
  function DeletedAll<T>(columns: seq<Column<T>>, indices: seq<int>): (r: Option<seq<Column<T>>>)
    decreases |indices|
  {
    if indices == [] then Some(columns)
    else if 0 <= indices[0] < |columns| then DeletedAll(Deleted(columns, indices[0]), indices[1..])
    else None
  }

  /** The columns from `i` on which are not listed, in their order. */
  function Unlisted<T>(columns: seq<Column<T>>, listed: set<int>, i: nat): (r: seq<Column<T>>)
    requires i <= |columns|
    decreases |columns| - i
  {
    if i == |columns| then []
    else (if i in listed then [] else [columns[i]]) + Unlisted(columns, listed, i + 1)
  }

  ghost predicate Descending(indices: seq<int>)
  {
    forall i, j :: 0 <= i < j < |indices| ==> indices[i] >= indices[j]
  }

  ghost predicate NoRepeat(indices: seq<int>)
  {
    forall i, j :: 0 <= i < j < |indices| ==> indices[i] != indices[j]
  }

  ghost predicate InRange(indices: seq<int>, n: int)
  {
    forall i :: 0 <= i < |indices| ==> 0 <= indices[i] < n
  }

  /** Above a removed column that is the last of the list. */
  lemma {:induction false} UnlistedAbove<T>(columns: seq<Column<T>>, d: int, listed: set<int>, i: nat)
    requires 0 <= d <= i < |columns| && forall x :: x in listed ==> x < d
    ensures Unlisted(Deleted(columns, d), listed, i) == Unlisted(columns, listed + {d}, i + 1)
    decreases |columns| - i
  {
    if i < |columns| - 1 {
      UnlistedAbove(columns, d, listed, i + 1);
      assert i !in listed && i + 1 !in listed + {d};
    }
  }

  /** Below it. */
  lemma {:induction false} UnlistedAfterDelete<T>(columns: seq<Column<T>>, d: int, listed: set<int>, i: nat)
    requires 0 <= d < |columns| && i <= d && forall x :: x in listed ==> x < d
    ensures Unlisted(Deleted(columns, d), listed, i) == Unlisted(columns, listed + {d}, i)
    decreases d - i
  {
    if i < d {
      UnlistedAfterDelete(columns, d, listed, i + 1);
      assert Deleted(columns, d)[i] == columns[i] && (i in listed <==> i in listed + {d});
    } else {
      UnlistedAbove(columns, d, listed, d);
      UnlistedSkips(columns, listed + {d}, d);
    }
  }

  lemma UnlistedSkips<T>(columns: seq<Column<T>>, listed: set<int>, i: nat)
    requires i < |columns| && i in listed
    ensures Unlisted(columns, listed, i) == Unlisted(columns, listed, i + 1)
  {
  }

  lemma {:induction false} UnlistedNothing<T>(columns: seq<Column<T>>, i: nat)
    requires i <= |columns|
    ensures Unlisted(columns, {}, i) == columns[i..]
    decreases |columns| - i
  {
    if i < |columns| {
      UnlistedNothing(columns, i + 1);
    }
  }

  ghost function Listed(indices: seq<int>): (r: set<int>)
  {
    set i | i in indices
  }

  /** Removing distinct columns, last first, leaves the unlisted ones. */
  lemma {:induction false} DeletedAllIsUnlisted<T>(columns: seq<Column<T>>, indices: seq<int>)
    requires Descending(indices) && NoRepeat(indices) && InRange(indices, |columns|)
    ensures DeletedAll(columns, indices) == Some(Unlisted(columns, Listed(indices), 0))
    decreases |indices|
  {
    if indices == [] {
      UnlistedNothing(columns, 0);
      assert Listed(indices) == {} && columns[0..] == columns;
    } else {
      var d, rest := indices[0], indices[1..];
      forall i | 0 <= i < |rest| ensures 0 <= rest[i] < d {
        assert rest[i] == indices[i + 1];
      }
      DeletedAllIsUnlisted(Deleted(columns, d), rest);
      UnlistedAfterDelete(columns, d, Listed(rest), 0);
      if d == 0 {
        assert Unlisted(columns, Listed(rest) + {d}, 0) == Unlisted(columns, Listed(rest) + {d}, 1);
      }
      assert Listed(indices) == Listed(rest) + {d};
    }
  }

  lemma {:induction false} DeletedAllLength<T>(columns: seq<Column<T>>, indices: seq<int>)
    requires DeletedAll(columns, indices).Some?
    ensures |DeletedAll(columns, indices).value| == |columns| - |indices|
    decreases |indices|
  {
    if indices != [] {
      DeletedAllLength(Deleted(columns, indices[0]), indices[1..]);
    }
  }

  ghost function Within(s: set<int>, low: int, high: int): (r: set<int>)
  {
    set x | x in s && low <= x < high
  }

  lemma {:induction false} UnlistedLength<T>(columns: seq<Column<T>>, listed: set<int>, i: nat)
    requires i <= |columns|
    ensures |Unlisted(columns, listed, i)| == |columns| - i - |Within(listed, i, |columns|)|
    decreases |columns| - i
  {
    var here := Within(listed, i, |columns|);
    if i == |columns| {
      assert here == {};
    } else {
      UnlistedLength(columns, listed, i + 1);
      var next := Within(listed, i + 1, |columns|);
      assert here == if i in listed then next + {i} else next;
    }
  }

  lemma {:induction false} ListedSize(indices: seq<int>)
    ensures |Listed(indices)| <= |indices|
    ensures |Listed(indices)| == |indices| <==> NoRepeat(indices)
    decreases |indices|
  {
    if indices != [] {
      var d, rest := indices[0], indices[1..];
      ListedSize(rest);
      assert Listed(indices) == Listed(rest) + {d};
      assert forall j :: 0 < j < |indices| ==> indices[j] == rest[j - 1];
      assert forall j :: 0 <= j < |rest| ==> rest[j] == indices[j + 1];
    } else {
      assert Listed(indices) == {};
    }
  }

  /** It leaves exactly the unlisted columns if and only if no column is listed twice. */
  lemma RemovalCondition<T>(columns: seq<Column<T>>, indices: seq<int>)
    requires Descending(indices) && InRange(indices, |columns|)
    ensures DeletedAll(columns, indices) == Some(Unlisted(columns, Listed(indices), 0)) <==> NoRepeat(indices)
  {
    if NoRepeat(indices) {
      DeletedAllIsUnlisted(columns, indices);
    }
    if DeletedAll(columns, indices) == Some(Unlisted(columns, Listed(indices), 0)) {
      DeletedAllLength(columns, indices);
      UnlistedLength(columns, Listed(indices), 0);
      assert Within(Listed(indices), 0, |columns|) == Listed(indices);
      ListedSize(indices);
    }
  }

  // Removing columns by indices which may be backward

  /**
   The columns left after each index in turn, backward or not, was removed, and whether there always was such a
   column.  Backward indices are counted from the last of the columns that are left.
   */
  function InTurn<T>(columns: seq<Column<T>>, cached: seq<int>): (r: (seq<Column<T>>, bool))
    decreases |cached|
  {
    if cached == [] then (columns, true)
    else
      var i := Forward(cached[0], |columns|);
      if 0 <= i < |columns| then InTurn(Deleted(columns, i), cached[1..]) else (columns, false)
  }

  /** The indices which are removed one after the other. */
  function Effective(cached: seq<int>, count: int): (r: seq<int>)
  {
    seq(|cached|, p requires 0 <= p < |cached| => Forward(cached[p], count - p))
  }

  lemma {:induction false} InTurnIsDeletion<T>(columns: seq<Column<T>>, cached: seq<int>)
    ensures InTurn(columns, cached).1 <==> DeletedAll(columns, Effective(cached, |columns|)).Some?
    ensures InTurn(columns, cached).1 ==>
      DeletedAll(columns, Effective(cached, |columns|)) == Some(InTurn(columns, cached).0)
    decreases |cached|
  {
    var e := Effective(cached, |columns|);
    if cached != [] {
      assert e[0] == Forward(cached[0], |columns|);
      if 0 <= e[0] < |columns| {
        InTurnIsDeletion(Deleted(columns, e[0]), cached[1..]);
        assert e[1..] == Effective(cached[1..], |columns| - 1);
      }
    }
  }

  lemma {:induction false} InTurnShrinks<T>(columns: seq<Column<T>>, cached: seq<int>)
    ensures |InTurn(columns, cached).0| <= |columns|
    decreases |cached|
  {
    if cached != [] && 0 <= Forward(cached[0], |columns|) < |columns| {
      InTurnShrinks(Deleted(columns, Forward(cached[0], |columns|)), cached[1..]);
    }
  }

  /** Nothing is removed if and only if the first index is not that of a column, backward or not. */
  lemma NothingRemovedCondition<T>(columns: seq<Column<T>>, cached: seq<int>)
    ensures InTurn(columns, cached).0 == columns <==> cached == [] || !(-|columns| <= cached[0] < |columns|)
  {
    if cached != [] && 0 <= Forward(cached[0], |columns|) < |columns| {
      InTurnShrinks(Deleted(columns, Forward(cached[0], |columns|)), cached[1..]);
    }
  }

  /** A column listed twice: the next one is removed, too. */
  lemma RepeatedKeys<T>(a: Column<T>, b: Column<T>)
    ensures DeletedAll([a, b], [0, 0]) == Some([]) && Unlisted([a, b], Listed([0, 0]), 0) == [b]
  {
    assert [0, 0][1..] == [0] && [0][1..] == [];
    assert Deleted([a, b], 0) == [b] && Deleted([b], 0) == [];
    assert Listed([0, 0]) == {0};
    assert Unlisted([a, b], {0}, 1) == [b] + Unlisted([a, b], {0}, 2);
  }

  // Keys

  /** A key is where it may be, `target` being found at its first evaluation. */
  ghost predicate FollowsTarget(now: Option<int>, target: Option<int>, count: int)
  {
    (now.Some? <==> target.Some?) && (now.Some? ==> DriftsTo(target.value, now.value, count))
  }

  /** `targets` are what the keys give at their first evaluation; the next evaluation gives that or drifts further. */
  ghost predicate KeysFollow<T>(keys: seq<ColumnKey>, targets: map<ColumnKey, Option<int>>, columns: seq<Column<T>>)
    reads keys
  {
    forall k :: k in keys ==> k in targets && k.Valid() && FollowsTarget(k.Target(columns), targets[k], |columns|)
  }

  /** The key has its index cached. */
  ghost predicate IsEvaluated(k: ColumnKey, targets: map<ColumnKey, Option<int>>, count: int)
    reads k
  {
    && k in targets && targets[k].Some? && k.index.Some? && DriftsTo(targets[k].value, k.index.value, count)
  }

  ghost predicate Evaluated(keys: seq<ColumnKey>, targets: map<ColumnKey, Option<int>>, count: int)
    reads keys
  {
    forall k :: k in keys ==> IsEvaluated(k, targets, count)
  }

  /** No key is a backward index before the first column. */
  ghost predicate Stable(keys: seq<ColumnKey>, targets: map<ColumnKey, Option<int>>)
  {
    forall k :: k in keys && k in targets && targets[k].Some? ==> targets[k].value >= 0
  }

  ghost predicate SortedKeys(keys: seq<ColumnKey>, targets: map<ColumnKey, Option<int>>)
  {
    forall i, j :: 0 <= i < j < |keys| ==>
      && keys[i] in targets && keys[j] in targets && targets[keys[i]].Some? && targets[keys[j]].Some?
      && targets[keys[i]].value >= targets[keys[j]].value
  }

  /** Evaluate a key of the list. */
  method Evaluate<T>(file: TableFile<T>, keys: seq<ColumnKey>, k: ColumnKey, ghost targets: map<ColumnKey, Option<int>>)
    returns (i: Option<int>)
    requires k in keys && KeysFollow(keys, targets, file.table.columns)
    modifies k
    ensures KeysFollow(keys, targets, file.table.columns)
    ensures i.Some? <==> targets[k].Some?
    ensures i.Some? ==> IsEvaluated(k, targets, |file.table.columns|) && k.index == i
    ensures targets[k].Some? && targets[k].value >= 0 ==> i == targets[k]
    ensures forall l :: l in keys && old(IsEvaluated(l, targets, |file.table.columns|)) ==>
      IsEvaluated(l, targets, |file.table.columns|)
  {
    ghost var n := |file.table.columns|;
    i := k.Index(file);
    if i.Some? {
      DriftsFurther(targets[k].value, i.value, n);
      if targets[k].value >= 0 {
        DriftsNowhere(targets[k].value, i.value, n);
      }
    }
  }

  /** The comparison of the sort: does `a` go before `b`?  It evaluates both keys. */
  method Before<T>(file: TableFile<T>, keys: seq<ColumnKey>, a: ColumnKey, b: ColumnKey,
                   ghost targets: map<ColumnKey, Option<int>>)
    returns (r: Option<bool>)
    requires a in keys && b in keys && KeysFollow(keys, targets, file.table.columns)
    modifies a, b
    ensures KeysFollow(keys, targets, file.table.columns)
    ensures r.Some? <==> targets[a].Some? && targets[b].Some?
    ensures r.Some? ==> IsEvaluated(a, targets, |file.table.columns|) && IsEvaluated(b, targets, |file.table.columns|)
    ensures r.Some? && targets[a].value >= 0 && targets[b].value >= 0 ==>
      r.value == (targets[a].value > targets[b].value)
    ensures forall l :: l in keys && old(IsEvaluated(l, targets, |file.table.columns|)) ==>
      IsEvaluated(l, targets, |file.table.columns|)
  {
    var i := Evaluate(file, keys, a, targets);
    if i.None? {
      return None;
    }
    var j := Evaluate(file, keys, b, targets);
    if j.None? {
      return None;
    }
    return Some(i.value > j.value);
  }

  /** The place of a key in a sorted list of keys; fails if a name is not that of a column. */
  method Place<T>(file: TableFile<T>, keys: seq<ColumnKey>, sorted: seq<ColumnKey>, key: ColumnKey,
                  ghost targets: map<ColumnKey, Option<int>>, ghost n: int)
    returns (ok: bool, p: nat)
    requires KeysFollow(keys, targets, file.table.columns) && key in keys && sorted != [] && n == |file.table.columns|
    requires forall i :: 0 <= i < |sorted| ==> sorted[i] in keys
    requires |sorted| >= 2 ==> Evaluated(sorted, targets, n)
    modifies keys
    ensures KeysFollow(keys, targets, file.table.columns) && p <= |sorted|
    ensures ok ==> Evaluated(sorted, targets, n) && IsEvaluated(key, targets, n)
    ensures ok && Stable(keys, targets) ==> IsPlace(sorted, key, p, targets)
    ensures !ok ==> exists k :: k in keys && targets[k].None?
  {
    p := 0;
    while p < |sorted|
      invariant 0 <= p <= |sorted| && KeysFollow(keys, targets, file.table.columns)
      invariant p > 0 || |sorted| >= 2 ==> Evaluated(sorted, targets, n)
      invariant p > 0 ==> IsEvaluated(key, targets, n)
      invariant Stable(keys, targets) ==> forall q :: 0 <= q < p ==>
        targets[sorted[q]].Some? && targets[sorted[q]].value >= targets[key].value
    {
      var before := Before(file, keys, key, sorted[p], targets);
      if before.None? {
        return false, p;
      }
      if before.value {
        return true, p;
      }
      p := p + 1;
    }
    ok := true;
  }

  /** The keys before `p` are not below the key, which is not below the next one. */
  ghost predicate IsPlace(sorted: seq<ColumnKey>, key: ColumnKey, p: nat, targets: map<ColumnKey, Option<int>>)
  {
    && p <= |sorted| && key in targets && targets[key].Some?
    && (forall k :: k in sorted ==> k in targets && targets[k].Some?)
    && (forall q :: 0 <= q < p ==> targets[sorted[q]].value >= targets[key].value)
    && (p < |sorted| ==> targets[key].value >= targets[sorted[p]].value)
  }

  /** Insert a key in a sorted list of keys; fails if a name is not that of a column. */
  method Insert<T>(file: TableFile<T>, keys: seq<ColumnKey>, sorted: seq<ColumnKey>, key: ColumnKey,
                   ghost targets: map<ColumnKey, Option<int>>, ghost n: int)
    returns (r: Option<seq<ColumnKey>>)
    requires KeysFollow(keys, targets, file.table.columns) && key in keys && sorted != [] && n == |file.table.columns|
    requires forall i :: 0 <= i < |sorted| ==> sorted[i] in keys
    requires Stable(keys, targets) ==> SortedKeys(sorted, targets)
    requires |sorted| >= 2 ==> Evaluated(sorted, targets, n)
    modifies keys
    ensures KeysFollow(keys, targets, file.table.columns)
    ensures r.Some? ==> multiset(r.value) == multiset(sorted) + multiset{key} && Evaluated(r.value, targets, n)
    ensures r.Some? && Stable(keys, targets) ==> SortedKeys(r.value, targets)
    ensures r.None? ==> exists k :: k in keys && targets[k].None?
  {
    var ok, p := Place(file, keys, sorted, key, targets, n);
    if !ok {
      return None;
    }
    if Stable(keys, targets) {
      InsertedIsSorted(sorted, key, p, targets);
    }
    r := Some(Inserted(sorted, key, p));
  }

  function Inserted<K>(keys: seq<K>, key: K, p: nat): (r: seq<K>)
    requires p <= |keys|
    ensures multiset(r) == multiset(keys) + multiset{key}
    ensures forall k :: k in r ==> k in keys || k == key
  {
    assert keys == keys[..p] + keys[p..];
    keys[..p] + [key] + keys[p..]
  }

  lemma InsertedIsSorted(sorted: seq<ColumnKey>, key: ColumnKey, p: nat, targets: map<ColumnKey, Option<int>>)
    requires SortedKeys(sorted, targets) && IsPlace(sorted, key, p, targets)
    ensures SortedKeys(Inserted(sorted, key, p), targets)
  {
  }

  /** Insert the key number `i` among the first ones. */
  method InsertNext<T>(file: TableFile<T>, keys: seq<ColumnKey>, sorted: seq<ColumnKey>, i: nat,
                       ghost targets: map<ColumnKey, Option<int>>)
    returns (r: Option<seq<ColumnKey>>)
    requires KeysFollow(keys, targets, file.table.columns) && 1 <= i < |keys|
    requires Arranged(sorted, keys, i) && (Stable(keys, targets) ==> SortedKeys(sorted, targets))
    requires i >= 2 ==> Evaluated(sorted, targets, |file.table.columns|)
    modifies keys
    ensures KeysFollow(keys, targets, file.table.columns)
    ensures r.Some? ==> Arranged(r.value, keys, i + 1) && Evaluated(r.value, targets, |file.table.columns|)
    ensures r.Some? && Stable(keys, targets) ==> SortedKeys(r.value, targets)
    ensures r.None? ==> exists k :: k in keys && targets[k].None?
  {
    ArrangedMembers(sorted, keys, i);
    r := Insert(file, keys, sorted, keys[i], targets, |file.table.columns|);
    if r.Some? {
      NextArranged(sorted, r.value, keys, i);
    }
  }

  /** Sort by descending index.  A list of one key is not evaluated; others are in order unless they drift. */
  method SortDescending<T>(file: TableFile<T>, keys: seq<ColumnKey>, ghost targets: map<ColumnKey, Option<int>>)
    returns (r: Option<seq<ColumnKey>>)
    requires KeysFollow(keys, targets, file.table.columns)
    modifies keys
    ensures KeysFollow(keys, targets, file.table.columns)
    ensures |keys| < 2 ==> r == Some(keys) && forall k :: k in keys ==> k.index == old(k.index) && k.name == old(k.name)
    ensures r.Some? ==> multiset(r.value) == multiset(keys)
    ensures r.Some? && Stable(keys, targets) ==> SortedKeys(r.value, targets)
    ensures r.Some? && |keys| >= 2 ==> Evaluated(r.value, targets, |file.table.columns|)
    ensures r.None? ==> exists k :: k in keys && targets[k].None?
  {
    if |keys| < 2 {
      return Some(keys);
    }
    var sorted := keys[..1];
    for i := 1 to |keys|
      invariant KeysFollow(keys, targets, file.table.columns)
      invariant Arranged(sorted, keys, i) && (Stable(keys, targets) ==> SortedKeys(sorted, targets))
      invariant i >= 2 ==> Evaluated(sorted, targets, |file.table.columns|)
    {
      r := InsertNext(file, keys, sorted, i, targets);
      if r.None? {
        return;
      }
      sorted := r.value;
    }
    WholePrefix(keys);
    r := Some(sorted);
  }

  /** The sorted keys are the first ones. */
  ghost predicate Arranged<K>(sorted: seq<K>, keys: seq<K>, i: int)
  {
    0 <= i <= |keys| && multiset(sorted) == multiset(keys[..i])
  }

  lemma NextArranged<K>(sorted: seq<K>, next: seq<K>, keys: seq<K>, i: nat)
    requires i < |keys| && Arranged(sorted, keys, i) && multiset(next) == multiset(sorted) + multiset{keys[i]}
    ensures Arranged(next, keys, i + 1)
  {
    assert keys[..i + 1] == keys[..i] + [keys[i]];
  }

  lemma ArrangedMembers<K>(sorted: seq<K>, keys: seq<K>, i: int)
    requires Arranged(sorted, keys, i)
    ensures |sorted| == i && forall j :: 0 <= j < |sorted| ==> sorted[j] in keys
  {
    SameMembers(sorted, keys[..i]);
  }

  lemma WholePrefix<K>(keys: seq<K>)
    ensures multiset(keys[..|keys|]) == multiset(keys)
  {
    assert keys[..|keys|] == keys;
  }

  lemma SameMembers<K>(a: seq<K>, b: seq<K>)
    requires multiset(a) == multiset(b)
    ensures |a| == |b| && forall i :: 0 <= i < |a| ==> a[i] in b
  {
    assert |multiset(a)| == |a| && |multiset(b)| == |b|;
    forall i | 0 <= i < |a| ensures a[i] in b {
      assert a[i] in multiset(a);
    }
  }

  /** Remove one column. */
  method Remove<T>(file: TableFile<T>, key: ColumnKey) returns (ok: bool)
    requires file.Valid() && key.Valid()
    modifies file, key
    ensures file.Valid() && key.Valid()
    ensures old(key.Target(file.table.columns)).Some? ==> key.index == old(key.Target(file.table.columns))
    ensures var target := old(key.Target(file.table.columns));
      && (ok <==> target.Some? && 0 <= target.value < |old(file.table.columns)|)
      && file.table == if ok then old(file.table).(columns := Deleted(old(file.table.columns), target.value))
                       else old(file.table)
  {
    var i := key.Index(file);
    if i.None? || !(0 <= i.value < |file.table.columns|) {
      return false;
    }
    file.table := file.table.(columns := Deleted(file.table.columns, i.value));
    return true;
  }

  ghost predicate AllFound(keys: seq<ColumnKey>, targets: map<ColumnKey, Option<int>>)
  {
    forall k :: k in keys ==> k in targets && targets[k].Some?
  }

  ghost function Values(keys: seq<ColumnKey>, targets: map<ColumnKey, Option<int>>): (r: seq<int>)
    requires AllFound(keys, targets)
  {
    seq(|keys|, i requires 0 <= i < |keys| => targets[keys[i]].value)
  }

  ghost predicate DistinctTargets(keys: seq<ColumnKey>, targets: map<ColumnKey, Option<int>>)
    requires AllFound(keys, targets)
  {
    NoRepeat(Values(keys, targets))
  }

  /** A permutation of the keys lists the same columns, as many times. */
  lemma PermutedValues(keys: seq<ColumnKey>, sorted: seq<ColumnKey>, targets: map<ColumnKey, Option<int>>)
    requires multiset(sorted) == multiset(keys) && AllFound(keys, targets)
    ensures AllFound(sorted, targets) && |sorted| == |keys|
    ensures Listed(Values(sorted, targets)) == Listed(Values(keys, targets))
    ensures NoRepeat(Values(sorted, targets)) <==> NoRepeat(Values(keys, targets))
  {
    SameMembers(sorted, keys);
    SameMembers(keys, sorted);
    assert AllFound(sorted, targets);
    var a, b := Values(sorted, targets), Values(keys, targets);
    forall x | x in a ensures x in b {
      var i :| 0 <= i < |a| && a[i] == x;
      var j :| 0 <= j < |keys| && keys[j] == sorted[i];
      assert b[j] == x;
    }
    forall x | x in b ensures x in a {
      var i :| 0 <= i < |b| && b[i] == x;
      var j :| 0 <= j < |sorted| && sorted[j] == keys[i];
      assert a[j] == x;
    }
    assert Listed(a) == Listed(b);
    ListedSize(a);
    ListedSize(b);
  }

  /** Every key stands for a column of the table. */
  ghost predicate AllInTable(keys: seq<ColumnKey>, targets: map<ColumnKey, Option<int>>, n: int)
  {
    AllFound(keys, targets) && forall k :: k in keys ==> targets[k].value < n
  }

  lemma LargestFirst(keys: seq<ColumnKey>, sorted: seq<ColumnKey>, targets: map<ColumnKey, Option<int>>, n: int)
    requires multiset(sorted) == multiset(keys) && AllFound(keys, targets) && !AllInTable(keys, targets, n)
    requires SortedKeys(sorted, targets)
    ensures sorted != [] && sorted[0] in targets && targets[sorted[0]].Some? && targets[sorted[0]].value >= n
  {
    SameMembers(keys, sorted);
    SameMembers(sorted, keys);
    var k :| k in keys && targets[k].value >= n;
    var i :| 0 <= i < |keys| && keys[i] == k;
    var j :| 0 <= j < |sorted| && sorted[j] == k;
  }

  ghost predicate DistinctKeys(keys: seq<ColumnKey>)
  {
    forall i, j :: 0 <= i < j < |keys| ==> keys[i] != keys[j]
  }

  lemma PermutedKeys(keys: seq<ColumnKey>, sorted: seq<ColumnKey>)
    requires multiset(sorted) == multiset(keys) && DistinctKeys(keys)
    ensures DistinctKeys(sorted)
  {
    forall i, j | 0 <= i < j < |sorted| ensures sorted[i] != sorted[j] {
      var k := sorted[i];
      OnceOrTwice(sorted, i, j);
      AtMostOnce(keys, k);
    }
  }

  lemma OnceOrTwice<K>(keys: seq<K>, i: int, j: int)
    requires 0 <= i < j < |keys|
    ensures keys[i] == keys[j] ==> multiset(keys)[keys[i]] >= 2
  {
    assert keys == keys[..i] + [keys[i]] + keys[i + 1..j] + [keys[j]] + keys[j + 1..];
  }

  lemma {:induction false} AtMostOnce(keys: seq<ColumnKey>, k: ColumnKey)
    requires DistinctKeys(keys)
    ensures multiset(keys)[k] <= 1
    decreases |keys|
  {
    if keys != [] {
      var rest := keys[..|keys| - 1];
      AtMostOnce(rest, k);
      assert keys == rest + [keys[|keys| - 1]];
    }
  }

  /** The value which a removal by the key starts from: its cached index, or the column of its name if it is alone. */
  ghost predicate StartsFrom<T>(k: ColumnKey, v: int, columns: seq<Column<T>>, alone: bool)
    reads k
  {
    k.index == Some(v) || (alone && k.index.None? && k.name.Some? && k.Target(columns) == Some(v))
  }

  /** Remove columns one after the other, given the values which the keys start from, or none for an unknown name. */
  method RemoveEach<T>(file: TableFile<T>, keys: seq<ColumnKey>, ghost cached: Option<seq<int>>) returns (ok: bool)
    requires file.Valid() && DistinctKeys(keys) && (cached.Some? ==> |cached.value| == |keys|)
    requires cached.Some? ==> forall p :: 0 <= p < |keys| ==>
      StartsFrom(keys[p], cached.value[p], file.table.columns, |keys| == 1)
    requires cached.None? ==> |keys| == 1 && keys[0].Valid() && keys[0].Target(file.table.columns).None?
    modifies file, keys
    ensures file.Valid() && file.table == old(file.table).(columns := file.table.columns)
    ensures (file.table.columns, ok) ==
      if cached.Some? then InTurn(old(file.table.columns), cached.value) else (old(file.table.columns), false)
  {
    ghost var all, c := file.table.columns, if cached.Some? then cached.value else [0];
    assert c[0..] == c;
    for p := 0 to |keys|
      invariant file.Valid() && file.table == old(file.table).(columns := file.table.columns)
      invariant cached.Some? ==> forall q :: p <= q < |keys| ==>
        StartsFrom(keys[q], c[q], file.table.columns, |keys| == 1)
      invariant cached.Some? ==> InTurn(file.table.columns, c[p..]) == InTurn(all, c)
      invariant cached.None? ==> p == 0 && file.table == old(file.table)
      invariant cached.None? ==> keys[0].Valid() && keys[0].Target(file.table.columns).None?
    {
      assert c[p..][0] == c[p] && c[p..][1..] == c[p + 1..];
      assert cached.Some? ==> StartsFrom(keys[p], c[p], file.table.columns, |keys| == 1);
      assert cached.Some? ==> keys[p].Target(file.table.columns) == Some(Forward(c[p], |file.table.columns|));
      ok := Remove(file, keys[p]);
      if !ok {
        return;
      }
    }
    ok := true;
  }

  /** What is cached once keys are sorted: a key alone is not evaluated, the others are, at least once. */
  ghost predicate AreCached(order: seq<ColumnKey>, cached: seq<int>, targets: map<ColumnKey, Option<int>>, count: int)
    requires AllFound(order, targets)
  {
    && |cached| == |order|
    && (|order| == 1 ==> Forward(cached[0], count) == targets[order[0]].value)
    && (|order| >= 2 ==> forall p :: 0 <= p < |order| ==> DriftsTo(targets[order[p]].value, cached[p], count))
  }

  /** Indices of columns are cached as they are. */
  lemma StableIndices(order: seq<ColumnKey>, cached: seq<int>, targets: map<ColumnKey, Option<int>>, count: int)
    requires AllFound(order, targets) && Stable(order, targets) && AreCached(order, cached, targets, count)
    ensures Effective(cached, count) == Values(order, targets)
  {
    forall p | 0 <= p < |order| ensures Effective(cached, count)[p] == targets[order[p]].value {
      if |order| >= 2 {
        DriftsNowhere(targets[order[p]].value, cached[p], count);
      }
    }
  }

  /**
   Keys which are not backward indices before the first column: nothing is removed if one of them stands for no
   column, and else exactly the listed columns are removed if and only if no column is listed twice.
   */
  lemma StableRemoval<T>(columns: seq<Column<T>>, keys: seq<ColumnKey>, order: seq<ColumnKey>, cached: seq<int>,
                         targets: map<ColumnKey, Option<int>>)
    requires multiset(order) == multiset(keys) && AllFound(keys, targets) && AllFound(order, targets)
    requires Stable(keys, targets) && SortedKeys(order, targets) && AreCached(order, cached, targets, |columns|)
    ensures !AllInTable(keys, targets, |columns|) ==> InTurn(columns, cached) == (columns, false)
    ensures AllInTable(keys, targets, |columns|) ==>
      (InTurn(columns, cached) == (Unlisted(columns, Listed(Values(keys, targets)), 0), true) <==>
        DistinctTargets(keys, targets))
  {
    SameMembers(order, keys);
    SameMembers(keys, order);
    StableIndices(order, cached, targets, |columns|);
    InTurnIsDeletion(columns, cached);
    PermutedValues(keys, order, targets);
    var indices := Values(order, targets);
    if AllInTable(keys, targets, |columns|) {
      assert Descending(indices) && InRange(indices, |columns|);
      RemovalCondition(columns, indices);
    } else {
      LargestFirst(keys, order, targets, |columns|);
      assert Effective(cached, |columns|)[0] == indices[0];
    }
  }

  /** `targets` are what the keys give at their first evaluation. */
  ghost predicate KeysGive<T>(keys: seq<ColumnKey>, targets: map<ColumnKey, Option<int>>, columns: seq<Column<T>>)
    reads keys
  {
    forall k :: k in keys ==> k in targets && k.Valid() && k.Target(columns) == targets[k]
  }

  /** The values which sorted keys start from. */
  ghost function CachedIn(keys: seq<ColumnKey>, targets: map<ColumnKey, Option<int>>): (r: seq<int>)
    requires AllFound(keys, targets)
    reads keys
  {
    seq(|keys|, p requires 0 <= p < |keys| reads keys =>
      if keys[p].index.Some? then keys[p].index.value else targets[keys[p]].value)
  }

  /** Remove columns by keys which were sorted. */
  method RemoveSorted<T>(file: TableFile<T>, sorted: seq<ColumnKey>, ghost targets: map<ColumnKey, Option<int>>)
    returns (ok: bool, ghost cached: seq<int>)
    requires file.Valid() && DistinctKeys(sorted)
    requires |sorted| >= 2 ==> Evaluated(sorted, targets, |file.table.columns|)
    requires |sorted| == 1 ==> KeysGive(sorted, targets, file.table.columns)
    modifies file, sorted
    ensures file.Valid() && file.table == old(file.table).(columns := file.table.columns)
    ensures !AllFound(sorted, targets) ==> !ok && file.table == old(file.table)
    ensures AllFound(sorted, targets) ==>
      && AreCached(sorted, cached, targets, |old(file.table.columns)|)
      && (file.table.columns, ok) == InTurn(old(file.table.columns), cached)
  {
    cached := [];
    ghost var given: Option<seq<int>> := None;
    assert |sorted| >= 2 ==> AllFound(sorted, targets);
    if AllFound(sorted, targets) {
      cached := CachedIn(sorted, targets);
      given := Some(cached);
      assert forall p :: 0 <= p < |sorted| ==> sorted[p] in sorted;
    }
    ok := RemoveEach(file, sorted, given);
  }

  /**
   Remove several columns, whatever the keys: names, indices, or backward indices even before the first column.
   `order` and `cached` are the keys and their values once sorted.  The columns are removed in turn by these values;
   this is what `StableRemoval` promises if no key is before the first column.
   */
  method RemoveSeq<T>(file: TableFile<T>, keys: seq<ColumnKey>, ghost targets: map<ColumnKey, Option<int>>)
    returns (ok: bool, ghost order: seq<ColumnKey>, ghost cached: seq<int>)
    requires file.Valid() && KeysGive(keys, targets, file.table.columns) && DistinctKeys(keys)
    modifies file, keys
    ensures file.Valid() && file.table == old(file.table).(columns := file.table.columns)
    ensures !AllFound(keys, targets) ==> !ok && file.table == old(file.table)
    ensures AllFound(keys, targets) ==>
      && multiset(order) == multiset(keys) && AllFound(order, targets)
      && AreCached(order, cached, targets, |old(file.table.columns)|)
      && (file.table.columns, ok) == InTurn(old(file.table.columns), cached)
    ensures AllFound(keys, targets) && Stable(keys, targets) ==> SortedKeys(order, targets)
    ensures Stable(keys, targets) && !AllInTable(keys, targets, |old(file.table.columns)|) ==>
      !ok && file.table == old(file.table)
    ensures Stable(keys, targets) && AllInTable(keys, targets, |old(file.table.columns)|) ==>
      (ok && file.table.columns == Unlisted(old(file.table.columns), Listed(Values(keys, targets)), 0) <==>
        DistinctTargets(keys, targets))
  {
    ghost var all := file.table.columns;
    ghost var n := |all|;
    forall k | k in keys ensures FollowsTarget(k.Target(all), targets[k], n) {
      if targets[k].Some? {
        DriftsFurther(targets[k].value, targets[k].value, n);
      }
    }
    order, cached := [], [];
    var sorted := SortDescending(file, keys, targets);
    if sorted.None? {
      return false, order, cached;
    }
    order := sorted.value;
    SameMembers(order, keys);
    SameMembers(keys, order);
    PermutedKeys(keys, order);
    ok, cached := RemoveSorted(file, sorted.value, targets);
    if AllFound(keys, targets) && Stable(keys, targets) {
      StableRemoval(all, keys, order, cached, targets);
    }
  }

  /**
   Several keys from minus twice the count of columns on always have something removed, however they are sorted, even
   if some of them stand for no column.
   */
  lemma SomethingRemoved<T>(columns: seq<Column<T>>, order: seq<ColumnKey>, cached: seq<int>,
                            targets: map<ColumnKey, Option<int>>)
    requires AllFound(order, targets) && |order| >= 2 && AreCached(order, cached, targets, |columns|)
    requires columns != [] && forall k :: k in order ==> -|columns| <= targets[k].value < |columns|
    ensures InTurn(columns, cached).0 != columns
  {
    var t, n := targets[order[0]].value, |columns|;
    assert order[0] in order;
    var e: nat :| cached[0] == Drifted(t, n, e);
    DriftCondition(t, n, e);
    if e > 0 {
      assert n * e >= n;
    }
    NothingRemovedCondition(columns, cached);
  }

  /**
   Among four columns, -5 stands for none.  With 0, a column is removed however they are sorted; with one evaluation,
   which leaves -1, these are the columns 0 and 3.
   */
  lemma WrongRemoval<T>(columns: seq<Column<T>>, cached: seq<int>, v: int)
    requires |columns| == 4 && (cached == [0, v] || cached == [v, 0]) && DriftsTo(Forward(-5, 4), v, 4)
    ensures InTurn(columns, cached).0 != columns
    ensures InTurn(columns, [0, Forward(-5, 4)]) == ([columns[1], columns[2]], true)
  {
    var e: nat :| v == Drifted(-1, 4, e);
    DriftCondition(-1, 4, e);
    NothingRemovedCondition(columns, cached);
    var d := Deleted(columns, 0);
    assert [0, -1][1..] == [-1] && [-1][1..] == [];
    assert InTurn(d, [-1]) == InTurn(Deleted(d, 2), []);
    assert Deleted(d, 2) == [columns[1], columns[2]];
  }

  /** -100 does not stand for a column either; after 0, which is removed, it raises an exception. */
  lemma PartialRemoval<T>(columns: seq<Column<T>>)
    requires |columns| == 4
    ensures InTurn(columns, [0, Forward(-100, 4)]) == (columns[1..], false)
  {
    assert [0, -96][1..] == [-96];
    assert Deleted(columns, 0) == columns[1..];
  }
}
