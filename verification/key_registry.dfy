/**
 The key registry, table SEC01_ENCRYPTION_KEY: rows of (KEY_ID,
 ENCRYPTION_KEY) with an auto-increment id. Rows are only ever added.
 */
module KeyRegistry {
  import opened Types

  /**
   `keys` maps each KEY_ID to its ENCRYPTION_KEY text ("" stands for an empty
   or NULL column; both are falsy and both make the cipher raise).
   `nextId` is the table's auto-increment counter. `queryable` says whether
   the query helper config.py reaches the registry through succeeds.
   */
  datatype Registry = Registry(keys: map<int, string>, nextId: nat, queryable: bool)

  /** The auto-increment discipline: every id is positive and below the counter. */
  predicate Valid(reg: Registry) {
    && reg.nextId >= 1
    && forall id :: id in reg.keys ==> 1 <= id < reg.nextId
  }

  /** `ENCRYPTION_KEY` of row `id`, when the row exists and its key is truthy. */
  function KeyFor(reg: Registry, id: int): (r: Option<string>)
    ensures r.Some? <==> id in reg.keys && reg.keys[id] != ""
    ensures r.Some? ==> r.value == reg.keys[id]
  {
    if id in reg.keys && reg.keys[id] != "" then Some(reg.keys[id]) else None
  }

  /** A set other than the empty set has an element. */
  lemma NonEmptyHasElement(ids: set<int>)
    requires ids != {}
    ensures exists x :: x in ids
  {
    if forall x :: x !in ids {
      assert false;
    }
  }

  lemma MaxExists(ids: set<int>)
    requires ids != {}
    ensures exists m :: m in ids && forall x :: x in ids ==> x <= m
    decreases |ids|
  {
    NonEmptyHasElement(ids);
    var x :| x in ids;
    var rest := ids - {x};
    if rest == {} {
      forall y | y in ids
        ensures y <= x
      {
        assert y !in rest;
      }
    } else {
      MaxExists(rest);
      var m :| m in rest && forall y :: y in rest ==> y <= m;
      var top := if x > m then x else m;
      forall y | y in ids
        ensures y <= top
      {
        if y != x {
          assert y in rest;
        }
      }
      assert top in ids;
    }
  }

  /** The largest id of a non-empty set of ids. */
  function MaxOf(ids: set<int>): (m: int)
    requires ids != {}
    ensures m in ids && forall x :: x in ids ==> x <= m
  {
    MaxExists(ids);
    var m :| m in ids && forall x :: x in ids ==> x <= m;
    m
  }

  /** `SELECT KEY_ID ... ORDER BY KEY_ID DESC LIMIT 1`: the newest row, if any. */
  function NewestId(reg: Registry): (r: Option<int>)
    ensures r.None? <==> reg.keys.Keys == {}
    ensures r.Some? ==> r.value in reg.keys && forall id :: id in reg.keys ==> id <= r.value
  {
    if reg.keys.Keys == {} then None else Some(MaxOf(reg.keys.Keys))
  }

  predicate StrictlyDescending(ids: seq<int>) {
    forall i, j :: 0 <= i < j < |ids| ==> ids[i] > ids[j]
  }

  /** The ids of a set in `ORDER BY KEY_ID DESC` order. */
  function DescendingIds(ids: set<int>): (r: seq<int>)
    ensures |r| == |ids|
    ensures forall i :: 0 <= i < |r| ==> r[i] in ids
    ensures forall id :: id in ids ==> id in r
    ensures StrictlyDescending(r)
    decreases |ids|
  {
    if ids == {} then []
    else
      var m := MaxOf(ids);
      var rest := DescendingIds(ids - {m});
      PrependMax(ids, m, rest);
      [m] + rest
  }

  /** The step of `DescendingIds`: the maximum goes before the descending rest. */
  lemma PrependMax(ids: set<int>, m: int, rest: seq<int>)
    requires m in ids && forall x :: x in ids ==> x <= m
    requires |rest| == |ids - {m}| && StrictlyDescending(rest)
    requires forall i :: 0 <= i < |rest| ==> rest[i] in ids - {m}
    requires forall id :: id in ids - {m} ==> id in rest
    ensures |[m] + rest| == |ids|
    ensures forall i :: 0 <= i < |[m] + rest| ==> ([m] + rest)[i] in ids
    ensures forall id :: id in ids ==> id in [m] + rest
    ensures StrictlyDescending([m] + rest)
  {
    PrependMembers(ids, m, rest);
    PrependDescending(m, rest);
  }

  lemma PrependMembers(ids: set<int>, m: int, rest: seq<int>)
    requires m in ids && |rest| == |ids - {m}|
    requires forall i :: 0 <= i < |rest| ==> rest[i] in ids - {m}
    requires forall id :: id in ids - {m} ==> id in rest
    ensures |[m] + rest| == |ids|
    ensures forall i :: 0 <= i < |[m] + rest| ==> ([m] + rest)[i] in ids
    ensures forall id :: id in ids ==> id in [m] + rest
  {
    var r := [m] + rest;
    assert |ids - {m}| == |ids| - 1;
    forall i | 0 <= i < |r|
      ensures r[i] in ids
    {
      if i > 0 {
        assert r[i] == rest[i - 1];
      }
    }
    forall id | id in ids
      ensures id in r
    {
      if id != m {
        assert id in rest;
      }
    }
  }

  lemma PrependDescending(m: int, rest: seq<int>)
    requires StrictlyDescending(rest)
    requires forall i :: 0 <= i < |rest| ==> rest[i] < m
    ensures StrictlyDescending([m] + rest)
  {
    var r := [m] + rest;
    forall i, j | 0 <= i < j < |r|
      ensures r[i] > r[j]
    {
      assert r[j] == rest[j - 1];
      if i > 0 {
        assert r[i] == rest[i - 1];
      }
    }
  }

  /** In a strictly descending list, a larger value sits at an earlier index. */
  lemma DescendingOrder(ids: seq<int>, a: nat, b: nat)
    requires StrictlyDescending(ids) && a < |ids| && b < |ids| && ids[a] < ids[b]
    ensures b < a
  {
  }

  /** `SELECT ENCRYPTION_KEY ... ORDER BY KEY_ID DESC`: the id order of the rows. */
  function NewestFirstIds(reg: Registry): (r: seq<int>)
    ensures |r| == |reg.keys|
    ensures forall i :: 0 <= i < |r| ==> r[i] in reg.keys
    ensures forall id :: id in reg.keys ==> id in r
    ensures StrictlyDescending(r)
  {
    DescendingIds(reg.keys.Keys)
  }

  /** The ids of `keys` above `id`. */
  function HigherIds(keys: set<int>, id: int): set<int> {
    set x | x in keys && x > id
  }

  /**
   The ENCRYPTION_KEY column of every row, highest KEY_ID first: one entry
   per row, and the key of row `id` sits after exactly the rows with a
   higher KEY_ID.
   */
  function NewestFirstKeys(reg: Registry): (r: seq<string>)
    ensures |r| == |reg.keys|
    ensures forall id :: id in reg.keys ==>
      |HigherIds(reg.keys.Keys, id)| < |r| && r[|HigherIds(reg.keys.Keys, id)|] == reg.keys[id]
    ensures |r| == |NewestFirstIds(reg)|
    ensures forall i :: 0 <= i < |r| ==> r[i] == reg.keys[NewestFirstIds(reg)[i]]
  {
    var ids := NewestFirstIds(reg);
    var r := seq(|ids|, i requires 0 <= i < |ids| => reg.keys[ids[i]]);
    KeysAtRank(reg, ids, r);
    r
  }

  lemma KeysAtRank(reg: Registry, ids: seq<int>, r: seq<string>)
    requires |ids| == |reg.keys| && StrictlyDescending(ids)
    requires forall i :: 0 <= i < |ids| ==> ids[i] in reg.keys
    requires forall id :: id in reg.keys ==> id in ids
    requires |r| == |ids| && forall i :: 0 <= i < |r| ==> r[i] == reg.keys[ids[i]]
    ensures forall id :: id in reg.keys ==>
      |HigherIds(reg.keys.Keys, id)| < |r| && r[|HigherIds(reg.keys.Keys, id)|] == reg.keys[id]
  {
    forall id | id in reg.keys
      ensures |HigherIds(reg.keys.Keys, id)| < |r| && r[|HigherIds(reg.keys.Keys, id)|] == reg.keys[id]
    {
      var i :| 0 <= i < |ids| && ids[i] == id;
      DescendingRank(reg.keys.Keys, ids, i);
    }
  }

  /** The values before index `i`. */
  function Before(ids: seq<int>, i: nat): set<int>
    requires i <= |ids|
  {
    set k | 0 <= k < i :: ids[k]
  }

  /** In the descending order of a set, the ids above the `i`-th are the `i` before it. */
  lemma DescendingRank(keys: set<int>, ids: seq<int>, i: nat)
    requires StrictlyDescending(ids) && i < |ids|
    requires forall k :: 0 <= k < |ids| ==> ids[k] in keys
    requires forall id :: id in keys ==> id in ids
    ensures |HigherIds(keys, ids[i])| == i
  {
    forall x | x in HigherIds(keys, ids[i])
      ensures x in Before(ids, i)
    {
      var k :| 0 <= k < |ids| && ids[k] == x;
      DescendingOrder(ids, i, k);
    }
    assert HigherIds(keys, ids[i]) == Before(ids, i);
    BeforeSize(ids, i);
  }

  lemma {:induction false} BeforeSize(ids: seq<int>, i: nat)
    requires StrictlyDescending(ids) && i <= |ids|
    ensures |Before(ids, i)| == i
  {
    if i > 0 {
      BeforeSize(ids, i - 1);
      assert ids[i - 1] !in Before(ids, i - 1);
      assert Before(ids, i) == Before(ids, i - 1) + {ids[i - 1]};
    }
  }

  /**
   `INSERT INTO SEC01_ENCRYPTION_KEY (ENCRYPTION_KEY) VALUES (key)` followed by
   `lastrowid`: the new row takes the auto-increment id.
   */
  function Add(reg: Registry, key: string): (r: (Registry, int))
    requires Valid(reg)
    ensures Valid(r.0)
    ensures r.1 !in reg.keys
    ensures forall id :: id in reg.keys ==> id < r.1
    ensures r.0.keys == reg.keys[r.1 := key]
    ensures r.0.queryable == reg.queryable
    ensures NewestId(r.0) == Some(r.1)
  {
    var r := Registry(reg.keys[reg.nextId := key], reg.nextId + 1, reg.queryable);
    assert reg.nextId in r.keys.Keys;
    assert NewestId(r).value == reg.nextId by {
      var m := NewestId(r).value;
      assert m <= reg.nextId && reg.nextId <= m;
    }
    (r, reg.nextId)
  }
}
