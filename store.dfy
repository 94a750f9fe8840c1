/**
 * The repositories the service consumes, as pure queries over the stored
 * values: lookup by natural key (checkIfExist, findByName), the listing in
 * store order (findAll) and the derived filters (findByConfirmIsTrue,
 * findByConfirmIsFalse, findByUserId).
 */
module EventStore {
  import opened Wrappers
  import opened Entities

  ghost predicate Distinct<T>(s: seq<T>)
  {
    forall i, j :: 0 <= i < j < |s| ==> s[i] != s[j]
  }

  /** No two rows share a natural key: what deduplication on save is meant to keep. */
  ghost predicate KeysUnique<T, K>(rows: seq<T>, key: T -> K)
  {
    forall i, j :: 0 <= i < j < |rows| ==> key(rows[i]) != key(rows[j])
  }

  /** The first row whose natural key is `k`, or None: a single-row repository lookup. */
  function FirstWithKey<T, K(==)>(rows: seq<T>, key: T -> K, k: K): (r: Option<T>)
    ensures r.Some? ==> r.value in rows && key(r.value) == k
    ensures r.None? <==> forall x :: x in rows ==> key(x) != k
  {
    if |rows| == 0 then None
    else if key(rows[0]) == k then Some(rows[0])
    else FirstWithKey(rows[1..], key, k)
  }

  /** When keys are unique, looking up a row's own key finds that very row. */
  lemma UniqueLookup<T, K>(rows: seq<T>, key: T -> K)
    requires KeysUnique(rows, key)
    ensures forall x :: x in rows ==> FirstWithKey(rows, key, key(x)) == Some(x)
  {
  }

  /** Adding a row whose key is not present yet keeps the keys unique. */
  lemma AppendKeepsUnique<T, K>(rows: seq<T>, key: T -> K, y: T)
    requires KeysUnique(rows, key)
    requires FirstWithKey(rows, key, key(y)).None?
    ensures KeysUnique(rows + [y], key)
  {
  }

  /** The stored events listed in the order of `ids`: the repository's findAll. */
  function Rows(ids: seq<int>, table: map<int, Event>): (rows: seq<Event>)
    requires forall i :: 0 <= i < |ids| ==> ids[i] in table
    ensures |rows| == |ids|
    ensures forall i :: 0 <= i < |ids| ==> rows[i] == table[ids[i]]
  {
    if |ids| == 0 then [] else [table[ids[0]]] + Rows(ids[1..], table)
  }

  /** When `ids` lists exactly the table's keys, the listing holds exactly the table's events. */
  lemma RowsHoldTable(ids: seq<int>, table: map<int, Event>)
    requires forall i :: 0 <= i < |ids| ==> ids[i] in table
    requires forall k :: k in table ==> k in ids
    ensures forall e :: e in Rows(ids, table) <==> exists k :: k in table && table[k] == e
  {
    var rows := Rows(ids, table);
    forall k | k in table ensures table[k] in rows {
      var i :| 0 <= i < |ids| && ids[i] == k;
      assert rows[i] == table[k];
    }
    forall e | e in rows ensures exists k :: k in table && table[k] == e {
      var i :| 0 <= i < |rows| && rows[i] == e;
      var k := ids[i];
      assert k in table && table[k] == e;
    }
  }

  /** findByConfirmIsTrue / findByConfirmIsFalse: the rows whose confirm flag is `flag`, in order. */
  function WithConfirm(rows: seq<Event>, flag: bool): (r: seq<Event>)
    ensures |r| <= |rows|
    ensures forall e :: e in r <==> e in rows && e.confirm == flag
  {
    if |rows| == 0 then []
    else if rows[0].confirm == flag then [rows[0]] + WithConfirm(rows[1..], flag)
    else WithConfirm(rows[1..], flag)
  }

  predicate OwnedBy(e: Event, userId: int)
  {
    e.user.Some? && e.user.value.id == userId
  }

  /** findByUserId: the rows owned by the user with id `userId`, in order. */
  function WithOwner(rows: seq<Event>, userId: int): (r: seq<Event>)
    ensures |r| <= |rows|
    ensures forall e :: e in r <==> e in rows && OwnedBy(e, userId)
  {
    if |rows| == 0 then []
    else if OwnedBy(rows[0], userId) then [rows[0]] + WithOwner(rows[1..], userId)
    else WithOwner(rows[1..], userId)
  }

  /** The confirmed and the unconfirmed listings split the rows: each row lands in exactly one. */
  lemma {:induction false} ConfirmPartition(rows: seq<Event>)
    ensures multiset(WithConfirm(rows, true)) + multiset(WithConfirm(rows, false)) == multiset(rows)
    ensures |WithConfirm(rows, true)| + |WithConfirm(rows, false)| == |rows|
  {
    if |rows| > 0 {
      ConfirmPartition(rows[1..]);
      assert rows == [rows[0]] + rows[1..];
    }
  }

  /** The store order with `id` taken out; the other ids keep their relative order (see RemoveAt). */
  function Remove(ids: seq<int>, id: int): (r: seq<int>)
    ensures forall x :: x in r <==> x in ids && x != id
    ensures Distinct(ids) ==> Distinct(r)
    ensures id !in ids ==> r == ids
  {
    if |ids| == 0 then []
    else if ids[0] == id then Remove(ids[1..], id)
    else
      var rest := Remove(ids[1..], id);
      assert Distinct(ids) ==> Distinct(ids[1..]) && ids[0] !in rest;
      [ids[0]] + rest
  }

  /** In a listing without repeats, removing the id at position `p` closes the gap and keeps the order. */
  lemma {:induction false} RemoveAt(ids: seq<int>, p: nat)
    requires Distinct(ids) && p < |ids|
    ensures Remove(ids, ids[p]) == ids[..p] + ids[p + 1..]
  {
    var tail := ids[1..];
    if p == 0 {
      assert ids[0] !in tail by {
        forall i | 0 <= i < |tail| ensures tail[i] != ids[0] {
          assert tail[i] == ids[i + 1];
        }
      }
      assert Remove(ids, ids[0]) == Remove(tail, ids[0]) == tail;
      assert ids[..0] + ids[1..] == tail;
    } else {
      assert Distinct(tail) by {
        forall i, j | 0 <= i < j < |tail| ensures tail[i] != tail[j] {
          assert tail[i] == ids[i + 1] && tail[j] == ids[j + 1];
        }
      }
      assert ids[0] != ids[p] && tail[p - 1] == ids[p];
      assert Remove(ids, ids[p]) == [ids[0]] + Remove(tail, ids[p]);
      RemoveAt(tail, p - 1);
      assert ids[..p] == [ids[0]] + tail[..p - 1];
      assert ids[p + 1..] == tail[p..];
    }
  }

  /** Looking a name up in the listing succeeds exactly when some stored event has that name. */
  lemma NamedRowExists(ids: seq<int>, table: map<int, Event>, name: string)
    requires forall i :: 0 <= i < |ids| ==> ids[i] in table
    requires forall k :: k in table ==> k in ids
    ensures FirstWithKey(Rows(ids, table), EventName, name).Some?
        <==> exists k :: k in table && table[k].name == name
  {
    var rows := Rows(ids, table);
    var found := FirstWithKey(rows, EventName, name);
    if found.Some? {
      var i :| 0 <= i < |rows| && rows[i] == found.value;
      assert ids[i] in table && table[ids[i]].name == name;
    }
    if exists k :: k in table && table[k].name == name {
      var k :| k in table && table[k].name == name;
      var i :| 0 <= i < |ids| && ids[i] == k;
      assert rows[i] in rows && EventName(rows[i]) == name;
    }
  }
}
