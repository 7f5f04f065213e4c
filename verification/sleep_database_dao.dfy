/** The abstract semantics of the Room DAO over the sleep table: a keyed store
    of nights with an auto-increment counter for fresh primary keys. Every
    operation is one atomic step on an immutable value. */
module SleepDatabaseDao {
  import opened SleepNight

  /** The table: rows keyed by primary key, and the next key the
      auto-increment column will hand out. */
  datatype Store = Store(rows: map<int, Night>, nextId: int)

  /** Primary-key discipline: every row sits under its own `nightId`, and
      every key is positive and below the next key to be generated. */
  ghost predicate Valid(s: Store)
  {
    && 0 < s.nextId
    && forall k :: k in s.rows ==> s.rows[k].nightId == k && 0 < k < s.nextId
  }

  /** A freshly created database: no rows, keys start at 1. */
  function Empty(): (s: Store)
    ensures Valid(s) && |s.rows| == 0
  {
    Store(map[], 1)
  }

  /** Nights listed with strictly decreasing keys, newest first. */
  ghost predicate NewestFirst(xs: seq<Night>)
  {
    forall i, j :: 0 <= i < j < |xs| ==> xs[i].nightId > xs[j].nightId
  }

  /** `xs` lists exactly the rows of `s`: each entry is a stored row and each
      stored row appears. */
  ghost predicate ListsRows(s: Store, xs: seq<Night>)
  {
    && (forall i :: 0 <= i < |xs| ==> xs[i].nightId in s.rows && s.rows[xs[i].nightId] == xs[i])
    && (forall k :: k in s.rows ==> s.rows[k] in xs)
  }

  /** The greatest key of `rows` in the range 1 .. bound - 1, found by
      scanning downward from `bound - 1`. */
  function NewestBelow(rows: map<int, Night>, bound: int): (r: Option<int>)
    ensures r.Some? ==> r.value in rows && 0 < r.value < bound
    ensures r.Some? ==> forall k :: k in rows && k < bound ==> k <= r.value
    ensures r.None? ==> forall k :: k in rows ==> !(0 < k < bound)
    decreases bound
  {
    if bound <= 1 then None
    else if bound - 1 in rows then Some(bound - 1)
    else NewestBelow(rows, bound - 1)
  }

  /** The keys of `rows` in the range 1 .. bound - 1, in descending order. */
  function KeysBelow(rows: map<int, Night>, bound: int): (r: seq<int>)
    ensures forall i :: 0 <= i < |r| ==> r[i] in rows && 0 < r[i] < bound
    ensures forall k :: k in rows && 0 < k < bound ==> k in r
    ensures forall i, j :: 0 <= i < j < |r| ==> r[i] > r[j]
    decreases bound
  {
    if bound <= 1 then []
    else if bound - 1 in rows then [bound - 1] + KeysBelow(rows, bound - 1)
    else KeysBelow(rows, bound - 1)
  }

  /** A strictly descending sequence has no repeated element, so it has as
      many elements as the set of its elements. */
  lemma {:induction false} DescendingCard(r: seq<int>)
    requires forall i, j :: 0 <= i < j < |r| ==> r[i] > r[j]
    ensures |set x | x in r| == |r|
  {
    if r != [] {
      var tail := r[1..];
      DescendingCard(tail);
      assert (set x | x in r) == {r[0]} + (set x | x in tail);
      assert r[0] !in (set x | x in tail);
    }
  }

  /** The key the next insert will assign. */
  function FreshId(s: Store): (id: int)
    requires Valid(s)
    ensures id !in s.rows
    ensures forall k :: k in s.rows ==> k < id
  {
    s.nextId
  }

  /** `@Insert`: stores `night` under a freshly generated key, greater than
      every key in the table; the placeholder id of `night` is ignored. */
  function Insert(s: Store, night: Night): (r: Store)
    requires Valid(s)
    ensures Valid(r)
    ensures r.rows.Keys == s.rows.Keys + {FreshId(s)}
    ensures |r.rows| == |s.rows| + 1
    ensures forall k :: k in s.rows ==> r.rows[k] == s.rows[k]
    ensures r.rows[FreshId(s)] == night.(nightId := FreshId(s))
    ensures FreshId(s) < FreshId(r)
  {
    var id := s.nextId;
    Store(s.rows[id := night.(nightId := id)], id + 1)
  }

  /** `@Update`: overwrites the row whose key is `night.nightId`; when there
      is no such row nothing is written. */
  function Update(s: Store, night: Night): (r: Store)
    requires Valid(s)
    ensures Valid(r)
    ensures r.rows.Keys == s.rows.Keys && r.nextId == s.nextId
    ensures night.nightId in s.rows ==> r.rows[night.nightId] == night
    ensures night.nightId !in s.rows ==> r == s
    ensures forall k :: k in s.rows && k != night.nightId ==> r.rows[k] == s.rows[k]
  {
    if night.nightId in s.rows then s.(rows := s.rows[night.nightId := night]) else s
  }

  /** `SELECT * ... WHERE nightId = :key`: the row with that key, if any. */
  function Get(s: Store, key: int): (r: Option<Night>)
    requires Valid(s)
    ensures r.Some? ==> r.value.nightId == key && key in s.rows && r.value == s.rows[key]
    ensures r.None? ==> forall k :: k in s.rows ==> s.rows[k].nightId != key
  {
    if key in s.rows then Some(s.rows[key]) else None
  }

  /** `DELETE FROM ...`: removes every row. The auto-increment counter is
      kept, so keys are never reused. */
  function Clear(s: Store): (r: Store)
    requires Valid(s)
    ensures Valid(r)
    ensures |r.rows| == 0
    ensures r.nextId == s.nextId
  {
    s.(rows := map[])
  }

  /** `ORDER BY nightId DESC LIMIT 1`: the row with the greatest key, or none
      on an empty table. */
  function GetTonight(s: Store): (r: Option<Night>)
    requires Valid(s)
    ensures r.None? <==> |s.rows| == 0
    ensures r.Some? ==> r.value.nightId in s.rows && s.rows[r.value.nightId] == r.value
    ensures r.Some? ==> forall k :: k in s.rows ==> s.rows[k].nightId <= r.value.nightId
  {
    match NewestBelow(s.rows, s.nextId)
    case None =>
      assert s.rows.Keys == {};
      None
    case Some(k) => Some(s.rows[k])
  }

  /** `ORDER BY nightId DESC`: every row exactly once, newest first. */
  function GetAllNights(s: Store): (r: seq<Night>)
    requires Valid(s)
    ensures |r| == |s.rows|
    ensures ListsRows(s, r)
    ensures NewestFirst(r)
  {
    var ks := KeysBelow(s.rows, s.nextId);
    var r := seq(|ks|, i requires 0 <= i < |ks| => s.rows[ks[i]]);
    KeysBelowCount(s);
    RowsListed(s, ks, r);
    r
  }

  /** Under `Valid`, scanning below `nextId` finds every key exactly once. */
  lemma KeysBelowCount(s: Store)
    requires Valid(s)
    ensures |KeysBelow(s.rows, s.nextId)| == |s.rows|
  {
    var ks := KeysBelow(s.rows, s.nextId);
    DescendingCard(ks);
    assert (set x | x in ks) == s.rows.Keys;
  }

  /** Looking up each scanned key in turn yields every stored row. */
  lemma RowsListed(s: Store, ks: seq<int>, r: seq<Night>)
    requires Valid(s)
    requires forall k :: k in s.rows ==> k in ks
    requires |r| == |ks| && forall i :: 0 <= i < |ks| ==> ks[i] in s.rows && r[i] == s.rows[ks[i]]
    ensures forall k :: k in s.rows ==> s.rows[k] in r
  {
  }

  /** The newest-first listing of a store is unique: any sequence that lists
      exactly the rows with strictly decreasing keys is `GetAllNights`. */
  lemma {:induction false} AllNightsUnique(s: Store, xs: seq<Night>)
    requires Valid(s)
    requires ListsRows(s, xs) && NewestFirst(xs)
    ensures xs == GetAllNights(s)
  {
    DescendingListsEqual(xs, GetAllNights(s));
  }

  /** Two newest-first sequences with the same elements are equal. */
  lemma {:induction false} DescendingListsEqual(a: seq<Night>, b: seq<Night>)
    requires NewestFirst(a) && NewestFirst(b)
    requires forall x :: x in a <==> x in b
    ensures a == b
  {
    assert a != [] ==> a[0] in b;
    assert b != [] ==> b[0] in a;
    if a != [] && b != [] {
      assert a[0] in b;
      assert b[0] in a;
      assert a[0] == b[0] by {
        var i :| 0 <= i < |b| && b[i] == a[0];
        var j :| 0 <= j < |a| && a[j] == b[0];
        assert i == 0 && j == 0;
      }
      forall x
        ensures x in a[1..] <==> x in b[1..]
      {
        if x in a[1..] {
          var i :| 1 <= i < |a| && a[i] == x;
          assert x != b[0] && x in a;
          assert x in b;
          var j :| 0 <= j < |b| && b[j] == x;
          assert b[1..][j - 1] == x;
        }
        if x in b[1..] {
          var i :| 1 <= i < |b| && b[i] == x;
          assert x != a[0] && x in b;
          assert x in a;
          var j :| 0 <= j < |a| && a[j] == x;
          assert a[1..][j - 1] == x;
        }
      }
      DescendingListsEqual(a[1..], b[1..]);
      assert a == [a[0]] + a[1..];
      assert b == [b[0]] + b[1..];
    }
  }

  /** After an insert, the newest row is the inserted night under its fresh
      key. */
  lemma TonightAfterInsert(s: Store, night: Night)
    requires Valid(s)
    ensures GetTonight(Insert(s, night)) == Some(night.(nightId := FreshId(s)))
  {
  }

  /** After an insert, the history is the inserted night followed by the
      previous history. */
  lemma {:induction false} AllNightsAfterInsert(s: Store, night: Night)
    requires Valid(s)
    ensures GetAllNights(Insert(s, night)) == [night.(nightId := FreshId(s))] + GetAllNights(s)
  {
    var xs := [night.(nightId := FreshId(s))] + GetAllNights(s);
    PrependedIsNewestFirst(s, night, GetAllNights(s));
    PrependedListsRows(s, night, GetAllNights(s));
    AllNightsUnique(Insert(s, night), xs);
  }

  /** Putting a freshly keyed night in front of a newest-first listing keeps
      it newest first. */
  lemma PrependedIsNewestFirst(s: Store, night: Night, before: seq<Night>)
    requires Valid(s) && ListsRows(s, before) && NewestFirst(before)
    ensures NewestFirst([night.(nightId := FreshId(s))] + before)
  {
  }

  /** Putting the inserted night in front of the old listing lists exactly
      the rows after the insert. */
  lemma PrependedListsRows(s: Store, night: Night, before: seq<Night>)
    requires Valid(s) && ListsRows(s, before)
    ensures ListsRows(Insert(s, night), [night.(nightId := FreshId(s))] + before)
  {
  }

  /** An inserted night can be fetched back by its fresh key, and every other
      key answers as before. */
  lemma GetAfterInsert(s: Store, night: Night, key: int)
    requires Valid(s)
    ensures Get(Insert(s, night), FreshId(s)) == Some(night.(nightId := FreshId(s)))
    ensures key != FreshId(s) ==> Get(Insert(s, night), key) == Get(s, key)
  {
  }

  /** An update is visible to `get` under the night's key only if a row with
      that key already existed; every other key answers as before. */
  lemma GetAfterUpdate(s: Store, night: Night, key: int)
    requires Valid(s)
    ensures key == night.nightId ==>
      Get(Update(s, night), key) == (if key in s.rows then Some(night) else None)
    ensures key != night.nightId ==> Get(Update(s, night), key) == Get(s, key)
  {
  }

  /** The newest row heads the history, and the history is empty exactly
      when there is no newest row. */
  lemma {:induction false} TonightHeadsAllNights(s: Store)
    requires Valid(s)
    ensures GetAllNights(s) == [] <==> GetTonight(s) == None
    ensures GetAllNights(s) != [] ==> GetTonight(s) == Some(GetAllNights(s)[0])
  {
  }

  /** After `clear` every query comes back empty. */
  lemma ClearEmptiesQueries(s: Store, key: int)
    requires Valid(s)
    ensures GetAllNights(Clear(s)) == []
    ensures GetTonight(Clear(s)) == None
    ensures Get(Clear(s), key) == None
  {
  }
}
