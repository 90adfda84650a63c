/**
 * The persistence layer (services/db.ts): an IndexedDB database with a
 * `sessions` table keyed by `id` and an `images` table keyed by `id` with a
 * `by-session` index on `sessionId`. Each table is a map from its key to its
 * rows; the key path makes every row's key its own `id`.
 */
module Db {
  import opened Wrappers
  import opened Types
  import opened KeyOrder

  /** The rows stored under `keys`, in that order. */
  function Lookup<V>(m: map<string, V>, keys: seq<string>): (r: seq<V>)
    requires forall i :: 0 <= i < |keys| ==> keys[i] in m
    ensures |r| == |keys|
    ensures forall i :: 0 <= i < |keys| ==> r[i] == m[keys[i]]
  {
    if keys == [] then [] else [m[keys[0]]] + Lookup(m, keys[1..])
  }

  /** Every listed key's row is among the rows looked up. */
  lemma LookupCovers<V>(m: map<string, V>, keys: seq<string>)
    requires forall i :: 0 <= i < |keys| ==> keys[i] in m
    ensures forall k :: k in keys ==> m[k] in Lookup(m, keys)
  {
    forall k | k in keys
      ensures m[k] in Lookup(m, keys)
    {
      var i :| 0 <= i < |keys| && keys[i] == k;
      assert Lookup(m, keys)[i] == m[k];
    }
  }

  /** The keys the `by-session` index lists under `sessionId`. */
  function SessionKeys(m: map<string, ImageRecord>, sessionId: string): set<string> {
    set k | k in m && m[k].sessionId == sessionId
  }

  /** The rows the `by-session` index yields for `sessionId`, in ascending key order. */
  function SessionRows(m: map<string, ImageRecord>, sessionId: string): (r: seq<ImageRecord>)
    requires forall k :: k in m ==> m[k].id == k
    ensures forall i :: 0 <= i < |r| ==> r[i].sessionId == sessionId && r[i].id in m && m[r[i].id] == r[i]
    ensures forall k :: k in m && m[k].sessionId == sessionId ==> m[k] in r
    ensures forall i, j :: 0 <= i < j < |r| ==> Less(r[i].id, r[j].id)
  {
    var keys := SortedKeys(SessionKeys(m, sessionId));
    assert forall i :: 0 <= i < |keys| ==> keys[i] in keys;
    LookupCovers(m, keys);
    var r := Lookup(m, keys);
    assert forall i :: 0 <= i < |r| ==> r[i].id == keys[i];
    r
  }

  /** `after` holds exactly the images of `before` that belong to sessions other than `id`, unchanged. */
  predicate ImagesWithout(before: map<string, ImageRecord>, after: map<string, ImageRecord>, id: string) {
    && (forall k :: k in after ==> k in before && after[k] == before[k])
    && (forall k :: k in after ==> after[k].sessionId != id)
    && (forall k :: k in before && before[k].sessionId != id ==> k in after)
  }

  /** The index yields nothing for a session none of whose images are left. */
  lemma NoRowsLeft(m: map<string, ImageRecord>, sessionId: string)
    requires forall k :: k in m ==> m[k].id == k
    requires forall k :: k in m ==> m[k].sessionId != sessionId
    ensures SessionRows(m, sessionId) == []
  {
    assert SessionKeys(m, sessionId) == {};
  }

  /** `x` comes before `y` in the session list: more recently updated, or as recent with a lower key. */
  predicate Before(x: SessionRecord, y: SessionRecord) {
    x.updatedAt > y.updatedAt || (x.updatedAt == y.updatedAt && Less(x.id, y.id))
  }

  /** Most recently updated first; sessions updated at the same moment keep their key order. */
  predicate ByRecency(r: seq<SessionRecord>) {
    forall i, j :: 0 <= i < j < |r| ==> Before(r[i], r[j])
  }

  predicate IdsAscending(r: seq<SessionRecord>) {
    forall i, j :: 0 <= i < j < |r| ==> Less(r[i].id, r[j].id)
  }

  /** One step of a stable sort by `updatedAt`, descending: `x` goes before the first row no more recent. */
  function InsertByRecency(x: SessionRecord, r: seq<SessionRecord>): (res: seq<SessionRecord>)
    ensures multiset(res) == multiset(r) + multiset{x}
  {
    if r == [] then [x]
    else if x.updatedAt >= r[0].updatedAt then [x] + r
    else
      assert r == [r[0]] + r[1..];
      [r[0]] + InsertByRecency(x, r[1..])
  }

  /** A row that comes before every row of an ordered list can go in front of it. */
  lemma ConsKeepsOrder(x: SessionRecord, r: seq<SessionRecord>)
    requires ByRecency(r)
    requires forall j :: 0 <= j < |r| ==> Before(x, r[j])
    ensures ByRecency([x] + r)
  {
    var res := [x] + r;
    forall i, j | 0 <= i < j < |res|
      ensures Before(res[i], res[j])
    {
      assert res[j] == r[j - 1];
      if i > 0 {
        assert res[i] == r[i - 1];
      }
    }
  }

  /** Inserting a row whose key is below every other keeps the list in recency order. */
  lemma {:induction false} InsertKeepsOrder(x: SessionRecord, r: seq<SessionRecord>)
    requires ByRecency(r)
    requires forall i :: 0 <= i < |r| ==> Less(x.id, r[i].id)
    ensures ByRecency(InsertByRecency(x, r))
    decreases |r|
  {
    if r == [] {
      assert InsertByRecency(x, r) == [x];
    } else if x.updatedAt >= r[0].updatedAt {
      forall j | 0 <= j < |r|
        ensures Before(x, r[j])
      {
        if j > 0 {
          assert Before(r[0], r[j]);
        }
      }
      ConsKeepsOrder(x, r);
    } else {
      var tail := InsertByRecency(x, r[1..]);
      InsertKeepsOrder(x, r[1..]);
      forall j | 0 <= j < |tail|
        ensures Before(r[0], tail[j])
      {
        assert tail[j] in multiset(tail);
        if tail[j] != x {
          assert tail[j] in multiset(r[1..]);
          var k :| 0 <= k < |r[1..]| && r[1..][k] == tail[j];
          assert r[k + 1] == tail[j];
        }
      }
      ConsKeepsOrder(r[0], tail);
    }
  }

  /**
   * `all.sort((a, b) => b.updatedAt - a.updatedAt)` on rows in ascending key
   * order. The sort is stable, so rows updated at the same moment stay in
   * key order.
   */
  function SortByRecency(s: seq<SessionRecord>): (r: seq<SessionRecord>)
    ensures multiset(r) == multiset(s)
  {
    if s == [] then []
    else
      assert s == [s[0]] + s[1..];
      InsertByRecency(s[0], SortByRecency(s[1..]))
  }

  /** Rows in ascending key order come out of the sort in recency order. */
  lemma {:induction false} SortOrders(s: seq<SessionRecord>)
    requires IdsAscending(s)
    ensures ByRecency(SortByRecency(s))
    decreases |s|
  {
    if s != [] {
      var tail := SortByRecency(s[1..]);
      SortOrders(s[1..]);
      forall i | 0 <= i < |tail|
        ensures Less(s[0].id, tail[i].id)
      {
        assert tail[i] in multiset(s[1..]);
        var j :| 0 <= j < |s[1..]| && s[1..][j] == tail[i];
        assert s[j + 1] == tail[i];
      }
      InsertKeepsOrder(s[0], tail);
    }
  }

  /** Two recency-ordered arrangements of the same rows start with the same row. */
  lemma SameHead(a: seq<SessionRecord>, b: seq<SessionRecord>)
    requires ByRecency(a) && ByRecency(b)
    requires multiset(a) == multiset(b) && a != []
    ensures b != [] && a[0] == b[0]
  {
    assert a[0] in multiset(b);
    assert b != [];
    assert b[0] in multiset(a);
    if a[0] != b[0] {
      var k :| 0 <= k < |b| && b[k] == a[0];
      var m :| 0 <= m < |a| && a[m] == b[0];
      assert Before(b[0], a[0]) && Before(a[0], b[0]);
      LessAsymmetric(a[0].id, b[0].id);
      assert false;
    }
  }

  /** The listing order decides the list: two recency-ordered arrangements of the same rows are equal. */
  lemma {:induction false} ByRecencyUnique(a: seq<SessionRecord>, b: seq<SessionRecord>)
    requires ByRecency(a) && ByRecency(b)
    requires multiset(a) == multiset(b)
    ensures a == b
    decreases |a|
  {
    if a == [] {
      assert |b| == |multiset(b)| == 0;
    } else {
      SameHead(a, b);
      assert a == [a[0]] + a[1..] && b == [b[0]] + b[1..];
      assert multiset(a[1..]) == multiset(a) - multiset{a[0]};
      assert multiset(b[1..]) == multiset(b) - multiset{b[0]};
      ByRecencyUnique(a[1..], b[1..]);
    }
  }

  /** The two tables. */
  class RecordStore {
    var sessions: map<string, SessionRecord>
    var images: map<string, ImageRecord>

    /** Every row is stored under its own `id`. */
    ghost predicate Valid()
      reads this
    {
      && (forall k :: k in sessions ==> sessions[k].id == k)
      && (forall k :: k in images ==> images[k].id == k)
    }

    /** A freshly created database: both tables empty. */
    constructor()
      ensures Valid()
      ensures sessions == map[] && images == map[]
    {
      sessions := map[];
      images := map[];
    }

    /**
     * `listSessions`: every stored session, most recently updated first
     * (`getAll` yields key order and the sort is stable).
     */
    function ListSessions(): (r: seq<SessionRecord>)
      reads this
      requires Valid()
      ensures |r| == |sessions|
      ensures forall s :: s in r <==> s.id in sessions && sessions[s.id] == s
      ensures ByRecency(r)
    {
      var keys := SortedKeys(sessions.Keys);
      var rows := Lookup(sessions, keys);
      assert IdsAscending(rows);
      var r := SortByRecency(rows);
      assert |r| == |multiset(r)| == |multiset(rows)| == |rows|;
      SortOrders(rows);
      LookupCovers(sessions, keys);
      assert forall s :: s in r <==> s in multiset(rows);
      r
    }

    /** `getSession`: the row stored under `id`, if any. */
    function GetSession(id: string): (r: Option<SessionRecord>)
      reads this
      requires Valid()
      ensures r.None? <==> id !in sessions
      ensures r.Some? ==> r.value.id == id && r.value == sessions[id]
    {
      if id in sessions then Some(sessions[id]) else None
    }

    /** `saveSession`: a `put`, adding the row or replacing the one with the same `id`. */
    method SaveSession(session: SessionRecord)
      requires Valid()
      modifies this
      ensures Valid()
      ensures sessions == old(sessions)[session.id := session]
      ensures images == old(images)
    {
      sessions := sessions[session.id := session];
    }

    /** `saveImage`: a `put` into the images table. */
    method SaveImage(record: ImageRecord)
      requires Valid()
      modifies this
      ensures Valid()
      ensures images == old(images)[record.id := record]
      ensures sessions == old(sessions)
    {
      images := images[record.id := record];
    }

    /**
     * `loadImagesBySession`: exactly the images of the session, in the order
     * the index yields them (equal index keys, so ascending primary key).
     */
    function LoadImagesBySession(sessionId: string): (r: seq<ImageRecord>)
      reads this
      requires Valid()
      ensures forall i :: 0 <= i < |r| ==>
        r[i].sessionId == sessionId && r[i].id in images && images[r[i].id] == r[i]
      ensures forall k :: k in images && images[k].sessionId == sessionId ==> images[k] in r
      ensures forall i, j :: 0 <= i < j < |r| ==> Less(r[i].id, r[j].id)
    {
      SessionRows(images, sessionId)
    }

    /**
     * `deleteSession`: drop the session row, then walk the index cursor over
     * the session's images deleting each. Sessions and images of other
     * sessions are untouched.
     */
    method DeleteSession(id: string)
      requires Valid()
      modifies this
      ensures Valid()
      ensures sessions == old(sessions) - {id}
      ensures ImagesWithout(old(images), images, id)
      ensures GetSession(id).None? && LoadImagesBySession(id) == []
    {
      sessions := sessions - {id};
      var cursor := SortedKeys(SessionKeys(images, id));
      ghost var before := images;
      var i := 0;
      while i < |cursor|
        invariant 0 <= i <= |cursor|
        invariant sessions == old(sessions) - {id}
        invariant forall k :: k in images <==> k in before && k !in cursor[..i]
        invariant forall k :: k in images ==> images[k] == before[k]
      {
        images := images - {cursor[i]};
        i := i + 1;
      }
      assert cursor[..i] == cursor;
      NoRowsLeft(images, id);
    }
  }
}
