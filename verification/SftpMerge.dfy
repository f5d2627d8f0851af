/**
 The SFTP activity merge of internal/cron/sftp_cron.go: an online group-by that
 is capped at `max` groups, followed by a chunked deletion of the merged rows.
 It is compared with an order-free description of which rows belong to which
 group, and of what is left in the database.
 */
module SftpMerge {

  datatype Option<T> = None | Some(value: T)

  type Time = int   // seconds

  /** `files` is None when the metadata has no usable file list. */
  datatype Activity = Activity(
    id: nat, user: string, server: string, ip: string, event: string, timestamp: Time, files: Option<seq<string>>)

  datatype Key = Key(user: string, server: string, ip: string, event: string, minute: int)

  /** A merged activity: the first record's identity, the earliest time, all files. */
  datatype Group = Group(first: Activity, timestamp: Time, files: seq<string>)

  const CHUNK := 32000

  function KeyOf(a: Activity): Key {
    Key(a.user, a.server, a.ip, a.event, a.timestamp / 60)
  }

  function FilesOf(a: Activity): seq<string> {
    if a.files.Some? then a.files.value else []
  }

  // ---------------------------------------------------------------------
  // Specification
  // ---------------------------------------------------------------------

  /** The records of one group, in fetch order. */
  function Members(records: seq<Activity>, k: Key): seq<Activity> {
    if records == [] then []
    else
      var rest, last := records[..|records| - 1], records[|records| - 1];
      Members(rest, k) + (if KeyOf(last) == k then [last] else [])
  }

  function Concat(records: seq<Activity>): seq<string> {
    if records == [] then []
    else
      Concat(records[..|records| - 1]) +
      match records[|records| - 1].files
      case Some(files) => files
      case None => []
  }

  function Earliest(records: seq<Activity>): Time
    requires records != []
  {
    var last := records[|records| - 1].timestamp;
    if |records| == 1 then last
    else
      var t := Earliest(records[..|records| - 1]);
      if last < t then last else t
  }

  /** The distinct keys in order of first appearance. */
  function KeysInOrder(records: seq<Activity>): seq<Key> {
    if records == [] then []
    else
      var rest, k := KeysInOrder(records[..|records| - 1]), KeyOf(records[|records| - 1]);
      if k in rest then rest else rest + [k]
  }

  /** The groups that fit under the cap: the keys that appear first. */
  function Admitted(records: seq<Activity>, max: int): (admitted: seq<Key>)
    ensures |admitted| <= if max < 0 then 0 else max
  {
    var ks := KeysInOrder(records);
    if max <= 0 then [] else if |ks| <= max then ks else ks[..max]
  }

  function Merged(records: seq<Activity>, keys: seq<Key>): seq<nat> {
    if records == [] then []
    else
      var rest, last := records[..|records| - 1], records[|records| - 1];
      Merged(rest, keys) + (if KeyOf(last) in keys then [last.id] else [])
  }

  /** The state of the event map after any prefix of the fetched records. */
  ghost predicate Represents(m: map<Key, Group>, ids: seq<nat>, records: seq<Activity>, max: int) {
    && (forall k :: k in m <==> k in Admitted(records, max))
    && |m| == |Admitted(records, max)|
    && ids == Merged(records, Admitted(records, max))
    && (forall k :: k in m ==> IsGroup(m[k], Members(records, k)))
  }

  ghost predicate IsGroup(g: Group, members: seq<Activity>) {
    members != [] && g == Group(members[0], Earliest(members), Concat(members))
  }

  // ---------------------------------------------------------------------
  // Facts about the specification
  // ---------------------------------------------------------------------

  lemma {:induction false} MembersOfNewKey(records: seq<Activity>, k: Key)
    ensures k in KeysInOrder(records) <==> Members(records, k) != []
  {
    if records != [] {
      MembersOfNewKey(records[..|records| - 1], k);
    }
  }

  /** A key that arrives when the map is full never gets in; one that got in stays in. */
  lemma AdmittedStep(records: seq<Activity>, a: Activity, max: int)
    ensures var ks, ks' := Admitted(records, max), Admitted(records + [a], max);
            ks' == if KeyOf(a) in ks || |ks| >= max then ks else ks + [KeyOf(a)]
  {
    assert (records + [a])[..|records|] == records;
    var ks := KeysInOrder(records);
    if max > 0 && |ks| > max && KeyOf(a) !in ks {
      assert (ks + [KeyOf(a)])[..max] == ks[..max];
    }
    if max > 0 && |ks| == max && KeyOf(a) !in ks {
      assert (ks + [KeyOf(a)])[..max] == ks;
    }
  }

  lemma {:induction false} MergedFrame(records: seq<Activity>, keys: seq<Key>, k: Key)
    requires k !in KeysInOrder(records)
    ensures Merged(records, keys + [k]) == Merged(records, keys)
  {
    if records != [] {
      MergedFrame(records[..|records| - 1], keys, k);
    }
  }

  lemma {:induction false} MergedExactly(records: seq<Activity>, keys: seq<Key>, id: nat)
    ensures id in Merged(records, keys) <==>
            exists i :: 0 <= i < |records| && records[i].id == id && KeyOf(records[i]) in keys
  {
    if records != [] {
      var rest, last := records[..|records| - 1], records[|records| - 1];
      MergedExactly(rest, keys, id);
      hide KeyOf;
      var merged := Merged(rest, keys);
      assert Merged(records, keys) == merged + if KeyOf(last) in keys then [last.id] else [];
      if i :| 0 <= i < |rest| && rest[i].id == id && KeyOf(rest[i]) in keys {
        assert records[i] == rest[i];
      }
      if i :| 0 <= i < |records| && records[i].id == id && KeyOf(records[i]) in keys {
        assert i < |rest| ==> rest[i] == records[i];
        assert i == |rest| ==> records[i] == last;
      }
    }
  }

  lemma {:induction false} MembersStep(records: seq<Activity>, a: Activity, k: Key)
    ensures Members(records + [a], k) == if KeyOf(a) == k then Members(records, k) + [a] else Members(records, k)
  {
    assert (records + [a])[..|records|] == records;
  }

  lemma {:induction false} MergedStep(records: seq<Activity>, a: Activity, keys: seq<Key>)
    ensures Merged(records + [a], keys) ==
            if KeyOf(a) in keys then Merged(records, keys) + [a.id] else Merged(records, keys)
  {
    assert (records + [a])[..|records|] == records;
  }

  lemma GroupStep(g0: Group, g: Group, members: seq<Activity>, a: Activity)
    requires IsGroup(g0, members)
    requires g.first == g0.first && g.files == g0.files + FilesOf(a)
    requires g.timestamp == if a.timestamp < g0.timestamp then a.timestamp else g0.timestamp
    ensures IsGroup(g, members + [a])
  {
    assert (members + [a])[..|members|] == members;
  }

  lemma FirstOfGroup(a: Activity)
    ensures IsGroup(Group(a, a.timestamp, FilesOf(a)), [a])
  {
    assert [a][..0] == [];
  }

  /** A record whose group is not in a full map is skipped. */
  lemma SkipStep(m: map<Key, Group>, ids: seq<nat>, records: seq<Activity>, a: Activity, max: int)
    requires Represents(m, ids, records, max)
    requires KeyOf(a) !in m && |m| >= max
    ensures Represents(m, ids, records + [a], max)
  {
    hide Members, Merged, Admitted, IsGroup;
    AdmittedStep(records, a, max);
    MergedStep(records, a, Admitted(records, max));
    forall k | k in m ensures IsGroup(m[k], Members(records + [a], k)) {
      MembersStep(records, a, k);
      assert k != KeyOf(a);
    }
  }

  /** A record of a known group is merged into it. */
  lemma MergeStep(m: map<Key, Group>, ids: seq<nat>, records: seq<Activity>, a: Activity, max: int, g: Group)
    requires Represents(m, ids, records, max)
    requires KeyOf(a) in m
    requires g.first == m[KeyOf(a)].first && g.files == m[KeyOf(a)].files + FilesOf(a)
    requires g.timestamp == if a.timestamp < m[KeyOf(a)].timestamp then a.timestamp else m[KeyOf(a)].timestamp
    ensures Represents(m[KeyOf(a) := g], ids + [a.id], records + [a], max)
  {
    hide Members, Merged, Admitted, IsGroup;
    AdmittedStep(records, a, max);
    MergedStep(records, a, Admitted(records, max));
    var m' := m[KeyOf(a) := g];
    assert m'.Keys == m.Keys;
    forall k | k in m' ensures IsGroup(m'[k], Members(records + [a], k)) {
      MembersStep(records, a, k);
      if k == KeyOf(a) {
        GroupStep(m[k], g, Members(records, k), a);
      }
    }
  }

  /** The first record of a group opens it while there is room. */
  lemma OpenStep(m: map<Key, Group>, ids: seq<nat>, records: seq<Activity>, a: Activity, max: int, g: Group)
    requires Represents(m, ids, records, max)
    requires KeyOf(a) !in m && |m| < max
    requires g == Group(a, a.timestamp, FilesOf(a))
    ensures Represents(m[KeyOf(a) := g], ids + [a.id], records + [a], max)
  {
    hide Members, Merged, Admitted, IsGroup;
    AdmittedStep(records, a, max);
    RoomMeansAll(records, max);
    var ks, key := Admitted(records, max), KeyOf(a);
    MembersOfNewKey(records, key);
    MergedFrame(records, ks, key);
    MergedStep(records, a, ks + [key]);
    var m' := m[key := g];
    assert m'.Keys == m.Keys + {key};
    assert |m'| == |m| + 1;
    forall k | k in m' ensures IsGroup(m'[k], Members(records + [a], k)) {
      MembersStep(records, a, k);
      if k == key {
        assert Members(records, k) + [a] == [a];
        FirstOfGroup(a);
      }
    }
  }

  lemma {:induction false} RoomMeansAll(records: seq<Activity>, max: int)
    requires |Admitted(records, max)| < max
    ensures Admitted(records, max) == KeysInOrder(records)
  {
  }

  // ---------------------------------------------------------------------
  // The code
  // ---------------------------------------------------------------------

  class EventMap {
    const max: int
    var ids: seq<nat>
    var m: map<Key, Group>

    constructor (max: int)
      ensures this.max == max && ids == [] && m == map[]
      ensures Represents(m, ids, [], max)
    {
      this.max, ids, m := max, [], map[];
    }

    /** Finds or opens the group of `a`; false when the cap is reached. */
    method ForActivity(a: Activity) returns (found: bool)
      modifies this`m
      ensures found <==> KeyOf(a) in old(m) || |old(m)| < max
      ensures m == if found && KeyOf(a) !in old(m) then old(m)[KeyOf(a) := Group(a, a.timestamp, [])] else old(m)
    {
      var key := KeyOf(a);
      if key in m {
        return true;
      }
      if |m| >= max {
        return false;
      }
      m := m[key := Group(a, a.timestamp, [])];
      return true;
    }

    /** After a push the map represents one more record. */
    method Push(a: Activity, ghost records: seq<Activity>)
      requires Represents(m, ids, records, max)
      modifies this
      ensures Represents(m, ids, records + [a], max)
      ensures ids == old(ids) || ids == old(ids) + [a.id]
      ensures ids == old(ids) ==> m == old(m) && KeyOf(a) !in m
    {
      hide Represents;
      ghost var m0 := m;
      var found := ForActivity(a);
      if !found {
        SkipStep(m0, ids, records, a, max);
        return;
      }
      var g := m[KeyOf(a)];
      if a.timestamp < g.timestamp {
        g := g.(timestamp := a.timestamp);
      }
      if a.files.Some? {
        g := g.(files := g.files + a.files.value);
      }
      if KeyOf(a) in m0 {
        MergeStep(m0, ids, records, a, max, g);
      } else {
        assert m[KeyOf(a) := g] == m0[KeyOf(a) := g];
        OpenStep(m0, ids, records, a, max, g);
      }
      ids, m := ids + [a.id], m[KeyOf(a) := g];
    }
  }

  // ---------------------------------------------------------------------
  // A whole run
  // ---------------------------------------------------------------------

  /** The rows that are not deleted, in order. */
  function Without(rows: seq<Activity>, ids: seq<nat>): seq<Activity> {
    if rows == [] then []
    else
      var rest, last := Without(rows[..|rows| - 1], ids), rows[|rows| - 1];
      if last.id in ids then rest else rest + [last]
  }

  /** One page of the query. A negative limit is no limit. */
  function Page(rows: seq<Activity>, offset: nat, max: int): (page: seq<Activity>)
    requires offset <= |rows|
    ensures page <= rows[offset..] && (max >= 0 ==> |page| <= max)
    ensures max < 0 || |page| < max ==> page == rows[offset..]
  {
    if max < 0 || offset + max > |rows| then rows[offset..] else rows[offset..offset + max]
  }

  function Flatten(chunks: seq<seq<nat>>): seq<nat> {
    if chunks == [] then [] else Flatten(chunks[..|chunks| - 1]) + chunks[|chunks| - 1]
  }

  lemma {:induction false} WithoutTwice(rows: seq<Activity>, a: seq<nat>, b: seq<nat>)
    ensures Without(Without(rows, a), b) == Without(rows, a + b)
  {
    if rows != [] {
      var rest, last := rows[..|rows| - 1], rows[|rows| - 1];
      WithoutTwice(rest, a, b);
      if last.id !in a {
        assert (Without(rest, a) + [last])[..|Without(rest, a)|] == Without(rest, a);
      }
    }
  }

  lemma {:induction false} WithoutNone(rows: seq<Activity>)
    ensures Without(rows, []) == rows
  {
    if rows != [] {
      WithoutNone(rows[..|rows| - 1]);
    }
  }

  class Database {
    var rows: seq<Activity>

    constructor (rows: seq<Activity>)
      ensures this.rows == rows
    {
      this.rows := rows;
    }

    method Delete(ids: seq<nat>)
      modifies this
      ensures rows == Without(old(rows), ids)
    {
      var i := 0;
      var kept := [];
      while i < |rows|
        invariant 0 <= i <= |rows|
        invariant kept == Without(rows[..i], ids)
      {
        assert rows[..i + 1][..i] == rows[..i];
        if rows[i].id !in ids {
          kept := kept + [rows[i]];
        }
        i := i + 1;
      }
      assert rows[..i] == rows;
      rows := kept;
    }
  }

  datatype Outcome = Done | FetchFailed | NothingToSend | SendFailed | DeleteFailed

  /** The last page fetched held nothing that belongs to an admitted group. */
  ghost predicate Exhausted(rows: seq<Activity>, n: nat, max: int)
    requires n <= |rows|
  {
    n == |rows| || max == 0
    || (0 < max <= n && forall i :: n - max <= i < n ==> KeyOf(rows[i]) !in Admitted(rows[..n], max))
  }

  /** Pushes one page; when that adds no id, every row of the page was skipped. */
  method PushPage(events: EventMap, activity: seq<Activity>, ghost before: seq<Activity>)
    requires Represents(events.m, events.ids, before, events.max)
    modifies events
    ensures Represents(events.m, events.ids, before + activity, events.max)
    ensures |events.ids| >= |old(events.ids)|
    ensures |events.ids| == |old(events.ids)| ==> NoneIn(activity, events.m)
  {
    hide Represents, KeyOf;
    assert before + activity[..0] == before;
    for i := 0 to |activity|
      invariant Represents(events.m, events.ids, before + activity[..i], events.max)
      invariant |events.ids| >= |old(events.ids)|
      invariant |events.ids| == |old(events.ids)| ==>
                  forall j :: 0 <= j < i ==> KeyOf(activity[j]) !in events.m
    {
      assert before + activity[..i] + [activity[i]] == before + activity[..i + 1];
      events.Push(activity[i], before + activity[..i]);
    }
    assert activity[..|activity|] == activity;
  }

  /** The paging loop: fetches until a page is empty or adds nothing; `failAt` is the fetch that fails, if any. */
  method Collect(db: Database, max: int, failAt: Option<nat>) returns (ok: bool, events: EventMap, ghost n: nat)
    ensures fresh(events) && events.max == max
    ensures n <= |db.rows| && Represents(events.m, events.ids, db.rows[..n], max)
    ensures ok ==> Exhausted(db.rows, n, max)
    ensures failAt.None? ==> ok
  {
    hide Represents, Admitted, KeyOf, NoneIn;
    events := new EventMap(max);
    n := 0;
    if failAt == Some(0) {
      return false, events, n;
    }
    var activity := Page(db.rows, 0, max);
    var o, fetches := |activity|, 1;
    while |activity| != 0
      invariant fresh(events) && events.max == max
      invariant n <= o <= |db.rows| && activity == db.rows[n..o] == Page(db.rows, n, max)
      invariant Represents(events.m, events.ids, db.rows[..n], max)
      decreases |db.rows| - n
    {
      var slen := |events.ids|;
      PushPage(events, activity, db.rows[..n]);
      assert db.rows[..n] + activity == db.rows[..o];
      if |events.ids| == slen {
        ghost var start := n;
        n := o;
        LastPage(db.rows, start, n, max, events.m, events.ids);
        return true, events, n;
      }
      n := o;
      if failAt == Some(fetches) {
        return false, events, n;
      }
      activity, fetches := Page(db.rows, o, max), fetches + 1;
      o := o + |activity|;
    }
    ok := true;
  }

  lemma LastPage(rows: seq<Activity>, start: nat, n: nat, max: int, m: map<Key, Group>, ids: seq<nat>)
    requires start <= n <= |rows| && rows[start..n] == Page(rows, start, max)
    requires Represents(m, ids, rows[..n], max) && NoneIn(rows[start..n], m)
    ensures Exhausted(rows, n, max)
  {
    hide Represents, Admitted, KeyOf, NoneIn, Page;
    RepresentsAdmitted(m, ids, rows[..n], max);
    if n < |rows| && max != 0 {
      FullPage(rows, start, n, max);
      forall i | n - max <= i < n ensures KeyOf(rows[i]) !in Admitted(rows[..n], max) {
        NotIn(rows, start, n, m, i);
      }
    }
  }

  ghost predicate NoneIn(page: seq<Activity>, m: map<Key, Group>) {
    forall j :: 0 <= j < |page| ==> KeyOf(page[j]) !in m
  }

  lemma NotIn(rows: seq<Activity>, start: nat, n: nat, m: map<Key, Group>, i: nat)
    requires start <= i < n <= |rows| && NoneIn(rows[start..n], m)
    ensures KeyOf(rows[i]) !in m
  {
    assert rows[i] == rows[start..n][i - start];
  }

  lemma RepresentsAdmitted(m: map<Key, Group>, ids: seq<nat>, records: seq<Activity>, max: int)
    requires Represents(m, ids, records, max)
    ensures forall k :: k in m <==> k in Admitted(records, max)
  {
  }

  lemma FullPage(rows: seq<Activity>, start: nat, n: nat, max: int)
    requires start <= n < |rows| && rows[start..n] == Page(rows, start, max)
    ensures n - start == max
  {
    assert |rows[start..n]| == n - start;
  }

  /** The deletion in chunks; `failAt` is the chunk at which the database reports an error, if any. */
  method DeleteChunks(db: Database, ids: seq<nat>, failAt: Option<nat>) returns (ok: bool, chunks: seq<seq<nat>>)
    modifies db
    ensures forall j :: 0 <= j < |chunks| ==> 0 < |chunks[j]| <= 32000 && (j < |chunks| - 1 ==> |chunks[j]| == 32000)
    ensures Flatten(chunks) <= ids && db.rows == Without(old(db.rows), Flatten(chunks))
    ensures ok <==> Flatten(chunks) == ids
    ensures failAt.None? ==> ok
  {
    chunks := [];
    var i := 0;
    WithoutNone(db.rows);
    while i < |ids|
      invariant 0 <= i <= |ids|
      invariant forall j :: 0 <= j < |chunks| ==>
                  0 < |chunks[j]| <= CHUNK && (|chunks[j]| < CHUNK ==> j == |chunks| - 1 && i == |ids|)
      invariant Flatten(chunks) == ids[..i] && db.rows == Without(old(db.rows), ids[..i])
    {
      var end := if i + CHUNK < |ids| then i + CHUNK else |ids|;
      var batch := ids[i..end];
      if failAt == Some(|chunks|) {
        return false, chunks;
      }
      db.Delete(batch);
      WithoutTwice(old(db.rows), ids[..i], batch);
      assert ids[..i] + batch == ids[..end];
      assert (chunks + [batch])[..|chunks|] == chunks;
      chunks := chunks + [batch];
      i := i + |batch|;
    }
    ok := true;
  }

  /**
   One run of the job. What is sent are the groups of the admitted keys of the
   fetched rows; after a successful run exactly the rows of those groups are gone,
   deleted in chunks that list every merged id in order. Before a successful send
   nothing is deleted.
   */
  method Run(db: Database, max: int, fetchFailAt: Option<nat>, sendOk: bool, failAt: Option<nat>)
    returns (out: Outcome, sent: map<Key, Group>, chunks: seq<seq<nat>>, ghost n: nat)
    modifies db
    ensures n <= |old(db.rows)| && (!out.FetchFailed? ==> Exhausted(old(db.rows), n, max))
    ensures var ids := Merged(old(db.rows)[..n], Admitted(old(db.rows)[..n], max));
            && (!out.FetchFailed? ==> Represents(sent, ids, old(db.rows)[..n], max))
            && (!out.FetchFailed? ==> Partitioned(sent, old(db.rows)[..n]) && ids == GroupedIds(sent, old(db.rows)[..n]))
            && (out.Done? ==> Flatten(chunks) == ids && db.rows == Without(old(db.rows), ids))
            && (out.DeleteFailed? ==> Flatten(chunks) < ids && db.rows == Without(old(db.rows), Flatten(chunks)))
            && (out.FetchFailed? || out.NothingToSend? <==> sent == map[])
    ensures !out.Done? && !out.DeleteFailed? ==> db.rows == old(db.rows) && chunks == []
    ensures out.FetchFailed? ==> fetchFailAt.Some?
    ensures out.SendFailed? ==> !sendOk
    ensures out.DeleteFailed? ==> failAt.Some?
    ensures forall j :: 0 <= j < |chunks| ==> 0 < |chunks[j]| <= 32000 && (j < |chunks| - 1 ==> |chunks[j]| == 32000)
  {
    var ok, events;
    ok, events, n := Collect(db, max, fetchFailAt);
    if !ok {
      return FetchFailed, map[], [], n;
    }
    sent := events.m;
    GroupsAreExact(sent, events.ids, db.rows[..n], max);
    hide Partitioned, GroupedIds;
    if |events.m| == 0 {
      return NothingToSend, sent, [], n;
    }
    if !sendOk {
      return SendFailed, sent, [], n;
    }
    ok, chunks := DeleteChunks(db, events.ids, failAt);
    out := if ok then Done else DeleteFailed;
  }

  // ---------------------------------------------------------------------
  // What a run means, row by row
  // ---------------------------------------------------------------------

  ghost predicate PrimaryKeys(rows: seq<Activity>) {
    forall i, j :: 0 <= i < j < |rows| ==> rows[i].id != rows[j].id
  }

  lemma {:induction false} WithoutExactly(rows: seq<Activity>, ids: seq<nat>, a: Activity)
    ensures a in Without(rows, ids) <==> a in rows && a.id !in ids
  {
    if rows != [] {
      WithoutExactly(rows[..|rows| - 1], ids, a);
    }
  }

  /** Conservation: a row survives a successful run exactly when it was not fetched or its group was not admitted. */
  lemma {:induction false} RowSurvives(rows: seq<Activity>, n: nat, max: int, i: nat)
    requires PrimaryKeys(rows) && n <= |rows| && i < |rows|
    ensures var ks := Admitted(rows[..n], max);
            rows[i] in Without(rows, Merged(rows[..n], ks)) <==> !(i < n && KeyOf(rows[i]) in ks)
  {
    var ks := Admitted(rows[..n], max);
    WithoutExactly(rows, Merged(rows[..n], ks), rows[i]);
    MergedExactly(rows[..n], ks, rows[i].id);
    if i < n {
      assert rows[..n][i] == rows[i];
    }
    if j :| 0 <= j < n && rows[..n][j].id == rows[i].id && KeyOf(rows[..n][j]) in ks {
      assert rows[..n][j] == rows[j] && i == j;
    }
  }

  /** Every merged id is listed for deletion once. */
  lemma {:induction false} MergedOnce(rows: seq<Activity>, keys: seq<Key>)
    requires PrimaryKeys(rows)
    ensures var ids := Merged(rows, keys); forall i, j :: 0 <= i < j < |ids| ==> ids[i] != ids[j]
  {
    if rows != [] {
      var rest, last := rows[..|rows| - 1], rows[|rows| - 1];
      MergedOnce(rest, keys);
      MergedExactly(rest, keys, last.id);
    }
  }

  // ---------------------------------------------------------------------
  // The groups, without keys
  // ---------------------------------------------------------------------

  predicate InMinute(m: int, t: Time) {
    60 * m <= t < 60 * m + 60
  }

  /** The same user, server, address and event, within one minute of the clock. */
  ghost predicate Together(a: Activity, b: Activity) {
    && a.user == b.user && a.server == b.server && a.ip == b.ip && a.event == b.event
    && exists m :: InMinute(m, a.timestamp) && InMinute(m, b.timestamp)
  }

  lemma SameKeyIsTogether(a: Activity, b: Activity)
    ensures KeyOf(a) == KeyOf(b) <==> Together(a, b)
  {
    assert InMinute(a.timestamp / 60, a.timestamp);
    if m :| InMinute(m, a.timestamp) && InMinute(m, b.timestamp) {
      assert a.timestamp / 60 == m == b.timestamp / 60;
    }
  }

  /** The records that belong together with `a`, in fetch order. */
  ghost function Fellows(records: seq<Activity>, a: Activity): seq<Activity> {
    if records == [] then []
    else
      var rest, last := records[..|records| - 1], records[|records| - 1];
      Fellows(rest, a) + (if Together(last, a) then [last] else [])
  }

  lemma {:induction false} FellowsAreMembers(records: seq<Activity>, a: Activity)
    ensures Members(records, KeyOf(a)) == Fellows(records, a)
  {
    if records != [] {
      hide KeyOf, Together;
      FellowsAreMembers(records[..|records| - 1], a);
      SameKeyIsTogether(records[|records| - 1], a);
    }
  }

  /** Every group is made of records that belong together, all of them, and no two groups belong together. */
  ghost predicate Partitioned(groups: map<Key, Group>, records: seq<Activity>) {
    && (forall k :: k in groups ==> IsGroup(groups[k], Fellows(records, groups[k].first)))
    && (forall j, k :: j in groups && k in groups && j != k ==> !Together(groups[j].first, groups[k].first))
  }

  /** The record belongs to one of the groups. */
  ghost predicate Grouped(groups: map<Key, Group>, a: Activity) {
    exists k :: k in groups && Together(groups[k].first, a)
  }

  ghost function GroupedIds(groups: map<Key, Group>, records: seq<Activity>): seq<nat> {
    if records == [] then []
    else
      var rest, last := records[..|records| - 1], records[|records| - 1];
      GroupedIds(groups, rest) + (if Grouped(groups, last) then [last.id] else [])
  }

  lemma {:induction false} MemberKey(records: seq<Activity>, k: Key)
    requires Members(records, k) != []
    ensures KeyOf(Members(records, k)[0]) == k && Members(records, k)[0] in records
  {
    hide KeyOf;
    var rest := records[..|records| - 1];
    if Members(rest, k) != [] {
      MemberKey(rest, k);
    }
  }

  lemma {:induction false} GroupOfKey(m: map<Key, Group>, ids: seq<nat>, records: seq<Activity>, max: int, k: Key)
    requires Represents(m, ids, records, max) && k in m
    ensures KeyOf(m[k].first) == k && m[k].first in records && IsGroup(m[k], Fellows(records, m[k].first))
  {
    assert IsGroup(m[k], Members(records, k));
    hide KeyOf, Represents;
    MemberKey(records, k);
    FellowsAreMembers(records, m[k].first);
  }

  lemma GroupedIsAdmitted(m: map<Key, Group>, ids: seq<nat>, records: seq<Activity>, max: int, a: Activity)
    requires Represents(m, ids, records, max)
    ensures Grouped(m, a) <==> KeyOf(a) in m
  {
    hide KeyOf, Represents, Together;
    if k :| k in m && Together(m[k].first, a) {
      GroupOfKey(m, ids, records, max, k);
      SameKeyIsTogether(m[k].first, a);
    }
    if KeyOf(a) in m {
      GroupOfKey(m, ids, records, max, KeyOf(a));
      SameKeyIsTogether(m[KeyOf(a)].first, a);
    }
  }

  lemma {:induction false} GroupedIdsAreMerged(
    m: map<Key, Group>, ids: seq<nat>, records: seq<Activity>, max: int, part: seq<Activity>, keys: seq<Key>)
    requires Represents(m, ids, records, max) && forall k :: k in m <==> k in keys
    ensures Merged(part, keys) == GroupedIds(m, part)
    decreases |part|
  {
    if part != [] {
      hide KeyOf, Represents, Grouped;
      GroupedIdsAreMerged(m, ids, records, max, part[..|part| - 1], keys);
      GroupedIsAdmitted(m, ids, records, max, part[|part| - 1]);
    }
  }

  /**
   The final map, in terms of the records alone: two records share a group exactly when
   they belong together, the ids are those of the grouped records in fetch order, and
   a record is left out only when the cap is reached.
   */
  lemma {:induction false} GroupsAreExact(m: map<Key, Group>, ids: seq<nat>, records: seq<Activity>, max: int)
    requires Represents(m, ids, records, max)
    ensures Partitioned(m, records) && ids == GroupedIds(m, records)
    ensures |m| <= if max < 0 then 0 else max
    ensures forall a :: a in records && !Grouped(m, a) ==> |m| >= max
  {
    RepresentsAdmitted(m, ids, records, max);
    assert ids == Merged(records, Admitted(records, max)) && |m| == |Admitted(records, max)|;
    hide KeyOf, Represents, Together, Grouped, IsGroup;
    GroupedIdsAreMerged(m, ids, records, max, records, Admitted(records, max));
    forall k | k in m ensures KeyOf(m[k].first) == k && IsGroup(m[k], Fellows(records, m[k].first)) {
      GroupOfKey(m, ids, records, max, k);
    }
    forall j, k | j in m && k in m && j != k ensures !Together(m[j].first, m[k].first) {
      SameKeyIsTogether(m[j].first, m[k].first);
    }
    forall a | a in records && !Grouped(m, a) ensures |m| >= max {
      GroupedIsAdmitted(m, ids, records, max, a);
      RecordHasKey(records, a);
      if |m| < max {
        RoomMeansAll(records, max);
      }
    }
  }

  lemma {:induction false} RecordHasKey(records: seq<Activity>, a: Activity)
    requires a in records
    ensures KeyOf(a) in KeysInOrder(records)
  {
    if a != records[|records| - 1] {
      RecordHasKey(records[..|records| - 1], a);
    }
  }

  /** Two grouped records are in the same group exactly when they belong together. */
  lemma SameGroupExactly(m: map<Key, Group>, records: seq<Activity>, a: Activity, b: Activity, j: Key, k: Key)
    requires Partitioned(m, records) && j in m && k in m
    requires Together(m[j].first, a) && Together(m[k].first, b)
    ensures j == k <==> Together(a, b)
  {
    SameKeyIsTogether(m[j].first, a);
    SameKeyIsTogether(m[k].first, b);
    SameKeyIsTogether(a, b);
    SameKeyIsTogether(m[j].first, m[k].first);
  }

  /** How often a file is listed by the records together. */
  function TimesListed(records: seq<Activity>, file: string): nat {
    if records == [] then 0
    else
      var a := records[|records| - 1];
      TimesListed(records[..|records| - 1], file) + if a.files.Some? then multiset(a.files.value)[file] else 0
  }

  /** A group lists every file as often as its records do together. */
  lemma {:induction false} FilesAreComplete(records: seq<Activity>, file: string)
    ensures multiset(Concat(records))[file] == TimesListed(records, file)
  {
    if records != [] {
      FilesAreComplete(records[..|records| - 1], file);
    }
  }

  // ---------------------------------------------------------------------
  // Independence of the fetch order
  // ---------------------------------------------------------------------

  lemma {:induction false} MembersCount(records: seq<Activity>, k: Key, a: Activity)
    ensures multiset(Members(records, k))[a] == if KeyOf(a) == k then multiset(records)[a] else 0
  {
    if records != [] {
      MembersCount(records[..|records| - 1], k, a);
      assert records == records[..|records| - 1] + [records[|records| - 1]];
    }
  }

  lemma {:induction false} EarliestIsMinimum(records: seq<Activity>)
    requires records != []
    ensures exists a :: a in multiset(records) && a.timestamp == Earliest(records)
    ensures forall a :: a in multiset(records) ==> Earliest(records) <= a.timestamp
  {
    var rest, last := records[..|records| - 1], records[|records| - 1];
    assert records == rest + [last];
    if rest == [] {
      assert last in multiset(records);
    } else {
      EarliestIsMinimum(rest);
      var a: Activity :| a in multiset(rest) && a.timestamp == Earliest(rest);
      assert a in multiset(records) && last in multiset(records);
    }
  }

  ghost predicate Distinct(ks: seq<Key>) {
    forall i, j :: 0 <= i < j < |ks| ==> ks[i] != ks[j]
  }

  lemma {:induction false} KeysAreDistinct(records: seq<Activity>)
    ensures Distinct(KeysInOrder(records))
  {
    if records != [] {
      var rest, k := KeysInOrder(records[..|records| - 1]), KeyOf(records[|records| - 1]);
      KeysAreDistinct(records[..|records| - 1]);
      assert k !in rest ==> Distinct(rest + [k]);
    }
  }

  lemma {:induction false} DistinctLength(ks: seq<Key>)
    requires Distinct(ks)
    ensures |set k | k in ks| == |ks|
  {
    if ks != [] {
      var rest, last := ks[..|ks| - 1], ks[|ks| - 1];
      DistinctLength(rest);
      assert (set k | k in ks) == (set k | k in rest) + {last};
    }
  }

  /** The same rows in another order have the same keys, as many of them, and the same members of each. */
  lemma {:induction false} SameRowsSameKeys(r1: seq<Activity>, r2: seq<Activity>)
    requires multiset(r1) == multiset(r2)
    ensures forall k :: multiset(Members(r1, k)) == multiset(Members(r2, k))
    ensures forall k :: k in KeysInOrder(r1) <==> k in KeysInOrder(r2)
    ensures |KeysInOrder(r1)| == |KeysInOrder(r2)|
  {
    forall k
      ensures multiset(Members(r1, k)) == multiset(Members(r2, k))
      ensures k in KeysInOrder(r1) <==> k in KeysInOrder(r2)
    {
      forall a ensures multiset(Members(r1, k))[a] == multiset(Members(r2, k))[a] {
        MembersCount(r1, k, a);
        MembersCount(r2, k, a);
      }
      assert multiset(Members(r1, k)) == multiset(Members(r2, k));
      assert |multiset(Members(r1, k))| == |multiset(Members(r2, k))|;
      MembersOfNewKey(r1, k);
      MembersOfNewKey(r2, k);
    }
    KeysAreDistinct(r1);
    KeysAreDistinct(r2);
    DistinctLength(KeysInOrder(r1));
    DistinctLength(KeysInOrder(r2));
    assert (set k | k in KeysInOrder(r1)) == (set k | k in KeysInOrder(r2));
  }

  /**
   While the cap is not reached the partition does not depend on the order in which
   the rows are fetched: the same groups, the same members, the same timestamps.
   */
  lemma {:induction false} OrderFree(r1: seq<Activity>, r2: seq<Activity>, max: int, k: Key)
    requires multiset(r1) == multiset(r2)
    requires |KeysInOrder(r1)| <= max
    ensures k in Admitted(r1, max) <==> k in Admitted(r2, max)
    ensures multiset(Members(r1, k)) == multiset(Members(r2, k))
    ensures k in Admitted(r1, max) ==>
              && Members(r1, k) != [] && Members(r2, k) != []
              && Earliest(Members(r1, k)) == Earliest(Members(r2, k))
  {
    SameRowsSameKeys(r1, r2);
    MembersOfNewKey(r1, k);
    MembersOfNewKey(r2, k);
    if Members(r1, k) != [] {
      assert |multiset(Members(r1, k))| == |multiset(Members(r2, k))|;
      EarliestIsMinimum(Members(r1, k));
      EarliestIsMinimum(Members(r2, k));
    }
  }

  ghost predicate SameGroups(r1: seq<Activity>, r2: seq<Activity>, max: int) {
    forall k :: k in Admitted(r1, max) <==> k in Admitted(r2, max)
  }

  lemma {:induction false} FirstKey(a: Activity, records: seq<Activity>)
    ensures KeysInOrder([a] + records) != [] && KeysInOrder([a] + records)[0] == KeyOf(a)
    decreases |records|
  {
    var all := [a] + records;
    if records == [] {
      assert all[..0] == [];
    } else {
      FirstKey(a, records[..|records| - 1]);
      assert all[..|all| - 1] == [a] + records[..|records| - 1];
    }
  }

  lemma {:induction false} RowOfKey(records: seq<Activity>, k: Key) returns (i: nat)
    requires k in KeysInOrder(records)
    ensures i < |records| && KeyOf(records[i]) == k
  {
    i := |records| - 1;
    if KeyOf(records[i]) != k {
      i := RowOfKey(records[..i], k);
    }
  }

  /** Beyond the cap, a group that was left out gets in when one of its rows comes first. */
  lemma LeftOutGroupGetsIn(records: seq<Activity>, max: int) returns (other: seq<Activity>)
    requires 0 < max < |KeysInOrder(records)|
    ensures multiset(other) == multiset(records) && !SameGroups(records, other, max)
  {
    var k := KeysInOrder(records)[max];
    KeysAreDistinct(records);
    var i := RowOfKey(records, k);
    var rest := records[..i] + records[i + 1..];
    other := [records[i]] + rest;
    assert records == records[..i] + [records[i]] + records[i + 1..];
    FirstKey(records[i], rest);
    assert Admitted(other, max)[0] == k;
    assert k !in Admitted(records, max);
  }

  /** Which groups are merged is independent of the fetch order exactly when all of them fit under the cap. */
  lemma {:induction false} OrderFreeExactly(records: seq<Activity>, max: int)
    ensures (forall other :: multiset(other) == multiset(records) ==> SameGroups(records, other, max))
            <==> max <= 0 || |KeysInOrder(records)| <= max
  {
    if 0 < max < |KeysInOrder(records)| {
      var other := LeftOutGroupGetsIn(records, max);
    } else {
      forall other | multiset(other) == multiset(records) ensures SameGroups(records, other, max) {
        SameRowsSameKeys(records, other);
      }
    }
  }
}
