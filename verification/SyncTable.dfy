/** The table class: a data table and its journal, changed together by every operation. A
    transaction is one method call. */
module SyncTables {

  import opened SyncSpec
  import opened SyncRounds

  /** A joined row: the journal entry, with its key, and the state. */
  class UserDeviceSyncRecord {
    var key: Key
    var lastModified: int
    var state: string

    constructor (key: Key, lastModified: int, state: string)
      ensures this.key == key && this.lastModified == lastModified && this.state == state
    {
      this.key, this.lastModified, this.state := key, lastModified, state;
    }

    function Value(): Change
      reads this
    {
      Change(key.uniqueId, lastModified, state)
    }

    method SetKey(k: Key)
      modifies this`key
      ensures key == k
    {
      key := k;
    }
  }

  function Values(records: seq<UserDeviceSyncRecord>): (r: seq<Change>)
    reads records
    ensures |r| == |records| && forall i :: 0 <= i < |r| ==> r[i] == records[i].Value()
  {
    seq(|records|, i requires 0 <= i < |records| reads records => records[i].Value())
  }

  /** Fresh records of the user holding exactly the entries of the given keys. */
  twostate predicate Fetched(t: Tables, userId: int, keys: set<Key>, new records: seq<UserDeviceSyncRecord>)
    requires keys <= UserKeys(t, userId)
    reads records
  {
    && Lists(t, userId, keys, Values(records))
    && forall r :: r in records ==> fresh(r) && r.key.userId == userId
  }

  class SyncTable {
    var userDevice: map<Key, string>
    var userDeviceJournal: map<Key, int>

    constructor ()
      ensures Contents() == EMPTY
    {
      userDevice, userDeviceJournal := map[], map[];
    }

    function Contents(): Tables
      reads this
    {
      Tables(userDevice, userDeviceJournal)
    }

    // ---- storing ----

    method StoreRecord(sr: UserDeviceSyncRecord) returns (lastModified: int)
      modifies this
      ensures userDevice == old(userDevice)[sr.key := sr.state]
      ensures userDeviceJournal == old(userDeviceJournal)[sr.key := sr.lastModified]
      ensures Contents() == Insert(old(Contents()), sr.key, sr.state, sr.lastModified)
      ensures lastModified == sr.lastModified
    {
      userDevice := userDevice[sr.key := sr.state];
      userDeviceJournal := userDeviceJournal[sr.key := sr.lastModified];
      lastModified := sr.lastModified;
    }

    method RemoveRecord(sr: UserDeviceSyncRecord) returns (lastModified: int)
      modifies this
      ensures userDevice == old(userDevice) - {sr.key}
      ensures userDeviceJournal == old(userDeviceJournal)[sr.key := sr.lastModified]
      ensures Contents() == Delete(old(Contents()), sr.key, sr.lastModified)
      ensures lastModified == sr.lastModified
    {
      userDevice := userDevice - {sr.key};
      userDeviceJournal := userDeviceJournal[sr.key := sr.lastModified];
      lastModified := sr.lastModified;
    }

    method StoreIfRecent(sr: UserDeviceSyncRecord) returns (done: bool)
      modifies this
      ensures done <==> (sr.key in old(userDeviceJournal) ==> old(userDeviceJournal)[sr.key] < sr.lastModified)
      ensures userDevice == if done then old(userDevice)[sr.key := sr.state] else old(userDevice)
      ensures userDeviceJournal ==
              if done then old(userDeviceJournal)[sr.key := sr.lastModified] else old(userDeviceJournal)
      ensures Contents() == if done then Insert(old(Contents()), sr.key, sr.state, sr.lastModified) else old(Contents())
    {
      if sr.key in userDeviceJournal && userDeviceJournal[sr.key] >= sr.lastModified {
        return false;
      }
      var _ := StoreRecord(sr);
      return true;
    }

    method RemoveIfRecent(sr: UserDeviceSyncRecord) returns (done: bool)
      modifies this
      ensures done <==> (sr.key in old(userDeviceJournal) ==> old(userDeviceJournal)[sr.key] < sr.lastModified)
      ensures userDevice == if done then old(userDevice) - {sr.key} else old(userDevice)
      ensures userDeviceJournal ==
              if done then old(userDeviceJournal)[sr.key := sr.lastModified] else old(userDeviceJournal)
      ensures Contents() == if done then Delete(old(Contents()), sr.key, sr.lastModified) else old(Contents())
    {
      if sr.key in userDeviceJournal && userDeviceJournal[sr.key] >= sr.lastModified {
        return false;
      }
      var _ := RemoveRecord(sr);
      return true;
    }

    method InsertIfRecent(key: Key, state: string, lastModified: int) returns (done: bool)
      modifies this
      ensures done <==> (key in old(userDeviceJournal) ==> old(userDeviceJournal)[key] < lastModified)
      ensures userDevice == if done then old(userDevice)[key := state] else old(userDevice)
      ensures userDeviceJournal == if done then old(userDeviceJournal)[key := lastModified] else old(userDeviceJournal)
      ensures Contents() ==
              Apply(old(Contents()), Op.InsertIfRecent(key.userId, Change(key.uniqueId, lastModified, state)))
    {
      var sr := new UserDeviceSyncRecord(key, lastModified, state);
      done := StoreIfRecent(sr);
    }

    method DeleteIfRecent(key: Key, state: string, lastModified: int) returns (done: bool)
      modifies this
      ensures done <==> (key in old(userDeviceJournal) ==> old(userDeviceJournal)[key] < lastModified)
      ensures userDevice == if done then old(userDevice) - {key} else old(userDevice)
      ensures userDeviceJournal == if done then old(userDeviceJournal)[key := lastModified] else old(userDeviceJournal)
      ensures Contents() ==
              Apply(old(Contents()), Op.DeleteIfRecent(key.userId, Change(key.uniqueId, lastModified, state)))
    {
      var sr := new UserDeviceSyncRecord(key, lastModified, state);
      done := RemoveIfRecent(sr);
    }

    method InsertOne(key: Key, state: string, nowMillis: int) returns (lastModified: int)
      modifies this
      ensures lastModified == nowMillis && userDevice == old(userDevice)[key := state]
      ensures userDeviceJournal == old(userDeviceJournal)[key := nowMillis]
      ensures Contents() == Apply(old(Contents()), Op.InsertOne(key.userId, Change(key.uniqueId, nowMillis, state)))
    {
      var sr := new UserDeviceSyncRecord(key, nowMillis, state);
      lastModified := StoreRecord(sr);
    }

    method DeleteOne(key: Key, state: string, nowMillis: int) returns (lastModified: int)
      modifies this
      ensures lastModified == nowMillis && userDevice == old(userDevice) - {key}
      ensures userDeviceJournal == old(userDeviceJournal)[key := nowMillis]
      ensures Contents() == Apply(old(Contents()), Op.DeleteOne(key.userId, Change(key.uniqueId, nowMillis, state)))
    {
      var sr := new UserDeviceSyncRecord(key, nowMillis, state);
      lastModified := RemoveRecord(sr);
    }

    // ---- batches ----

    method HandleChange(sr: UserDeviceSyncRecord, userId: int) returns (res: bool)
      modifies this, sr`key
      ensures sr.key == old(sr.key).(userId := userId) && sr.Value() == old(sr.Value())
      ensures res <==> Accepts(old(Contents()), userId, sr.Value())
      ensures Contents() == MergeOne(old(Contents()), userId, sr.Value())
    {
      sr.SetKey(sr.key.(userId := userId));
      if sr.key.uniqueId == "" {
        return false;
      }
      if sr.state != "" {
        res := StoreIfRecent(sr);
      } else {
        res := RemoveIfRecent(sr);
      }
    }

    /** The records are handed over by reference and keep the user's id afterwards. */
    method HandleChanges(changes: seq<UserDeviceSyncRecord>, userId: int) returns (results: seq<bool>)
      modifies this, changes`key
      ensures Contents() == Merge(old(Contents()), userId, old(Values(changes)))
      ensures results == Results(old(Contents()), userId, old(Values(changes)))
      ensures Values(changes) == old(Values(changes))
      ensures forall r :: r in changes ==> r.key.userId == userId
    {
      hide *;
      ghost var t, cs := Contents(), Values(changes);
      results := [];
      MergeNothing(t, userId);
      for i := 0 to |changes|
        invariant forall j :: 0 <= j < |changes| ==> changes[j].Value() == cs[j]
        invariant Contents() == Merge(t, userId, cs[..i])
        invariant results == Results(t, userId, cs[..i])
        invariant forall j :: 0 <= j < i ==> changes[j].key.userId == userId
      {
        MergeStep(t, userId, cs, i);
        var res := HandleChange(changes[i], userId);
        results := results + [res];
      }
      assert cs[..|changes|] == cs;
    }

    method ReplaceWith(row: UserDeviceSyncRecord, userId: int)
      modifies this, row`key
      ensures row.key == if row.state != "" then old(row.key).(userId := userId) else old(row.key)
      ensures row.Value() == old(row.Value())
      ensures Contents() == RefillOne(old(Contents()), userId, row.Value())
    {
      if row.state == "" {
        return;
      }
      row.SetKey(row.key.(userId := userId));
      if row.key.uniqueId == "" {
        return;
      }
      var _ := StoreRecord(row);
    }

    /** The loop of ReplaceAll. */
    method InsertAll(rows: seq<UserDeviceSyncRecord>, userId: int)
      modifies this, rows`key
      ensures Contents() == Refill(old(Contents()), userId, old(Values(rows)))
      ensures Values(rows) == old(Values(rows))
      ensures forall r :: r in rows ==> r.key == if r.state != "" then old(r.key).(userId := userId) else old(r.key)
    {
      hide *;
      ghost var t, cs := Contents(), Values(rows);
      MergeNothing(t, userId);
      for i := 0 to |rows|
        invariant forall j :: 0 <= j < |rows| ==> rows[j].Value() == cs[j]
        invariant Contents() == Refill(t, userId, cs[..i])
        invariant forall r :: r in rows ==>
                    r.key == if r.state != "" && r in rows[..i] then old(r.key).(userId := userId) else old(r.key)
      {
        RefillStep(t, userId, cs, i);
        assert rows[..i + 1] == rows[..i] + [rows[i]];
        ReplaceWith(rows[i], userId);
      }
      assert cs[..|rows|] == cs && rows[..|rows|] == rows;
    }

    method ReplaceAll(rows: seq<UserDeviceSyncRecord>, userId: int)
      modifies this, rows`key
      ensures rows == [] ==> userDevice == old(userDevice) && userDeviceJournal == old(userDeviceJournal)
      ensures Contents() == Replace(old(Contents()), userId, old(Values(rows)))
      ensures Values(rows) == old(Values(rows))
      ensures forall r :: r in rows ==> r.key == if r.state != "" then old(r.key).(userId := userId) else old(r.key)
    {
      if |rows| == 0 {
        return;
      }
      userDevice := map k | k in userDevice && k.userId != userId :: userDevice[k];
      userDeviceJournal := map k | k in userDeviceJournal && k.userId != userId :: userDeviceJournal[k];
      assert Contents() == Wipe(old(Contents()), userId);
      InsertAll(rows, userId);
    }

    // ---- queries ----

    /** The left outer join of the journal and the data table on the given keys. */
    method Join(keys: set<Key>, ghost userId: int) returns (records: seq<UserDeviceSyncRecord>)
      requires keys <= UserKeys(Contents(), userId)
      ensures Fetched(Contents(), userId, keys, records)
    {
      records := [];
      var rest := keys;
      while rest != {}
        invariant rest <= keys
        invariant forall r :: r in records ==> fresh(r) && r.key.userId == userId
        invariant Lists(Contents(), userId, keys - rest, Values(records))
      {
        var k :| k in rest;
        var sr := new UserDeviceSyncRecord(k, userDeviceJournal[k], if k in userDevice then userDevice[k] else "");
        ListOneMore(Contents(), userId, keys - rest, Values(records), k);
        assert Values(records + [sr]) == Values(records) + [RecordOf(Contents(), k)];
        records := records + [sr];
        rest := rest - {k};
        assert keys - rest == keys - (rest + {k}) + {k};
      }
      assert keys - rest == keys;
    }

    method GetRaw(userId: int) returns (records: seq<UserDeviceSyncRecord>)
      ensures Fetched(Contents(), userId, UserKeys(Contents(), userId), records)
    {
      records := Join(UserKeys(Contents(), userId), userId);
    }

    method GetChangesAfter(lastModified: int, userId: int) returns (records: seq<UserDeviceSyncRecord>)
      ensures Fetched(Contents(), userId, DeltaKeys(Contents(), userId, lastModified), records)
    {
      records := Join(DeltaKeys(Contents(), userId, lastModified), userId);
    }

    method GetLastModified(sr: UserDeviceSyncRecord) returns (m: int)
      ensures IsLastModified(Contents(), sr.key.userId, m)
    {
      var rest := UserKeys(Contents(), sr.key.userId);
      if rest == {} {
        return 0;
      }
      var k :| k in rest;
      m, rest := userDeviceJournal[k], rest - {k};
      while rest != {}
        invariant rest <= UserKeys(Contents(), sr.key.userId)
        invariant exists j :: j in UserKeys(Contents(), sr.key.userId) && userDeviceJournal[j] == m
        invariant forall j :: j in UserKeys(Contents(), sr.key.userId) - rest ==> userDeviceJournal[j] <= m
      {
        k :| k in rest;
        rest := rest - {k};
        if userDeviceJournal[k] > m {
          m := userDeviceJournal[k];
        }
      }
    }

    /** One exchange: what changed here since the client's mark, the new mark, and then the client's
        own changes. The answer is from before the pushes. */
    method SyncAt(sr: UserDeviceSyncRecord, pushedChanges: seq<UserDeviceSyncRecord>)
      returns (lastModified: int, ourChange: seq<UserDeviceSyncRecord>, done: seq<bool>)
      modifies this, pushedChanges`key
      ensures var u := old(sr.key.userId);
              && IsLastModified(old(Contents()), u, lastModified)
              && Fetched(old(Contents()), u, DeltaKeys(old(Contents()), u, old(sr.lastModified)), ourChange)
              && Contents() == Merge(old(Contents()), u, old(Values(pushedChanges)))
              && done == Results(old(Contents()), u, old(Values(pushedChanges)))
    {
      var userId := sr.key.userId;
      ourChange := GetChangesAfter(sr.lastModified, userId);
      lastModified := GetLastModified(sr);
      ghost var ours := Values(ourChange);
      done := HandleChanges(pushedChanges, userId);
      assert Values(ourChange) == ours;
    }
  }

  lemma {:induction false} MergeNothing(t: Tables, u: int)
    ensures Merge(t, u, []) == Refill(t, u, []) == t && Results(t, u, []) == []
  {
  }

  lemma {:induction false} MergeStep(t: Tables, u: int, cs: seq<Change>, i: nat)
    requires i < |cs|
    ensures Merge(t, u, cs[..i + 1]) == MergeOne(Merge(t, u, cs[..i]), u, cs[i])
    ensures Results(t, u, cs[..i + 1]) == Results(t, u, cs[..i]) + [Accepts(Merge(t, u, cs[..i]), u, cs[i])]
  {
    assert cs[..i + 1][..i] == cs[..i];
  }

  lemma {:induction false} RefillStep(t: Tables, u: int, cs: seq<Change>, i: nat)
    requires i < |cs|
    ensures Refill(t, u, cs[..i + 1]) == RefillOne(Refill(t, u, cs[..i]), u, cs[i])
  {
    assert cs[..i + 1][..i] == cs[..i];
  }

  lemma {:induction false} ListOneMore(t: Tables, u: int, keys: set<Key>, out: seq<Change>, k: Key)
    requires keys <= UserKeys(t, u) && Lists(t, u, keys, out)
    requires k in UserKeys(t, u) && k !in keys
    ensures Lists(t, u, keys + {k}, out + [RecordOf(t, k)])
  {
    var more := out + [RecordOf(t, k)];
    forall i | 0 <= i < |out|
      ensures out[i].uniqueId != k.uniqueId
    {
      assert out[i] in out;
    }
    assert RecordOf(t, k) in more;
    assert forall c :: c in out ==> c in more;
  }

  /** A client takes part in one exchange and merges the answer. The two sides end up with the same
      contents for the user exactly if every key is settled, and are then ready for the next exchange. */
  method Exchange(server: SyncTable, client: SyncTable, sr: UserDeviceSyncRecord) returns (mark: int)
    requires server != client
    modifies server, client
    ensures UserPart(server.Contents(), sr.key.userId) == UserPart(client.Contents(), sr.key.userId) <==>
            old(AllSettle(server.Contents(), client.Contents(), sr.key.userId, sr.lastModified))
    ensures old(Synced(System(server.Contents(), client.Contents(), sr.lastModified), sr.key.userId)) ==>
            Synced(System(server.Contents(), client.Contents(), mark), sr.key.userId)
  {
    var u := sr.key.userId;
    ghost var a, b := server.Contents(), client.Contents();
    var pushed := client.GetChangesAfter(sr.lastModified, u);
    ghost var push := Values(pushed);
    var ours, done;
    mark, ours, done := server.SyncAt(sr, pushed);
    ghost var our := Values(ours);
    var _ := client.HandleChanges(ours, u);
    RoundConverges(a, b, u, sr.lastModified, our, push);
    ghost var s := System(a, b, sr.lastModified);
    if Synced(s, u) {
      RoundMakesSynced(s, u, Round(our, push, mark));
    }
  }
}
