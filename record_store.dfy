/** The JSON-file record table: a list of `{subdomain, ip, ...}` records kept
    in one file, read whole before and written whole after every change. The
    file is the `file` field (`None` while it does not exist) and every
    write is counted in `writes`. */
module RecordStore {
  import opened Text

  /** One stored record: its key, its address, and whatever other fields the caller stored. */
  datatype Record = Record(subdomain: string, ip: string, others: map<string, string>)

  /** `db.findIndex(record => record.subdomain === key)`: the first position
      holding the key, or -1. */
  function FindIndex(db: seq<Record>, key: string): (i: int)
    ensures -1 <= i < |db|
    ensures i >= 0 ==> db[i].subdomain == key && forall j :: 0 <= j < i ==> db[j].subdomain != key
    ensures i == -1 <==> forall j :: 0 <= j < |db| ==> db[j].subdomain != key
  {
    if |db| == 0 then -1
    else if db[0].subdomain == key then 0
    else
      var i := FindIndex(db[1..], key);
      assert forall j :: 1 <= j < |db| ==> db[j] == db[1..][j - 1];
      if i == -1 then -1 else i + 1
  }

  /** `db.find(record => record.subdomain === key)`. */
  function Find(db: seq<Record>, key: string): (r: Option<Record>)
    ensures r.Some? <==> exists j :: 0 <= j < |db| && db[j].subdomain == key
    ensures r.Some? ==> r.value.subdomain == key
    ensures r.Some? ==> (exists i :: 0 <= i < |db| && db[i] == r.value && forall j :: 0 <= j < i ==> db[j].subdomain != key)
  {
    var i := FindIndex(db, key);
    if i == -1 then None else Some(db[i])
  }

  /** `db.filter(record => record.subdomain !== key)`. */
  function WithoutKey(db: seq<Record>, key: string): (r: seq<Record>)
    ensures |r| <= |db|
    ensures forall j :: 0 <= j < |r| ==> r[j].subdomain != key
  {
    if |db| == 0 then []
    else (if db[0].subdomain == key then [] else [db[0]]) + WithoutKey(db[1..], key)
  }

  /** `db[i].ip = newIp` at the first record holding the key, when there is one. */
  function WithIp(db: seq<Record>, key: string, newIp: string): (r: seq<Record>)
    ensures |r| == |db|
    ensures forall j :: 0 <= j < |r| ==> r[j].subdomain == db[j].subdomain
  {
    var i := FindIndex(db, key);
    if i == -1 then db else db[i := db[i].(ip := newIp)]
  }

  /** The filter keeps the order of the records it keeps: it works piece by piece. */
  lemma {:induction false} WithoutKeyConcat(a: seq<Record>, b: seq<Record>, key: string)
    ensures WithoutKey(a + b, key) == WithoutKey(a, key) + WithoutKey(b, key)
  {
    if |a| == 0 {
      assert a + b == b;
    } else {
      assert (a + b)[0] == a[0] && (a + b)[1..] == a[1..] + b;
      WithoutKeyConcat(a[1..], b, key);
    }
  }

  /** Removing a key that no record holds changes nothing. */
  lemma {:induction false} WithoutAbsentKey(db: seq<Record>, key: string)
    requires forall j :: 0 <= j < |db| ==> db[j].subdomain != key
    ensures WithoutKey(db, key) == db
  {
    if |db| > 0 {
      WithoutAbsentKey(db[1..], key);
      assert [db[0]] + db[1..] == db;
    }
  }

  /** After the filter the key is gone, so filtering again changes nothing. */
  lemma WithoutKeyIdempotent(db: seq<Record>, key: string)
    ensures Find(WithoutKey(db, key), key).None?
    ensures WithoutKey(WithoutKey(db, key), key) == WithoutKey(db, key)
  {
    var r := WithoutKey(db, key);
    assert forall j :: 0 <= j < |r| ==> r[j] in r;
    WithoutAbsentKey(r, key);
  }

  /** The filter removes exactly the records holding the key: each of the
      others survives as many times as it was stored. */
  lemma {:induction false} WithoutKeyCounts(db: seq<Record>, key: string, x: Record)
    ensures multiset(WithoutKey(db, key))[x] == if x.subdomain == key then 0 else multiset(db)[x]
  {
    if |db| > 0 {
      WithoutKeyCounts(db[1..], key, x);
      assert db == [db[0]] + db[1..];
      if db[0].subdomain == key {
        assert WithoutKey(db, key) == WithoutKey(db[1..], key);
      } else {
        assert WithoutKey(db, key) == [db[0]] + WithoutKey(db[1..], key);
      }
    }
  }

  /** The records kept are exactly the stored ones not holding the key. */
  lemma WithoutKeyMembers(db: seq<Record>, key: string, x: Record)
    ensures x in WithoutKey(db, key) <==> x in db && x.subdomain != key
  {
    WithoutKeyCounts(db, key, x);
  }

  /** A record appended after the others is found only when none before it holds the key. */
  lemma FindAfterAppend(db: seq<Record>, rec: Record, key: string)
    ensures Find(db + [rec], key) ==
      if Find(db, key).Some? then Find(db, key)
      else if rec.subdomain == key then Some(rec) else None
  {
    var i := FindIndex(db, key);
    var t := db + [rec];
    if i >= 0 {
      assert FindIndex(t, key) == i by {
        FindIndexIs(t, key, i);
      }
    } else if rec.subdomain == key {
      assert FindIndex(t, key) == |db| by {
        FindIndexIs(t, key, |db|);
      }
    } else {
      assert forall j :: 0 <= j < |t| ==> t[j].subdomain != key by {
        assert forall j :: 0 <= j < |db| ==> t[j] == db[j];
      }
    }
  }

  /** The first position of a key is fixed by the records up to it. */
  lemma FindIndexIs(db: seq<Record>, key: string, i: nat)
    requires i < |db| && db[i].subdomain == key
    requires forall j :: 0 <= j < i ==> db[j].subdomain != key
    ensures FindIndex(db, key) == i
  {
  }

  /** The update touches only the `ip` of the first record holding the key:
      every other record, and every other field of that one, is kept in place. */
  lemma WithIpKeepsOthers(db: seq<Record>, key: string, newIp: string)
    ensures var r := WithIp(db, key, newIp); var i := FindIndex(db, key);
      forall j :: 0 <= j < |db| ==>
        if j == i then r[j] == Record(key, newIp, db[j].others) else r[j] == db[j]
  {
  }

  /** After the update the key is found with the new address. */
  lemma FindAfterUpdate(db: seq<Record>, key: string, newIp: string)
    requires Find(db, key).Some?
    ensures Find(WithIp(db, key, newIp), key) == Some(Find(db, key).value.(ip := newIp))
  {
    var i := FindIndex(db, key);
    var r := WithIp(db, key, newIp);
    FindIndexIs(r, key, i);
  }

  /** A key no record holds leaves the list as it is. */
  lemma WithIpAbsent(db: seq<Record>, key: string, newIp: string)
    requires Find(db, key).None?
    ensures WithIp(db, key, newIp) == db
  {
  }

  class RecordStore {
    /** The parsed file, or `None` while the file does not exist. */
    var file: Option<seq<Record>>
    /** How many times the file has been written. */
    var writes: nat

    constructor()
      ensures file == None && writes == 0
    {
      file := None;
      writes := 0;
    }

    /** `readDb`: a missing file reads as the empty list. */
    function Db(): (db: seq<Record>)
      reads this
      ensures file.None? ==> db == []
      ensures file.Some? ==> db == file.value
    {
      if file.None? then [] else file.value
    }

    /** `findRecord`: the first record holding the key, if any. */
    function FindRecord(key: string): (r: Option<Record>)
      reads this
      ensures file.None? ==> r.None?
      ensures r.Some? ==> r.value in Db() && r.value.subdomain == key
      ensures r.None? <==> forall j :: 0 <= j < |Db()| ==> Db()[j].subdomain != key
    {
      Find(Db(), key)
    }

    /** `addRecord`: the record goes at the end, with no check for a duplicate key. */
    method AddRecord(record: Record)
      modifies this
      ensures file == Some(old(Db()) + [record])
      ensures writes == old(writes) + 1
    {
      var db := Db();
      db := db + [record];
      file := Some(db);
      writes := writes + 1;
    }

    /** `deleteRecord`: every record holding the key goes; the file is written
        even when nothing was removed, and so comes to exist. */
    method DeleteRecord(key: string)
      modifies this
      ensures file == Some(WithoutKey(old(Db()), key))
      ensures writes == old(writes) + 1
    {
      var db := Db();
      db := WithoutKey(db, key);
      file := Some(db);
      writes := writes + 1;
    }

    /** `updateRecordIp`: the first record holding the key gets the new
        address and the file is written; without such a record nothing is written. */
    method UpdateRecordIp(key: string, newIp: string)
      modifies this
      ensures Find(old(Db()), key).None? ==> file == old(file) && writes == old(writes)
      ensures Find(old(Db()), key).Some? ==>
        file == Some(WithIp(old(Db()), key, newIp)) && writes == old(writes) + 1
    {
      var db := Db();
      var recordIndex := FindIndex(db, key);
      if recordIndex > -1 {
        db := db[recordIndex := db[recordIndex].(ip := newIp)];
        file := Some(db);
        writes := writes + 1;
      }
    }
  }
}
