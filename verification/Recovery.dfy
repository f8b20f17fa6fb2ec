/** What a database gets back by replaying the transactions recovered from its
    log file. */
module Recovery {
  import opened Bytes
  import opened Options
  import opened Wal
  import opened Operations

  // The value of the first record of each key.
  function FirstValues(ts: seq<Trans>): State {
    if ts == [] then map[] else
    var before, t := FirstValues(ts[..|ts| - 1]), ts[|ts| - 1];
    if t.key in before then before else before[t.key := t.val]
  }

  // Keys whose length is 3 in its low byte, the code of an insert.
  function InsertLike(kv: State): State {
    map k | k in kv && |k| % 256 == INSERT :: kv[k]
  }

  lemma {:induction false} RecoveredLast(ts: seq<Trans>)
    requires ts != []
    ensures RecoveredAll(ts) == RecoveredAll(ts[..|ts| - 1]) + [Recovered(ts[|ts| - 1])]
    decreases |ts|
  {
    var n := |ts| - 1;
    if n > 0 {
      RecoveredLast(ts[1..]);
      assert ts[1..][..n - 1] == ts[..n][1..];
      assert RecoveredAll(ts[..n]) == [Recovered(ts[0])] + RecoveredAll(ts[..n][1..]);
    } else {
      assert ts[..0] == [] && ts[1..] == [];
      assert RecoveredAll(ts[1..]) == [];
    }
  }

  lemma {:induction false} ReplayedWasFirst(ts: seq<Trans>)
    ensures forall k :: k in Replay(ts) ==> k in FirstValues(ts)
  {
    if ts != [] {
      ReplayedWasFirst(ts[..|ts| - 1]);
    }
  }

  // Replaying a recovered log brings back the first value of every key whose
  // length looks like an insert, and nothing else.
  lemma {:induction false} RecoveryGives(ts: seq<Trans>)
    requires AllEffective(ts)
    ensures Replay(RecoveredAll(ts)) == InsertLike(FirstValues(ts))
  {
    if ts != [] {
      var before, t := ts[..|ts| - 1], ts[|ts| - 1];
      RecoveryGives(before);
      ReplayedWasFirst(before);
      RecoveredLast(ts);
      ReplayOneMore(RecoveredAll(before), Recovered(t));
    }
  }

  // ----- when recovery restores the state -----

  function LastRecord(ts: seq<Trans>, k: Str): Option<Trans> {
    if ts == [] then None
    else if ts[|ts| - 1].key == k then Some(ts[|ts| - 1])
    else LastRecord(ts[..|ts| - 1], k)
  }

  function FirstRecord(ts: seq<Trans>, k: Str): Option<Trans> {
    if ts == [] then None
    else if FirstRecord(ts[..|ts| - 1], k).Some? then FirstRecord(ts[..|ts| - 1], k)
    else if ts[|ts| - 1].key == k then Some(ts[|ts| - 1]) else None
  }

  // A key whose length reads as an insertion was last inserted with its first
  // value; any other key was last deleted.
  predicate KeyRestored(ts: seq<Trans>, k: Str) {
    var first, last := FirstRecord(ts, k), LastRecord(ts, k);
    first.Some? && last.Some? &&
    if |k| % 256 == INSERT then last.value.cmd == INSERT && last.value.val == first.value.val
    else last.value.cmd == DELETE
  }

  lemma {:induction false} RecordsSay(ts: seq<Trans>, k: Str)
    requires AllEffective(ts)
    ensures k in Replay(ts) <==> LastRecord(ts, k).Some? && LastRecord(ts, k).value.cmd == INSERT
    ensures k in Replay(ts) ==> Replay(ts)[k] == LastRecord(ts, k).value.val
    ensures LastRecord(ts, k).Some? ==> LastRecord(ts, k).value.cmd == INSERT || LastRecord(ts, k).value.cmd == DELETE
    ensures k in FirstValues(ts) <==> FirstRecord(ts, k).Some?
    ensures k in FirstValues(ts) ==> FirstValues(ts)[k] == FirstRecord(ts, k).value.val
    ensures FirstRecord(ts, k).Some? <==> LastRecord(ts, k).Some?
  {
    if ts != [] {
      RecordsSay(ts[..|ts| - 1], k);
    }
  }

  lemma {:induction false} LoggedKey(ts: seq<Trans>, k: Str)
    ensures LastRecord(ts, k).Some? <==> exists i :: 0 <= i < |ts| && ts[i].key == k
  {
    if ts != [] {
      var front := ts[..|ts| - 1];
      LoggedKey(front, k);
      if ts[|ts| - 1].key != k {
        if i :| 0 <= i < |front| && front[i].key == k {
          assert ts[i].key == k;
        }
        if i :| 0 <= i < |ts| && ts[i].key == k {
          assert front[i].key == k;
        }
      }
    }
  }

  // Recovery restores the state exactly when every logged key's records say so.
  lemma RecoveryRestoresIff(ts: seq<Trans>)
    requires AllEffective(ts)
    ensures Replay(RecoveredAll(ts)) == Replay(ts) <==> forall i :: 0 <= i < |ts| ==> KeyRestored(ts, ts[i].key)
  {
    hide Replay, FirstValues, LastRecord, FirstRecord, AllEffective, RecoveredAll;
    RecoveryGives(ts);
    var got := InsertLike(FirstValues(ts));
    if got == Replay(ts) {
      forall i | 0 <= i < |ts| ensures KeyRestored(ts, ts[i].key) {
        RecordsSay(ts, ts[i].key);
        LoggedKey(ts, ts[i].key);
      }
    }
    if forall i :: 0 <= i < |ts| ==> KeyRestored(ts, ts[i].key) {
      forall k: Str
        ensures k in got <==> k in Replay(ts)
        ensures k in got ==> got[k] == Replay(ts)[k]
      {
        RecordsSay(ts, k);
        LoggedKey(ts, k);
      }
    }
  }

  // The same from the bytes of the file: the heading, then the records, all
  // parsed.
  lemma RecoveryFromFile(lsn: nat, ts: seq<Trans>)
    requires AllEffective(ts) && ts != []
    ensures |LogBytes(lsn, ts)| >= 8
    ensures var r := ParseAll(LogBytes(lsn, ts)[8..], |ts|);
      r.Some? && r.value.1 == |LogBytes(lsn, ts)| - 8
      && (Replay(r.value.0) == Replay(ts) <==> forall i :: 0 <= i < |ts| ==> KeyRestored(ts, ts[i].key))
  {
    hide ToBinary, Le, KeyRestored;
    var heading := Le(LsnAfter(lsn, |ts|), 8);
    Reassociate(heading, Records(lsn, ts), []);
    LogRoundTrip(lsn, ts, []);
    assert Records(lsn, ts) + [] == Records(lsn, ts);
    RecoveryRestoresIff(ts);
  }

  // Without deletions nothing is lost exactly when the length of every key has
  // the code of an insert in its low byte.
  lemma InsertsRecoverIff(ts: seq<Trans>)
    requires AllEffective(ts) && forall i :: 0 <= i < |ts| ==> ts[i].cmd == INSERT
    ensures Replay(RecoveredAll(ts)) == Replay(ts) <==> forall i :: 0 <= i < |ts| ==> |ts[i].key| % 256 == INSERT
  {
    RecoveryGives(ts);
    InsertsOnly(ts);
    var kv := FirstValues(ts);
    if forall i :: 0 <= i < |ts| ==> |ts[i].key| % 256 == INSERT {
      forall k | k in kv ensures |k| % 256 == INSERT {
        var i :| 0 <= i < |ts| && ts[i].key == k;
      }
      assert InsertLike(kv) == kv;
    }
    if InsertLike(kv) == kv {
      forall i | 0 <= i < |ts| ensures |ts[i].key| % 256 == INSERT {
        assert ts[i].key in InsertLike(kv);
      }
    }
  }

  lemma {:induction false} InsertsOnly(ts: seq<Trans>)
    requires AllEffective(ts) && forall i :: 0 <= i < |ts| ==> ts[i].cmd == INSERT
    ensures Replay(ts) == FirstValues(ts)
    ensures forall k :: k in FirstValues(ts) <==> exists i :: 0 <= i < |ts| && ts[i].key == k
  {
    if ts != [] {
      var front, last := ts[..|ts| - 1], ts[|ts| - 1];
      InsertsOnly(front);
      forall k ensures k in FirstValues(ts) <==> exists i :: 0 <= i < |ts| && ts[i].key == k {
        if k in FirstValues(front) {
          var i :| 0 <= i < |front| && front[i].key == k;
          assert ts[i].key == k;
        } else if k == last.key {
          assert ts[|ts| - 1].key == k;
        } else {
          assert forall i :: 0 <= i < |front| ==> front[i] == ts[i];
        }
      }
    }
  }

  // The records themselves come back exactly when all are inserts of keys whose
  // length reads as one: a deletion that changed something is never read back.
  lemma FaithfulRecoveryIff(lsn: nat, ts: seq<Trans>)
    requires AllEffective(ts) && ts != []
    ensures |LogBytes(lsn, ts)| >= 8
    ensures var r := ParseAll(LogBytes(lsn, ts)[8..], |ts|);
      r.Some? && (r.value.0 == ts <==> forall i :: 0 <= i < |ts| ==> ts[i].cmd == INSERT && |ts[i].key| % 256 == INSERT)
  {
    hide ToBinary, Le, AllEffective, ParseAll, Replay, KeyRestored, Records;
    RecoveryFromFile(lsn, ts);
    LogFaithfulIff(lsn, ts);
    FileRecords(lsn, ts);
    if forall i :: 0 <= i < |ts| ==> ts[i].cmd == |ts[i].key| % 256 {
      OnlyInserts(ts);
    }
  }

  lemma FileRecords(lsn: nat, ts: seq<Trans>)
    requires ts != []
    ensures |LogBytes(lsn, ts)| >= 8 && LogBytes(lsn, ts)[8..] == Records(lsn, ts)
  {
    Reassociate(Le(LsnAfter(lsn, |ts|), 8), Records(lsn, ts), []);
  }

  lemma {:induction false} OnlyInserts(ts: seq<Trans>)
    requires AllEffective(ts) && forall i :: 0 <= i < |ts| ==> ts[i].cmd == |ts[i].key| % 256
    ensures forall i :: 0 <= i < |ts| ==> ts[i].cmd == INSERT
  {
    if ts != [] {
      var front, last := ts[..|ts| - 1], ts[|ts| - 1];
      OnlyInserts(front);
      InsertsOnly(front);
    }
  }

  // A deleted key of three bytes is there again after recovery.
  lemma DeletedKeyReturns(key: Str, v: Str, w: Str)
    requires |key| == 3 && v != []
    ensures var ts := [Trans(INSERT, key, v), Trans(DELETE, key, w)];
      AllEffective(ts) && Replay(ts) == map[] && Replay(RecoveredAll(ts)) == map[key := v]
  {
    var a, b := Trans(INSERT, key, v), Trans(DELETE, key, w);
    ReplayOneMore([], a);
    assert [] + [a] == [a] && [a] + [b] == [a, b];
    ReplayOneMore([a], b);
    assert [a, b][..1] == [a] && [a][..0] == [];
    RecoveryGives([a, b]);
    assert FirstValues([a]) == map[key := v];
    assert FirstValues([a, b]) == map[key := v];
  }
}
