/** The write-ahead log: the record codec, the log file with its heading, and
    the reader that recovers transactions. */
module Wal {
  import opened Bits
  import opened Bytes
  import opened Options

  const SELECT: Byte := 2
  const INSERT: Byte := 3
  const DELETE: Byte := 5

  const LSN_LIMIT: nat := 0x1_0000_0000_0000_0000

  datatype Trans = Trans(cmd: Byte, key: Str, val: Str)

  // Commands up to SELECT change nothing and are not logged.
  predicate IsLogged(t: Trans) {
    t.cmd > SELECT
  }

  function NextLsn(lsn: nat): nat {
    (lsn + 1) % LSN_LIMIT
  }

  // ----- the record codec -----

  function RecordSize(t: Trans): nat {
    8 + 8 + 1 + 2 + |t.key| + 2 + |t.val|
  }

  // The second copy takes nine bytes from the start of the record structure:
  // the LSN and the byte behind it, which is the low byte of the key's size,
  // not the operation.
  function ToBinary(lsn: nat, t: Trans): (r: seq<Byte>)
    ensures |r| == RecordSize(t)
  {
    Le(RecordSize(t), 8) + Le(lsn, 8) + Le(|t.key|, 2)[..1]
      + Le(|t.key|, 2) + t.key + Le(|t.val|, 2) + t.val
  }

  // What reading a record back makes of its transaction.
  function Recovered(t: Trans): Trans {
    Trans(|t.key| % 256, t.key, t.val)
  }

  // Takes a transaction off the front of the bytes, with the bytes consumed;
  // nothing if they do not hold a whole well-formed record.
  function Parse(bytes: seq<Byte>): (r: Option<(Trans, nat)>)
    ensures r.Some? ==> r.value.1 <= |bytes|
  {
    if |bytes| < 8 then None else
    var size := LeValue(bytes[..8]);
    if size < 8 || size > |bytes| then None else
    var body := ParseBody(bytes[8..size]);
    if body.None? then None else Some((body.value, size))
  }

  function ParseBody(b: seq<Byte>): Option<Trans> {
    if |b| < 8 + 1 + 2 then None else
    var klen := LeValue(b[9..11]);
    if |b| < 11 + klen + 2 then None else
    var vlen := LeValue(b[11 + klen..13 + klen]);
    if |b| != 13 + klen + vlen || klen >= 0x1_0000 || vlen >= 0x1_0000 then None else
    Some(Trans(b[8], b[11..11 + klen], b[13 + klen..]))
  }

  lemma BodyRoundTrip(lsn: nat, op: Byte, key: Str, val: Str)
    ensures ParseBody(Le(lsn, 8) + [op] + Le(|key|, 2) + key + Le(|val|, 2) + val)
         == Some(Trans(op, key, val))
  {
    hide Le, LeValue;
    WidthBounds();
    LeRoundTrip(|key|, 2);
    LeRoundTrip(|val|, 2);
    BodyFields(Le(lsn, 8), op, Le(|key|, 2), key, Le(|val|, 2), val);
  }

  lemma BodyFields(a: seq<Byte>, op: Byte, d: seq<Byte>, key: seq<Byte>, e: seq<Byte>, val: seq<Byte>)
    requires |a| == 8 && |d| == |e| == 2
    ensures var b, k := a + [op] + d + key + e + val, |key|;
      && |b| == 13 + k + |val| && b[8] == op && b[9..11] == d && b[11..11 + k] == key
      && b[11 + k..13 + k] == e && b[13 + k..] == val
  {
    var front := a + [op] + d;
    assert front[8] == op && front[9..11] == d;
    var b := front + key + e + val;
    assert b[..11] == front;
    assert b[8] == b[..11][8] && b[9..11] == b[..11][9..11];
  }

  // A record delimits itself: whatever follows, exactly its own bytes are
  // consumed and its key and value come back.
  lemma RecordRoundTrip(lsn: nat, t: Trans, rest: seq<Byte>)
    ensures Parse(ToBinary(lsn, t) + rest) == Some((Recovered(t), RecordSize(t)))
  {
    hide LeValue, ParseBody;
    var r := ToBinary(lsn, t);
    var bytes := r + rest;
    var size := RecordSize(t);
    WidthBounds();
    LeRoundTrip(size, 8);
    assert bytes[..8] == Le(size, 8);
    assert Le(|t.key|, 2)[..1] == [|t.key| % 256];
    assert bytes[8..size] == Le(lsn, 8) + [|t.key| % 256] + Le(|t.key|, 2) + t.key + Le(|t.val|, 2) + t.val;
    BodyRoundTrip(lsn, |t.key| % 256, t.key, t.val);
  }

  // The command survives exactly when it happens to equal the low byte of the
  // key's length.
  lemma CommandSurvivesIff(lsn: nat, t: Trans, rest: seq<Byte>)
    ensures Parse(ToBinary(lsn, t) + rest) == Some((t, RecordSize(t))) <==> |t.key| % 256 == t.cmd
  {
    RecordRoundTrip(lsn, t, rest);
  }

  // A delete of a three-byte key comes back as an insert.
  lemma DeleteComesBackAsInsert(lsn: nat, val: Str)
    ensures Parse(ToBinary(lsn, Trans(DELETE, [107, 101, 121], val)))
         == Some((Trans(INSERT, [107, 101, 121], val), 24 + |val|))
  {
    var t := Trans(DELETE, [107, 101, 121], val);
    RecordRoundTrip(lsn, t, []);
    assert ToBinary(lsn, t) + [] == ToBinary(lsn, t);
  }

  // Exactly the commands behind SELECT.
  lemma LoggedCommands(t: Trans)
    ensures IsLogged(t) <==> t.cmd >= INSERT
  {
  }

  // Where the fields of a record lie: its own size, its LSN, the byte that
  // should be the command, then key and value behind their sizes.
  lemma RecordFields(lsn: nat, t: Trans)
    requires lsn < LSN_LIMIT
    ensures var r, k := ToBinary(lsn, t), |t.key|;
      && |r| == 21 + k + |t.val| && LeValue(r[..8]) == |r| && LeValue(r[8..16]) == lsn
      && r[16] == k % 256 && LeValue(r[17..19]) == k && r[19..19 + k] == t.key
      && LeValue(r[19 + k..21 + k]) == |t.val| && r[21 + k..] == t.val
  {
    hide Le, LeValue;
    var size, k := RecordSize(t), |t.key|;
    WidthBounds();
    LeRoundTrip(size, 8);
    LeRoundTrip(lsn, 8);
    LeRoundTrip(k, 2);
    LeRoundTrip(|t.val|, 2);
    FirstByte(k);
    Fields(Le(size, 8), Le(lsn, 8), Le(k, 2)[..1], Le(k, 2), t.key, Le(|t.val|, 2), t.val);
  }

  lemma Fields(a: seq<Byte>, b: seq<Byte>, c: seq<Byte>, d: seq<Byte>, key: seq<Byte>, e: seq<Byte>, val: seq<Byte>)
    requires |a| == |b| == 8 && |c| == 1 && |d| == |e| == 2
    ensures var r, k := a + b + c + d + key + e + val, |key|;
      && |r| == 21 + k + |val| && r[..8] == a && r[8..16] == b && r[16] == c[0] && r[17..19] == d
      && r[19..19 + k] == key && r[19 + k..21 + k] == e && r[21 + k..] == val
  {
    var front := a + b + c + d;
    assert front[..8] == a && front[8..16] == b && front[16] == c[0] && front[17..19] == d;
    var r, k := front + key + e + val, |key|;
    assert r[..19] == front;
    assert r[..8] == r[..19][..8] && r[8..16] == r[..19][8..16] && r[17..19] == r[..19][17..19];
    assert r[16] == r[..19][16];
  }

  lemma FirstByte(n: nat)
    ensures Le(n, 2)[0] == n % 256
  {
  }

  // ----- the whole log -----

  function Logged(ts: seq<Trans>): (r: seq<Trans>)
    ensures |r| <= |ts|
  {
    if ts == [] then [] else
    var front := Logged(ts[..|ts| - 1]);
    if IsLogged(ts[|ts| - 1]) then front + [ts[|ts| - 1]] else front
  }

  // The LSN after n more records.
  function LsnAfter(lsn: nat, n: nat): nat {
    if n == 0 then lsn else NextLsn(LsnAfter(lsn, n - 1))
  }

  // Records of logged transactions, numbered on from lsn.
  function Records(lsn: nat, ts: seq<Trans>): seq<Byte> {
    if ts == [] then [] else
    Records(lsn, ts[..|ts| - 1]) + ToBinary(LsnAfter(lsn, |ts|), ts[|ts| - 1])
  }

  // The log file: the last LSN, then the records.
  function LogBytes(lsn: nat, ts: seq<Trans>): seq<Byte> {
    if ts == [] then [] else Le(LsnAfter(lsn, |ts|), 8) + Records(lsn, ts)
  }

  lemma {:induction false} LsnConsecutive(lsn: nat, n: nat)
    requires lsn + n < LSN_LIMIT
    ensures LsnAfter(lsn, n) == lsn + n
  {
    if n > 0 {
      LsnConsecutive(lsn, n - 1);
    }
  }

  // Where record i begins in the file.
  function RecordStart(ts: seq<Trans>, i: nat): nat
    requires i <= |ts|
  {
    if i == 0 then 8 else RecordStart(ts, i - 1) + RecordSize(ts[i - 1])
  }

  lemma {:induction false} RecordsTo(lsn: nat, ts: seq<Trans>, i: nat)
    requires i <= |ts|
    ensures RecordStart(ts, i) == 8 + |Records(lsn, ts[..i])|
    ensures |Records(lsn, ts[..i])| <= |Records(lsn, ts)| && Records(lsn, ts)[..|Records(lsn, ts[..i])|] == Records(lsn, ts[..i])
    decreases |ts|
  {
    hide ToBinary;
    if i < |ts| {
      var front := ts[..|ts| - 1];
      RecordsTo(lsn, front, i);
      assert front[..i] == ts[..i];
      SameStart(front, ts, i);
    } else {
      assert ts[..i] == ts;
      if i > 0 {
        var front := ts[..i - 1];
        RecordsTo(lsn, front, i - 1);
        assert front[..i - 1] == front;
        SameStart(front, ts, i - 1);
      }
    }
  }

  lemma {:induction false} SameStart(front: seq<Trans>, ts: seq<Trans>, i: nat)
    requires i <= |front| <= |ts| && ts[..|front|] == front
    ensures RecordStart(front, i) == RecordStart(ts, i)
  {
    if i > 0 {
      assert front[i - 1] == ts[..|front|][i - 1];
      SameStart(front, ts, i - 1);
    }
  }

  lemma StartNext(ts: seq<Trans>, i: nat)
    requires i < |ts|
    ensures RecordStart(ts, i + 1) == RecordStart(ts, i) + RecordSize(ts[i])
  {
  }

  lemma RecordsNext(lsn: nat, ts: seq<Trans>, i: nat)
    requires i < |ts|
    ensures Records(lsn, ts[..i + 1]) == Records(lsn, ts[..i]) + ToBinary(LsnAfter(lsn, i + 1), ts[i])
  {
    hide ToBinary;
    assert ts[..i + 1][..i] == ts[..i];
  }

  lemma RecordInFile(lsn: nat, ts: seq<Trans>, i: nat)
    requires i < |ts|
    ensures var f, at := LogBytes(lsn, ts), RecordStart(ts, i);
      at + RecordSize(ts[i]) <= |f| && f[at..at + RecordSize(ts[i])] == ToBinary(LsnAfter(lsn, i + 1), ts[i])
    ensures LogBytes(lsn, ts)[..8] == Le(LsnAfter(lsn, |ts|), 8)
  {
    hide ToBinary, Le, LsnAfter, RecordStart, Records;
    var heading, whole := Le(LsnAfter(lsn, |ts|), 8), Records(lsn, ts);
    var r := ToBinary(LsnAfter(lsn, i + 1), ts[i]);
    var before, through := Records(lsn, ts[..i]), Records(lsn, ts[..i + 1]);
    RecordsTo(lsn, ts, i);
    RecordsTo(lsn, ts, i + 1);
    StartNext(ts, i);
    RecordsNext(lsn, ts, i);
    Slice(heading, whole, before, r);
    Reassociate(heading, whole, []);
  }

  lemma Slice(heading: seq<Byte>, whole: seq<Byte>, before: seq<Byte>, r: seq<Byte>)
    requires |before + r| <= |whole| && whole[..|before + r|] == before + r
    ensures var at := |heading| + |before|; (heading + whole)[at..at + |r|] == r
  {
    var at := |heading| + |before|;
    forall k | 0 <= k < |r| ensures (heading + whole)[at + k] == r[k] {
      assert whole[..|before + r|][|before| + k] == r[k];
    }
  }

  lemma LsnBelow(lsn: nat, n: nat)
    requires n > 0
    ensures LsnAfter(lsn, n) < LSN_LIMIT
  {
  }

  // Every record of the file is numbered on from the one before it, below the
  // wrap by one, and the heading has the number of the last.
  lemma LogNumbers(lsn: nat, ts: seq<Trans>, i: nat)
    requires i < |ts|
    ensures var f, at := LogBytes(lsn, ts), RecordStart(ts, i);
      && at + RecordSize(ts[i]) <= |f| && LeValue(f[at + 8..at + 16]) == LsnAfter(lsn, i + 1)
      && (lsn + i + 1 < LSN_LIMIT ==> LeValue(f[at + 8..at + 16]) == lsn + i + 1)
      && LeValue(f[..8]) == LsnAfter(lsn, |ts|)
  {
    hide ToBinary, Le, LeValue, LogBytes, RecordStart, LsnAfter;
    var f, at, size := LogBytes(lsn, ts), RecordStart(ts, i), RecordSize(ts[i]);
    RecordInFile(lsn, ts, i);
    LsnBelow(lsn, i + 1);
    LsnBelow(lsn, |ts|);
    RecordFields(LsnAfter(lsn, i + 1), ts[i]);
    SliceOfSlice(f, at, size, 8, 16);
    WidthBounds();
    LeRoundTrip(LsnAfter(lsn, |ts|), 8);
    if lsn + i + 1 < LSN_LIMIT {
      LsnConsecutive(lsn, i + 1);
    }
  }

  lemma {:induction false} RecordsFirst(lsn: nat, ts: seq<Trans>)
    requires ts != []
    ensures Records(lsn, ts) == ToBinary(NextLsn(lsn), ts[0]) + Records(NextLsn(lsn), ts[1..])
  {
    var n := |ts| - 1;
    if n == 0 {
      assert ts[..0] == [] && ts[1..] == [];
      assert LsnAfter(lsn, 1) == NextLsn(LsnAfter(lsn, 0));
    } else {
      RecordsFirst(lsn, ts[..n]);
      LsnShift(lsn, n);
      var tail := ts[1..];
      assert ts[..n][1..] == tail[..n - 1] && tail[n - 1] == ts[n];
      var last := ToBinary(LsnAfter(lsn, n + 1), ts[n]);
      assert Records(NextLsn(lsn), tail) == Records(NextLsn(lsn), tail[..n - 1]) + last;
      Reassociate(ToBinary(NextLsn(lsn), ts[0]), Records(NextLsn(lsn), tail[..n - 1]), last);
    }
  }

  lemma {:induction false} LsnShift(lsn: nat, n: nat)
    ensures LsnAfter(NextLsn(lsn), n) == LsnAfter(lsn, n + 1)
  {
    if n > 0 {
      LsnShift(lsn, n - 1);
    }
  }

  // Reading n transactions one after another.
  function ParseAll(bytes: seq<Byte>, n: nat): Option<(seq<Trans>, nat)>
    decreases n
  {
    if n == 0 then Some(([], 0)) else
    var first := Parse(bytes);
    if first.None? then None else
    var rest := ParseAll(bytes[first.value.1..], n - 1);
    if rest.None? then None else
    Some(([first.value.0] + rest.value.0, first.value.1 + rest.value.1))
  }

  function RecoveredAll(ts: seq<Trans>): (r: seq<Trans>)
    ensures |r| == |ts|
  {
    if ts == [] then [] else [Recovered(ts[0])] + RecoveredAll(ts[1..])
  }

  // Reading the records back yields every transaction, in order, each record
  // consumed to its end.
  lemma {:induction false} LogRoundTrip(lsn: nat, ts: seq<Trans>, rest: seq<Byte>)
    ensures ParseAll(Records(lsn, ts) + rest, |ts|) == Some((RecoveredAll(ts), |Records(lsn, ts)|))
    decreases |ts|
  {
    hide ToBinary, Parse, ParseBody;
    if ts != [] {
      var first, tail := ToBinary(NextLsn(lsn), ts[0]), Records(NextLsn(lsn), ts[1..]);
      RecordsFirst(lsn, ts);
      Reassociate(first, tail, rest);
      Reassociate(first, tail + rest, []);
      RecordRoundTrip(NextLsn(lsn), ts[0], tail + rest);
      LogRoundTrip(NextLsn(lsn), ts[1..], rest);
      ParseOneMore(first + (tail + rest), tail + rest, Recovered(ts[0]), |first|, |ts|);
    } else {
      assert ParseAll(rest, 0) == Some(([], 0));
    }
  }

  lemma ParseOneMore(bytes: seq<Byte>, more: seq<Byte>, t: Trans, size: nat, n: nat)
    requires n > 0 && Parse(bytes) == Some((t, size)) && bytes[size..] == more
    requires ParseAll(more, n - 1).Some?
    ensures ParseAll(bytes, n)
         == Some(([t] + ParseAll(more, n - 1).value.0, size + ParseAll(more, n - 1).value.1))
  {
  }

  lemma {:induction false} RecoveredAllIff(ts: seq<Trans>)
    ensures RecoveredAll(ts) == ts <==> forall t :: t in ts ==> |t.key| % 256 == t.cmd
  {
    if ts != [] {
      RecoveredAllIff(ts[1..]);
      assert ts == [ts[0]] + ts[1..];
      assert RecoveredAll(ts)[0] == Recovered(ts[0]) && RecoveredAll(ts)[1..] == RecoveredAll(ts[1..]);
    }
  }

  // The log gives back the transactions it was given exactly when each
  // command is the low byte of its key's length.
  lemma LogFaithfulIff(lsn: nat, ts: seq<Trans>)
    ensures ParseAll(Records(lsn, ts), |ts|) == Some((ts, |Records(lsn, ts)|))
      <==> forall t :: t in ts ==> |t.key| % 256 == t.cmd
  {
    LogRoundTrip(lsn, ts, []);
    assert Records(lsn, ts) + [] == Records(lsn, ts);
    RecoveredAllIff(ts);
  }

  // ----- the writer -----

  lemma HeadingReplaced(lsn: nat, ts: seq<Trans>, value: nat)
    ensures Overwritten(LogBytes(lsn, ts), 0, Le(value, 8)) == Le(value, 8) + Records(lsn, ts)
  {
    if ts != [] {
      Reassociate(Le(LsnAfter(lsn, |ts|), 8), Records(lsn, ts), []);
    }
  }

  lemma LogExtended(lsn: nat, ts: seq<Trans>, t: Trans)
    ensures var next := LsnAfter(lsn, |ts| + 1);
      Overwritten(Le(next, 8) + Records(lsn, ts), |Le(next, 8) + Records(lsn, ts)|, ToBinary(next, t))
        == LogBytes(lsn, ts + [t])
  {
    var next := LsnAfter(lsn, |ts| + 1);
    assert (ts + [t])[..|ts|] == ts;
    Reassociate(Le(next, 8), Records(lsn, ts), ToBinary(next, t));
    var before := Le(next, 8) + Records(lsn, ts);
    assert before[..|before|] == before;
  }

  class Logger {
    var lsn: nat
    const file: File

    // Transactions logged so far, and the LSN before the first of them.
    ghost var history: seq<Trans>
    ghost var start: nat

    ghost predicate Valid()
      reads this, file
    {
      lsn == LsnAfter(start, |history|) && file.bytes == LogBytes(start, history)
    }

    // Opens an empty log file.
    constructor (first: nat)
      ensures Valid() && fresh(file) && lsn == first && history == [] && start == first
    {
      lsn, start, history := first, first, [];
      file := new File([]);
    }

    method UpdateHeading(value: nat)
      modifies file
      ensures file.bytes == Overwritten(old(file.bytes), 0, Le(value, 8))
      ensures file.pos == |file.bytes|
    {
      file.SeekSet(0);
      file.Write(Le(value, 8));
      file.SeekEnd();
    }

    // Returns the LSN given to the transaction, or 0 when it is not logged.
    method WriteLog(t: Trans) returns (given: nat)
      requires Valid()
      modifies this, file
      ensures Valid() && start == old(start)
      ensures history == old(history) + (if IsLogged(t) then [t] else [])
      ensures IsLogged(t) ==> given == lsn == NextLsn(old(lsn))
      ensures !IsLogged(t) ==> given == 0 && lsn == old(lsn) && file.bytes == old(file.bytes)
    {
      if t.cmd <= SELECT {
        return 0;
      }
      lsn := NextLsn(lsn);
      given := lsn;
      var record := ToBinary(lsn, t);
      HeadingReplaced(start, history, lsn);
      UpdateHeading(lsn);
      file.Write(record);
      LogExtended(start, history, t);
      history := history + [t];
    }
  }

  // ----- the reader -----

  class Unlogger {
    const file: File

    constructor (content: seq<Byte>)
      ensures fresh(file) && file.bytes == content && file.pos == 0
    {
      file := new File(content);
    }

    // The last seek is relative, so this steps over the heading only when
    // called at the start of the file.
    method LatestLsn() returns (value: nat)
      requires file.pos + 8 <= |file.bytes|
      modifies file`pos
      ensures value == LeValue(file.bytes[old(file.pos)..old(file.pos) + 8])
      ensures file.pos == 2 * old(file.pos) + 8
    {
      var current := file.pos;
      var data := file.Read(8);
      value := LeValue(data);
      file.SeekCur(current);
    }

    // Recovers one transaction; None where the original would abort or read
    // past what it was given.
    method Recover() returns (t: Option<Trans>)
      requires file.pos <= |file.bytes|
      modifies file`pos
      ensures var r := Parse(file.bytes[old(file.pos)..]);
        && (r.None? ==> t.None?)
        && (r.Some? ==> t == Some(r.value.0) && file.pos == old(file.pos) + r.value.1)
    {
      ghost var input := file.bytes[file.pos..];
      var data := file.Read(8);
      if |data| < 8 {
        return None;
      }
      assert data == input[..8];
      var size := LeValue(data);
      if size < 8 {
        return None;
      }
      var body := file.Read(size - 8);
      if |body| < size - 8 {
        return None;
      }
      assert body == input[8..size];
      t := TakeApart(body);
    }

    // The copies through the record's body.
    method TakeApart(body: seq<Byte>) returns (t: Option<Trans>)
      ensures t == ParseBody(body)
    {
      var p := 0;
      if |body| < 11 {
        return None;
      }
      p := p + 8;
      var op := body[p];
      p := p + 1;
      var klen := LeValue(body[p..p + 2]);
      p := p + 2;
      if |body| < p + klen + 2 {
        return None;
      }
      var key := body[p..p + klen];
      p := p + klen;
      var vlen := LeValue(body[p..p + 2]);
      p := p + 2;
      if p + vlen != |body| || klen >= 0x1_0000 || vlen >= 0x1_0000 {
        return None;
      }
      assert body[p..p + vlen] == body[p..];
      t := Some(Trans(op, key, body[p..p + vlen]));
    }
  }
}
