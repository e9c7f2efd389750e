/** What the audit chain guarantees: completeness, composition of ranges, tiling manifests and tamper
    evidence. */
module AuditChain {
  import opened Strings
  import opened SandboxAbi
  import opened AuditStore

  // ---------- stores built by recording ----------

  datatype Table = Table(rows: seq<Row>, manifests: seq<Manifest>)

  /** A fresh table after recording the payloads, by the contract of `Store.RecordEvent`. */
  function Recorded(digest: Digest, payloads: seq<string>): Table
    decreases payloads
  {
    if payloads == [] then Table([], [])
    else
      var before := Recorded(digest, payloads[..|payloads| - 1]);
      var rows := before.rows + [Chained(digest, before.rows, payloads[|payloads| - 1])];
      Table(rows, ManifestsAfter(digest, rows, before.manifests, NextId(before.rows)))
  }

  /** `Store.RecordEvent` on a recorded table gives the table with one more payload recorded. */
  lemma RecordedNext(digest: Digest, payloads: seq<string>, payload: string)
    ensures var (before, after) := (Recorded(digest, payloads), Recorded(digest, payloads + [payload]));
            && after.rows == before.rows + [Chained(digest, before.rows, payload)]
            && after.manifests == ManifestsAfter(digest, after.rows, before.manifests, NextId(before.rows))
  {
    assert (payloads + [payload])[..|payloads|] == payloads;
  }

  lemma NothingRecorded(digest: Digest)
    ensures Recorded(digest, []) == Table([], [])
  {
  }

  /** A new store that records a sequence of events: afterwards it holds exactly the recorded table. */
  method RecordAll(digest: Digest, payloads: seq<string>) returns (store: Store)
    ensures fresh(store) && !store.readOnly && store.digest == digest
    ensures Table(store.rows, store.manifests) == Recorded(digest, payloads)
  {
    hide Recorded, ManifestsAfter, Chained, NextId;
    store := new Store(digest);
    NothingRecorded(digest);
    assert payloads[..0] == [];
    for next := 0 to |payloads|
      invariant fresh(store) && !store.readOnly && store.digest == digest
      invariant Table(store.rows, store.manifests) == Recorded(digest, payloads[..next])
    {
      RecordedNext(digest, payloads[..next], payloads[next]);
      assert payloads[..next] + [payloads[next]] == payloads[..next + 1];
      var id := store.RecordEvent(payloads[next]);
    }
    assert payloads[..|payloads|] == payloads;
  }

  ghost predicate Contiguous(rows: seq<Row>) {
    forall k :: 0 <= k < |rows| ==> rows[k].id == k + 1
  }

  // Row k names its predecessor's hash and carries its own.
  predicate Linked(digest: Digest, first: string, rows: seq<Row>, k: nat)
    requires k < |rows|
  {
    && rows[k].prevHash == ExpectedAt(first, rows, k)
    && rows[k].rowHash == ComputeRowHash(digest, rows[k].prevHash, rows[k].payload)
  }

  ghost predicate Clean(digest: Digest, first: string, rows: seq<Row>) {
    forall k :: 0 <= k < |rows| ==> Linked(digest, first, rows, k)
  }

  lemma {:induction false} RecordedIsClean(digest: Digest, payloads: seq<string>)
    ensures var rows := Recorded(digest, payloads).rows;
            && |rows| == |payloads| && Contiguous(rows) && Clean(digest, GENESIS, rows)
            && (forall k :: 0 <= k < |rows| ==> rows[k].payload == payloads[k])
    decreases payloads
  {
    if payloads != [] {
      var n := |payloads| - 1;
      RecordedIsClean(digest, payloads[..n]);
      var before, rows := Recorded(digest, payloads[..n]).rows, Recorded(digest, payloads).rows;
      forall k | 0 <= k < |rows|
        ensures Linked(digest, GENESIS, rows, k)
      {
        assert k < n ==> Linked(digest, GENESIS, before, k);
      }
    }
  }

  // ---------- ranges ----------

  // Where a range of a contiguous table begins and ends.
  function Lo(from: Option<int>, n: nat): (lo: nat)
    ensures lo <= n
  {
    if from == None || from.value <= 1 then 0 else if from.value - 1 <= n then from.value - 1 else n
  }

  function Hi(to: Option<int>, lo: nat, n: nat): (hi: nat)
    requires lo <= n
    ensures lo <= hi <= n
  {
    if to == None || to.value >= n then n else if to.value <= lo then lo else to.value
  }

  // How a slice changes with one more row, which gets id n + 1.
  lemma OneMoreRow(from: Option<int>, to: Option<int>, n: nat)
    ensures var (lo, lo') := (Lo(from, n), Lo(from, n + 1));
            var (hi, hi') := (Hi(to, lo, n), Hi(to, lo', n + 1));
            if IsInRange(n + 1, from, to) then lo' == lo && hi == n && hi' == n + 1
            else lo' - lo == hi' - hi && (lo' == lo || (lo == hi && lo' == hi'))
  {
  }

  lemma ContiguousInit(rows: seq<Row>)
    requires Contiguous(rows) && rows != []
    ensures Contiguous(rows[..|rows| - 1]) && rows[|rows| - 1].id == |rows|
  {
  }

  lemma InRangeStep(rows: seq<Row>, from: Option<int>, to: Option<int>)
    requires rows != []
    ensures var (before, last) := (rows[..|rows| - 1], rows[|rows| - 1]);
            InRange(rows, from, to) ==
            if IsInRange(last.id, from, to) then InRange(before, from, to) + [last] else InRange(before, from, to)
  {
  }

  lemma NoRows(from: Option<int>, to: Option<int>)
    ensures InRange([], from, to) == [] && Lo(from, 0) == Hi(to, 0, 0) == 0
  {
  }

  lemma {:induction false} RangeIsSlice(rows: seq<Row>, from: Option<int>, to: Option<int>)
    requires Contiguous(rows)
    ensures var lo := Lo(from, |rows|);
            InRange(rows, from, to) == rows[lo..Hi(to, lo, |rows|)]
  {
    hide Lo, Hi, IsInRange, InRange, Contiguous;
    if rows == [] {
      NoRows(from, to);
    } else {
      var n := |rows| - 1;
      var before := rows[..n];
      ContiguousInit(rows);
      RangeIsSlice(before, from, to);
      InRangeStep(rows, from, to);
      OneMoreRow(from, to, n);
      var (lo, hi) := (Lo(from, n), Hi(to, Lo(from, n), n));
      assert before[lo..hi] == rows[lo..hi];
      if IsInRange(n + 1, from, to) {
        assert rows[lo..n + 1] == rows[lo..n] + [rows[n]];
      }
    }
  }

  lemma {:induction false} LookupById(rows: seq<Row>, id: int)
    requires Contiguous(rows)
    ensures RowHashOf(rows, id) == if 1 <= id <= |rows| then Some(rows[id - 1].rowHash) else None
  {
    if rows != [] {
      LookupById(rows[..|rows| - 1], id);
    }
  }

  lemma RowIsClean(digest: Digest, first: string, rows: seq<Row>, k: nat)
    requires k < |rows|
    ensures |RowMismatches(digest, ExpectedAt(first, rows, k), rows[k])| == 0 <==> Linked(digest, first, rows, k)
  {
  }

  lemma {:induction false} CleanUpTo(digest: Digest, first: string, rows: seq<Row>, n: nat)
    requires n <= |rows|
    ensures |MismatchesUpTo(digest, first, rows, n)| == 0 <==> forall k :: 0 <= k < n ==> Linked(digest, first, rows, k)
  {
    if n > 0 {
      CleanUpTo(digest, first, rows, n - 1);
      RowIsClean(digest, first, rows, n - 1);
    }
  }

  /** The verifier finds nothing exactly on clean chains. */
  lemma NoMismatchIffClean(digest: Digest, first: string, rows: seq<Row>)
    ensures Mismatches(digest, first, rows) == [] <==> Clean(digest, first, rows)
  {
    CleanUpTo(digest, first, rows, |rows|);
  }

  lemma SliceOfClean(digest: Digest, rows: seq<Row>, lo: nat, hi: nat)
    requires lo <= hi <= |rows| && Clean(digest, GENESIS, rows)
    ensures Clean(digest, ExpectedAt(GENESIS, rows, lo), rows[lo..hi])
  {
    var slice := rows[lo..hi];
    forall k | 0 <= k < |slice|
      ensures Linked(digest, ExpectedAt(GENESIS, rows, lo), slice, k)
    {
      assert Linked(digest, GENESIS, rows, lo + k);
    }
  }

  /** What verification of a clean table of `n` rows with ids 1 to n comes to: nothing broken; only a
      range that starts past the end by more than one row is refused. */
  function NothingBroken(n: nat, from: Option<int>, to: Option<int>): Result<Report, AuditError> {
    if from.Some? && from.value > n + 1 then Failure(MissingRow(from.value - 1))
    else Success(Report(Hi(to, Lo(from, n), n) - Lo(from, n), 0, []))
  }

  ghost predicate VerifiesOnEveryRange(digest: Digest, rows: seq<Row>) {
    forall from, to :: Verified(digest, rows, from, to) == NothingBroken(|rows|, from, to)
  }

  lemma CleanVerifies(digest: Digest, rows: seq<Row>, from: Option<int>, to: Option<int>)
    requires Contiguous(rows) && Clean(digest, GENESIS, rows)
    ensures Verified(digest, rows, from, to) == NothingBroken(|rows|, from, to)
  {
    var lo := Lo(from, |rows|);
    var hi := Hi(to, lo, |rows|);
    RangeIsSlice(rows, from, to);
    if from.Some? && from.value > 1 {
      LookupById(rows, from.value - 1);
    }
    if from == None || from.value <= |rows| + 1 {
      assert ExpectedFirst(rows, from) == Success(ExpectedAt(GENESIS, rows, lo));
      SliceOfClean(digest, rows, lo, hi);
      NoMismatchIffClean(digest, ExpectedAt(GENESIS, rows, lo), rows[lo..hi]);
    }
  }

  lemma CleanVerifiesOnEveryRange(digest: Digest, rows: seq<Row>)
    requires Contiguous(rows) && Clean(digest, GENESIS, rows)
    ensures VerifiesOnEveryRange(digest, rows)
  {
    forall from, to
      ensures Verified(digest, rows, from, to) == NothingBroken(|rows|, from, to)
    {
      CleanVerifies(digest, rows, from, to);
    }
  }

  /** Completeness: a store built only by recording verifies with nothing broken on every range. */
  lemma RecordedVerifies(digest: Digest, payloads: seq<string>)
    ensures VerifiesOnEveryRange(digest, Recorded(digest, payloads).rows)
    ensures |Recorded(digest, payloads).rows| == |payloads|
  {
    RecordedIsClean(digest, payloads);
    CleanVerifiesOnEveryRange(digest, Recorded(digest, payloads).rows);
  }

  // ---------- what a report says ----------

  // What is wrong with row k, on any table: it names another hash than its predecessor's, or carries
  // another than that of its text.
  predicate WrongAt(digest: Digest, first: string, rows: seq<Row>, k: nat, m: Mismatch)
    requires k < |rows|
  {
    match m
    case PrevHashMismatch(id) => id == rows[k].id && rows[k].prevHash != if k == 0 then first else rows[k - 1].rowHash
    case RowHashMismatch(id) => id == rows[k].id && rows[k].rowHash != digest(rows[k].prevHash + rows[k].payload)
  }

  ghost predicate Once(details: seq<Mismatch>) {
    forall i, j :: 0 <= i < j < |details| ==> details[i] != details[j]
  }

  ghost predicate ListsWrong(digest: Digest, first: string, rows: seq<Row>, n: nat, details: seq<Mismatch>)
    requires n <= |rows|
  {
    && (forall m :: m in details <==> exists k: nat :: k < n && WrongAt(digest, first, rows, k, m))
    && Once(details)
  }

  lemma RowListsWrong(digest: Digest, first: string, rows: seq<Row>, k: nat)
    requires k < |rows|
    ensures var details := RowMismatches(digest, ExpectedAt(first, rows, k), rows[k]);
            (forall m :: m in details <==> WrongAt(digest, first, rows, k, m)) && Once(details)
  {
  }

  lemma WrongNamesRow(digest: Digest, first: string, rows: seq<Row>, k: nat, m: Mismatch)
    requires k < |rows| && WrongAt(digest, first, rows, k, m)
    ensures m.id == rows[k].id
  {
  }

  lemma {:induction false} MismatchesListWrong(digest: Digest, first: string, rows: seq<Row>, n: nat)
    requires n <= |rows| && Keyed(rows)
    ensures ListsWrong(digest, first, rows, n, MismatchesUpTo(digest, first, rows, n))
  {
    hide RowMismatches, ExpectedAt, WrongAt;
    if n > 0 {
      var before := MismatchesUpTo(digest, first, rows, n - 1);
      var last := RowMismatches(digest, ExpectedAt(first, rows, n - 1), rows[n - 1]);
      MismatchesListWrong(digest, first, rows, n - 1);
      RowListsWrong(digest, first, rows, n - 1);
      forall k: nat, m | k < n && WrongAt(digest, first, rows, k, m)
        ensures m.id == rows[k].id
      {
        WrongNamesRow(digest, first, rows, k, m);
      }
      assert forall i, j :: 0 <= i < |before| && 0 <= j < |last| ==> before[i] in before && last[j] in last;
      assert Once(before + last);
    }
  }

  lemma {:induction false} LookupExactly(rows: seq<Row>, id: int)
    ensures match RowHashOf(rows, id)
            case None => forall k :: 0 <= k < |rows| ==> rows[k].id != id
            case Some(hash) => exists k :: 0 <= k < |rows| && rows[k].id == id && rows[k].rowHash == hash
  {
    if rows != [] && rows[|rows| - 1].id != id {
      var before := rows[..|rows| - 1];
      LookupExactly(before, id);
      if RowHashOf(before, id).Some? {
        var k :| 0 <= k < |before| && before[k].id == id && before[k].rowHash == RowHashOf(before, id).value;
        assert rows[k] == before[k];
      }
    }
  }

  ghost predicate Selects(chosen: seq<Row>, rows: seq<Row>, from: Option<int>, to: Option<int>) {
    forall row :: row in chosen <==>
                  row in rows && (from.Some? ==> from.value <= row.id) && (to.Some? ==> row.id <= to.value)
  }

  lemma {:induction false} InRangeSelects(rows: seq<Row>, from: Option<int>, to: Option<int>)
    ensures Selects(InRange(rows, from, to), rows, from, to)
  {
    if rows != [] {
      var (before, last) := (rows[..|rows| - 1], rows[|rows| - 1]);
      InRangeSelects(before, from, to);
      assert forall row :: row in rows <==> row in before || row == last;
    }
  }

  lemma InOrder(before: seq<Row>, last: Row, chosen: seq<Row>)
    requires Keyed(before + [last]) && Keyed(chosen) && forall row :: row in chosen ==> row in before
    ensures Keyed(chosen + [last])
  {
    forall k | 0 <= k < |chosen|
      ensures chosen[k].id < last.id
    {
      assert chosen[k] in before;
      var i :| 0 <= i < |before| && before[i] == chosen[k];
      assert (before + [last])[i] == before[i] && (before + [last])[|before|] == last;
    }
  }

  lemma KeyedBefore(before: seq<Row>, last: Row)
    requires Keyed(before + [last])
    ensures Keyed(before)
  {
    assert forall i :: 0 <= i < |before| ==> (before + [last])[i] == before[i];
  }

  /** The rows of a range are the table's rows with ids between its bounds, in their order. */
  lemma {:induction false} InRangeExactly(rows: seq<Row>, from: Option<int>, to: Option<int>)
    requires Keyed(rows)
    ensures Keyed(InRange(rows, from, to)) && Selects(InRange(rows, from, to), rows, from, to)
  {
    hide Keyed, IsInRange;
    InRangeSelects(rows, from, to);
    if rows != [] {
      var (before, last) := (rows[..|rows| - 1], rows[|rows| - 1]);
      assert rows == before + [last];
      KeyedBefore(before, last);
      InRangeExactly(before, from, to);
      InOrder(before, last, InRange(before, from, to));
    } else {
      NothingKeyed();
    }
  }

  lemma NothingKeyed()
    ensures Keyed([])
  {
  }

  /** What verification says of any range of any table: it is refused exactly for want of the row before the
      range; otherwise it reports each wrong link and each wrong hash of the range's rows once. */
  lemma ReportExactly(digest: Digest, rows: seq<Row>, from: Option<int>, to: Option<int>)
    returns (chosen: seq<Row>, first: string)
    requires Keyed(rows)
    ensures var r := Verified(digest, rows, from, to);
            && (r.Failure? <==> from.Some? && from.value > 1 && forall row :: row in rows ==> row.id != from.value - 1)
            && (r.Failure? ==> r.error == MissingRow(from.value - 1))
            && (r.Success? ==>
                  && (if from.Some? && from.value > 1
                      then exists row :: row in rows && row.id == from.value - 1 && row.rowHash == first
                      else first == "GENESIS")
                  && r.value.checkedRows == |chosen| && r.value.brokenRows == |r.value.details|
                  && ListsWrong(digest, first, chosen, |chosen|, r.value.details))
    ensures Keyed(chosen) && Selects(chosen, rows, from, to)
  {
    hide InRange, RowHashOf, ListsWrong;
    chosen, first := InRange(rows, from, to), "";
    InRangeExactly(rows, from, to);
    if from.Some? && from.value > 1 {
      LookupExactly(rows, from.value - 1);
    }
    var expected := ExpectedFirst(rows, from);
    if expected.Success? {
      first := expected.value;
      MismatchesListWrong(digest, first, chosen, |chosen|);
      if from.Some? && from.value > 1 {
        var k :| 0 <= k < |rows| && rows[k].id == from.value - 1 && rows[k].rowHash == first;
        assert rows[k] in rows;
      }
    }
  }

  // ---------- composition ----------

  lemma {:induction false} MismatchesConcat(digest: Digest, first: string, a: seq<Row>, b: seq<Row>, n: nat)
    requires n <= |b|
    ensures MismatchesUpTo(digest, first, a + b, |a| + n)
         == Mismatches(digest, first, a) + MismatchesUpTo(digest, ExpectedAt(first, a, |a|), b, n)
    decreases n
  {
    hide RowMismatches, ExpectedAt;
    if n == 0 {
      MismatchesOfPrefix(digest, first, a, b, |a|);
    } else {
      MismatchesConcat(digest, first, a, b, n - 1);
      ExpectedInConcat(first, a, b, n - 1);
      var (x, y) := (Mismatches(digest, first, a), MismatchesUpTo(digest, ExpectedAt(first, a, |a|), b, n - 1));
      var r := RowMismatches(digest, ExpectedAt(first, a + b, |a| + n - 1), b[n - 1]);
      assert x + y + r == x + (y + r);
    }
  }

  lemma ExpectedInConcat(first: string, a: seq<Row>, b: seq<Row>, k: nat)
    requires k < |b|
    ensures (a + b)[|a| + k] == b[k]
    ensures ExpectedAt(first, a + b, |a| + k) == ExpectedAt(ExpectedAt(first, a, |a|), b, k)
  {
  }

  lemma {:induction false} MismatchesOfPrefix(digest: Digest, first: string, a: seq<Row>, b: seq<Row>, n: nat)
    requires n <= |a|
    ensures MismatchesUpTo(digest, first, a + b, n) == MismatchesUpTo(digest, first, a, n)
  {
    if n > 0 {
      MismatchesOfPrefix(digest, first, a, b, n - 1);
    }
  }

  lemma {:induction false} NothingBelow(rows: seq<Row>, from: Option<int>, to: Option<int>)
    requires from.Some? && forall k :: 0 <= k < |rows| ==> rows[k].id < from.value
    ensures InRange(rows, from, to) == []
  {
    if rows != [] {
      NothingBelow(rows[..|rows| - 1], from, to);
    }
  }

  // Splitting a range at a row that exists.
  lemma {:induction false} RangeSplits(rows: seq<Row>, from: Option<int>, m: int, to: Option<int>)
    requires Keyed(rows) && IsInRange(m, from, to) && RowHashOf(rows, m).Some?
    ensures var a := InRange(rows, from, Some(m));
            && InRange(rows, from, to) == a + InRange(rows, Some(m + 1), to)
            && a != [] && RowHashOf(rows, m) == Some(a[|a| - 1].rowHash)
  {
    var before, last := rows[..|rows| - 1], rows[|rows| - 1];
    if last.id == m {
      NothingBelow(before, Some(m + 1), to);
      SameBelow(before, from, m, to);
    } else {
      RangeSplits(before, from, m, to);
      LookupFinds(before, m);
    }
  }

  lemma {:induction false} LookupFinds(rows: seq<Row>, id: int)
    requires RowHashOf(rows, id).Some?
    ensures exists k :: 0 <= k < |rows| && rows[k].id == id
  {
    if rows[|rows| - 1].id != id {
      LookupFinds(rows[..|rows| - 1], id);
      var k :| 0 <= k < |rows| - 1 && rows[..|rows| - 1][k].id == id;
      assert rows[k].id == id;
    }
  }

  lemma {:induction false} SameBelow(rows: seq<Row>, from: Option<int>, m: int, to: Option<int>)
    requires (to == None || m <= to.value) && forall k :: 0 <= k < |rows| ==> rows[k].id <= m
    ensures InRange(rows, from, to) == InRange(rows, from, Some(m))
  {
    if rows != [] {
      SameBelow(rows[..|rows| - 1], from, m, to);
    }
  }

  function Sum(a: Result<Report, AuditError>, b: Result<Report, AuditError>): Result<Report, AuditError> {
    if a.Failure? then a
    else if b.Failure? then b
    else Success(Report(a.value.checkedRows + b.value.checkedRows, a.value.brokenRows + b.value.brokenRows,
                        a.value.details + b.value.details))
  }

  /** Composition, for any table, tampered with or not: verifying two adjacent ranges finds exactly what
      verifying them as one does if and only if the row where they meet exists, or already the first
      range cannot be verified. */
  lemma RangesCompose(digest: Digest, rows: seq<Row>, from: Option<int>, m: int, to: Option<int>)
    requires Keyed(rows) && m >= 1 && IsInRange(m, from, to)
    ensures Verified(digest, rows, from, to)
         == Sum(Verified(digest, rows, from, Some(m)), Verified(digest, rows, Some(m + 1), to))
       <==> RowHashOf(rows, m).Some? || Verified(digest, rows, from, Some(m)).Failure?
  {
    hide InRange, Mismatches, RowHashOf, Keyed;
    if ExpectedFirst(rows, from).Success? && RowHashOf(rows, m).Some? {
      RangesMeet(digest, rows, from, m, to);
    }
  }

  // The two ranges meet at an existing row.
  lemma RangesMeet(digest: Digest, rows: seq<Row>, from: Option<int>, m: int, to: Option<int>)
    requires Keyed(rows) && m >= 1 && IsInRange(m, from, to)
    requires RowHashOf(rows, m).Some? && ExpectedFirst(rows, from).Success?
    ensures Verified(digest, rows, from, to)
         == Sum(Verified(digest, rows, from, Some(m)), Verified(digest, rows, Some(m + 1), to))
  {
    hide InRange, Mismatches, RowHashOf, Keyed;
    RangeSplits(rows, from, m, to);
    var first, a, b := ExpectedFirst(rows, from).value, InRange(rows, from, Some(m)), InRange(rows, Some(m + 1), to);
    ConcatMismatches(digest, first, a, b);
    assert ExpectedFirst(rows, Some(m + 1)) == Success(ExpectedAt(first, a, |a|));
  }

  lemma ConcatMismatches(digest: Digest, first: string, a: seq<Row>, b: seq<Row>)
    ensures Mismatches(digest, first, a + b)
         == Mismatches(digest, first, a) + Mismatches(digest, ExpectedAt(first, a, |a|), b)
  {
    MismatchesConcat(digest, first, a, b, |b|);
  }

  /** Recording on top of any table breaks nothing and repairs nothing. */
  lemma RecordingKeepsMismatches(digest: Digest, rows: seq<Row>, payload: string)
    ensures Mismatches(digest, GENESIS, rows + [Chained(digest, rows, payload)]) == Mismatches(digest, GENESIS, rows)
  {
    var row := Chained(digest, rows, payload);
    MismatchesConcat(digest, GENESIS, rows, [row], 1);
    assert MismatchesUpTo(digest, LastHash(rows), [row], 1)
        == MismatchesUpTo(digest, LastHash(rows), [row], 0) + RowMismatches(digest, LastHash(rows), row);
  }

  // ---------- the periodic check ----------

  // The range `check_audit_health` verifies (src/security/diagnostics.rs).
  function HealthStart(end: int, maxRows: nat): int { end - maxRows + 1 }

  /** The periodic check never lacks the row before its range: it covers the last rows, as many as it
      may, whatever they hold; on a store built by recording it finds nothing. */
  lemma HealthCheckIsComplete(digest: Digest, rows: seq<Row>, maxRows: nat)
    requires Contiguous(rows) && rows != []
    ensures var end := rows[|rows| - 1].id;
            var r := Verified(digest, rows, Some(HealthStart(end, maxRows)), Some(end));
            && r.Success? && r.value.checkedRows == (if maxRows < |rows| then maxRows else |rows|)
            && (Clean(digest, GENESIS, rows) ==> r.value.brokenRows == 0)
  {
    hide InRange, RowHashOf, Mismatches, Linked;
    var n := |rows|;
    var from := Some(HealthStart(n, maxRows));
    var lo := Lo(from, n);
    RangeIsSlice(rows, from, Some(n));
    LookupById(rows, from.value - 1);
    if Clean(digest, GENESIS, rows) {
      SliceOfClean(digest, rows, lo, n);
      NoMismatchIffClean(digest, ExpectedAt(GENESIS, rows, lo), rows[lo..n]);
    }
  }

  // ---------- manifests ----------

  function Block(digest: Digest, rows: seq<Row>, k: nat): Manifest
    requires (k + 1) * MANIFEST_INTERVAL <= |rows|
  {
    var (start, end) := (k * MANIFEST_INTERVAL, (k + 1) * MANIFEST_INTERVAL);
    Manifest(start + 1, end, digest(Concatenated(rows[start..end])))
  }

  lemma {:induction false} ManifestsAreBlocks(digest: Digest, payloads: seq<string>)
    ensures var (rows, manifests) := (Recorded(digest, payloads).rows, Recorded(digest, payloads).manifests);
            && |rows| == |payloads| && |manifests| == |payloads| / MANIFEST_INTERVAL
            && forall k: nat :: k < |manifests| ==> manifests[k] == Block(digest, rows, k)
    decreases payloads
  {
    RecordedIsClean(digest, payloads);
    if payloads != [] {
      var n := |payloads|;
      var before := Recorded(digest, payloads[..n - 1]);
      var rows := Recorded(digest, payloads).rows;
      ManifestsAreBlocks(digest, payloads[..n - 1]);
      assert rows[..n - 1] == before.rows;
      BlocksStay(digest, before.rows, rows);
      if n % MANIFEST_INTERVAL == 0 {
        LastBlock(digest, rows);
      }
    }
  }

  lemma BlocksStay(digest: Digest, before: seq<Row>, rows: seq<Row>)
    requires before <= rows
    ensures forall k: nat :: (k + 1) * MANIFEST_INTERVAL <= |before| ==> Block(digest, rows, k) == Block(digest, before, k)
  {
    forall k: nat | (k + 1) * MANIFEST_INTERVAL <= |before|
      ensures Block(digest, rows, k) == Block(digest, before, k)
    {
      var (start, end) := (k * MANIFEST_INTERVAL, (k + 1) * MANIFEST_INTERVAL);
      assert rows[start..end] == before[start..end];
    }
  }

  lemma LastBlock(digest: Digest, rows: seq<Row>)
    requires Contiguous(rows) && rows != [] && |rows| % MANIFEST_INTERVAL == 0
    ensures forall manifests :: ManifestsAfter(digest, rows, manifests, |rows|)
                             == manifests + [Block(digest, rows, |rows| / MANIFEST_INTERVAL - 1)]
  {
    RangeIsSlice(rows, Some(|rows| - MANIFEST_INTERVAL + 1), Some(|rows|));
  }

  // ---------- tamper evidence ----------

  // 64 hexadecimal digits, as SHA-256 is written.
  predicate IsHexDigest(s: string) {
    |s| == 64 && forall c :: c in s ==> '0' <= c <= '9' || 'a' <= c <= 'f'
  }

  ghost predicate WritesHex(digest: Digest) {
    forall s :: IsHexDigest(digest(s))
  }

  predicate IsLink(prev: string) { prev == GENESIS || IsHexDigest(prev) }

  // What a text that begins with a link begins with.
  lemma LinkBegins(link: string, rest: string)
    requires IsLink(link)
    ensures (link + rest)[..|link|] == link && (link + rest)[|link|..] == rest
    ensures link == GENESIS <==> (link + rest)[0] == 'G'
  {
    assert (link + rest)[0] == link[0] && link[0] in link;
  }

  /** What is hashed splits in one way only, whatever the payloads: a link is either "GENESIS" or 64
      hexadecimal digits, and 'G' is none. */
  lemma HashedTextSplits(prev: string, payload: string, prev': string, payload': string)
    requires IsLink(prev) && IsLink(prev')
    requires prev + payload == prev' + payload'
    ensures prev == prev' && payload == payload'
  {
    LinkBegins(prev, payload);
    LinkBegins(prev', payload');
  }

  // ---------- what manifests cover ----------

  /** The hashes of the rows, one after another, 64 characters each, and nothing else. */
  ghost predicate Lists(text: string, rows: seq<Row>) {
    && |text| == 64 * |rows|
    && forall k: nat :: k < |rows| ==> text[64 * k..64 * (k + 1)] == rows[k].rowHash
  }

  ghost predicate HashesAreLong(rows: seq<Row>) {
    forall k :: 0 <= k < |rows| ==> |rows[k].rowHash| == 64
  }

  lemma {:induction false} ConcatenatedLists(rows: seq<Row>)
    requires HashesAreLong(rows)
    ensures Lists(Concatenated(rows), rows)
  {
    if rows != [] {
      var n: nat := |rows| - 1;
      var (before, text) := (Concatenated(rows[..n]), Concatenated(rows));
      ConcatenatedLists(rows[..n]);
      forall k: nat | k <= n
        ensures text[64 * k..64 * (k + 1)] == rows[k].rowHash
      {
        if k < n {
          assert text[64 * k..64 * (k + 1)] == before[64 * k..64 * (k + 1)];
          assert rows[..n][k] == rows[k];
        }
      }
    }
  }

  // A text lists the hashes of one block only.
  lemma ListsOnce(text: string, a: seq<Row>, b: seq<Row>)
    requires Lists(text, a) && Lists(text, b)
    ensures |a| == |b| && forall k :: 0 <= k < |a| ==> a[k].rowHash == b[k].rowHash
  {
  }

  lemma RecordedHashesAreLong(digest: Digest, payloads: seq<string>)
    requires WritesHex(digest)
    ensures HashesAreLong(Recorded(digest, payloads).rows)
  {
    var rows := Recorded(digest, payloads).rows;
    RecordedIsClean(digest, payloads);
    forall k | 0 <= k < |rows|
      ensures |rows[k].rowHash| == 64
    {
      assert Linked(digest, GENESIS, rows, k);
      assert IsHexDigest(digest(rows[k].prevHash + rows[k].payload));
    }
  }

  // The manifest hashes the list of the row hashes of these rows.
  ghost predicate Covers(digest: Digest, m: Manifest, rows: seq<Row>) {
    exists text :: Lists(text, rows) && m.hash == digest(text)
  }

  /** After n events there is one manifest for each full block of 1000, they tile the ids from 1, and each
      hashes the list of the row hashes of its block. */
  lemma ManifestsTile(digest: Digest, payloads: seq<string>)
    ensures var (rows, manifests) := (Recorded(digest, payloads).rows, Recorded(digest, payloads).manifests);
            && |rows| == |payloads| && |manifests| == |payloads| / 1000
            && forall k: nat :: k < |manifests| ==>
                 && manifests[k].start == 1000 * k + 1 && manifests[k].end == 1000 * (k + 1)
                 && (WritesHex(digest) ==> Covers(digest, manifests[k], rows[1000 * k..1000 * (k + 1)]))
  {
    hide WritesHex, Covers, Recorded;
    var (rows, manifests) := (Recorded(digest, payloads).rows, Recorded(digest, payloads).manifests);
    ManifestsAreBlocks(digest, payloads);
    if WritesHex(digest) {
      RecordedHashesAreLong(digest, payloads);
      forall k: nat | k < |manifests|
        ensures Covers(digest, manifests[k], rows[1000 * k..1000 * (k + 1)])
      {
        assert manifests[k] == Block(digest, rows, k);
        BlockCovers(digest, rows, k);
      }
    }
  }

  lemma BlockCovers(digest: Digest, rows: seq<Row>, k: nat)
    requires 1000 * (k + 1) <= |rows| && HashesAreLong(rows)
    ensures Covers(digest, Block(digest, rows, k), rows[1000 * k..1000 * (k + 1)])
  {
    var block := rows[1000 * k..1000 * (k + 1)];
    assert HashesAreLong(block);
    ConcatenatedLists(block);
  }

  /** Manifests are tamper evident: if two of them agree in their hash, the rows they cover agree in their
      row hashes, or the two texts that list these are a collision. */
  lemma ManifestTamperEvident(digest: Digest, m: Manifest, a: seq<Row>, m': Manifest, b: seq<Row>)
    returns (x: string, y: string)
    requires Covers(digest, m, a) && Covers(digest, m', b) && m.hash == m'.hash
    ensures Lists(x, a) && Lists(y, b)
    ensures || (|a| == |b| && forall k :: 0 <= k < |a| ==> a[k].rowHash == b[k].rowHash)
            || (x != y && digest(x) == digest(y))
  {
    x :| Lists(x, a) && m.hash == digest(x);
    y :| Lists(y, b) && m'.hash == digest(y);
    if x == y {
      ListsOnce(x, a, b);
    }
  }

  function HashedText(row: Row): string { row.prevHash + row.payload }

  ghost predicate Collide(digest: Digest, a: Row, b: Row) {
    HashedText(a) != HashedText(b) && digest(HashedText(a)) == digest(HashedText(b))
  }

  // Equal but for the ids, which the chain does not cover.
  ghost predicate SameContents(a: seq<Row>, b: seq<Row>) {
    |a| == |b| && forall k :: 0 <= k < |a| ==> a[k] == b[k].(id := a[k].id)
  }

  // Without its last row a clean chain is clean, and ends in what that row names.
  lemma CleanInit(digest: Digest, rows: seq<Row>)
    requires Clean(digest, GENESIS, rows) && rows != []
    ensures var (before, last) := (rows[..|rows| - 1], rows[|rows| - 1]);
            && Clean(digest, GENESIS, before) && last.prevHash == LastHash(before)
            && last.rowHash == digest(HashedText(last))
  {
    var before := rows[..|rows| - 1];
    forall k | 0 <= k < |before|
      ensures Linked(digest, GENESIS, before, k)
    {
      assert Linked(digest, GENESIS, rows, k);
    }
    assert Linked(digest, GENESIS, rows, |rows| - 1);
  }

  lemma LastHashIsLink(digest: Digest, rows: seq<Row>)
    requires WritesHex(digest) && Clean(digest, GENESIS, rows)
    ensures IsLink(LastHash(rows)) && (LastHash(rows) == GENESIS <==> rows == [])
  {
    if rows != [] {
      CleanInit(digest, rows);
      assert IsHexDigest(digest(HashedText(rows[|rows| - 1])));
    }
  }

  lemma {:induction false} WholeRange(rows: seq<Row>)
    ensures InRange(rows, None, None) == rows
  {
    if rows != [] {
      WholeRange(rows[..|rows| - 1]);
    }
  }

  /** The verifier reports nothing broken on the whole table. */
  predicate VerifiesClean(digest: Digest, rows: seq<Row>) {
    var r := Verified(digest, rows, None, None);
    r.Success? && r.value.brokenRows == 0
  }

  lemma VerifiesCleanIffClean(digest: Digest, rows: seq<Row>)
    ensures VerifiesClean(digest, rows) <==> Clean(digest, GENESIS, rows)
  {
    WholeRange(rows);
    NoMismatchIffClean(digest, GENESIS, rows);
  }

  /** Tamper evidence: two tables on which the verifier reports nothing broken and which end in the same
      hash hold the same payloads and hashes, or two of the texts they hash are an explicit collision.
      The payloads may be any texts. */
  lemma TamperEvident(digest: Digest, a: seq<Row>, b: seq<Row>)
    requires WritesHex(digest)
    requires VerifiesClean(digest, a) && VerifiesClean(digest, b) && LastHash(a) == LastHash(b)
    ensures SameContents(a, b) || SomeCollision(digest, a, b)
  {
    VerifiesCleanIffClean(digest, a);
    VerifiesCleanIffClean(digest, b);
    CleanTamperEvident(digest, a, b);
  }

  // The last rows of two such tables: they collide, or agree and so does what is before them.
  lemma LastRowsAgree(digest: Digest, a: seq<Row>, b: seq<Row>)
    requires WritesHex(digest)
    requires Clean(digest, GENESIS, a) && Clean(digest, GENESIS, b)
    requires LastHash(a) == LastHash(b) && a != [] && b != []
    requires !Collide(digest, a[|a| - 1], b[|b| - 1])
    ensures var (m, n) := (|a| - 1, |b| - 1);
            && LastHash(a[..m]) == LastHash(b[..n]) && a[m] == b[n].(id := a[m].id)
            && Clean(digest, GENESIS, a[..m]) && Clean(digest, GENESIS, b[..n])
  {
    var (m, n) := (|a| - 1, |b| - 1);
    CleanInit(digest, a);
    CleanInit(digest, b);
    LastHashIsLink(digest, a[..m]);
    LastHashIsLink(digest, b[..n]);
    HashedTextSplits(a[m].prevHash, a[m].payload, b[n].prevHash, b[n].payload);
  }

  ghost predicate SomeCollision(digest: Digest, a: seq<Row>, b: seq<Row>) {
    exists i, j :: 0 <= i < |a| && 0 <= j < |b| && Collide(digest, a[i], b[j])
  }

  lemma {:induction false} CleanTamperEvident(digest: Digest, a: seq<Row>, b: seq<Row>)
    requires WritesHex(digest)
    requires Clean(digest, GENESIS, a) && Clean(digest, GENESIS, b) && LastHash(a) == LastHash(b)
    ensures SameContents(a, b) || SomeCollision(digest, a, b)
    decreases |a|
  {
    LastHashIsLink(digest, a);
    LastHashIsLink(digest, b);
    if a != [] && !Collide(digest, a[|a| - 1], b[|b| - 1]) {
      var (a', b') := (a[..|a| - 1], b[..|b| - 1]);
      LastRowsAgree(digest, a, b);
      CleanTamperEvident(digest, a', b');
      if !SameContents(a', b') {
        var i, j :| 0 <= i < |a'| && 0 <= j < |b'| && Collide(digest, a'[i], b'[j]);
        assert Collide(digest, a[i], b[j]);
      }
    }
  }

  lemma {:induction false} MismatchIsReported(digest: Digest, first: string, rows: seq<Row>, k: nat, n: nat, m: Mismatch)
    requires k < n <= |rows| && m in RowMismatches(digest, ExpectedAt(first, rows, k), rows[k])
    ensures m in MismatchesUpTo(digest, first, rows, n)
    decreases n
  {
    hide RowMismatches, ExpectedAt;
    if k < n - 1 {
      MismatchIsReported(digest, first, rows, k, n - 1, m);
    }
  }

  /** Altering one payload of a clean table is reported at that row, or is an explicit collision with
      the original. */
  lemma AlteredPayloadIsReported(digest: Digest, rows: seq<Row>, k: nat, payload: string)
    requires Clean(digest, GENESIS, rows) && k < |rows| && payload != rows[k].payload
    ensures var altered := rows[k := rows[k].(payload := payload)];
            || RowHashMismatch(rows[k].id) in Mismatches(digest, GENESIS, altered)
            || Collide(digest, rows[k], altered[k])
  {
    var altered := rows[k := rows[k].(payload := payload)];
    assert Linked(digest, GENESIS, rows, k);
    assert HashedText(altered[k])[|rows[k].prevHash|..] == payload;
    assert HashedText(rows[k])[|rows[k].prevHash|..] == rows[k].payload;
    if !Collide(digest, rows[k], altered[k]) {
      MismatchIsReported(digest, GENESIS, altered, k, |altered|, RowHashMismatch(rows[k].id));
    }
  }
}
