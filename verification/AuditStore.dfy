/** src/audit/mod.rs: the audit table as an append-only hash chain, its range verifier and its
    manifests. SHA-256 in hexadecimal is a parameter: any function on texts. */
module AuditStore {
  import opened Strings
  import opened SandboxAbi

  // The columns the chain is made of. Payloads are JSON objects, opaque here.
  datatype Row = Row(id: int, prevHash: string, rowHash: string, payload: string)
  datatype Manifest = Manifest(start: int, end: int, hash: string)

  datatype Mismatch = PrevHashMismatch(id: int) | RowHashMismatch(id: int)
  datatype Report = Report(checkedRows: nat, brokenRows: nat, details: seq<Mismatch>)
  datatype AuditError = ReadOnly | MissingRow(id: int)

  type Digest = string -> string

  const GENESIS := "GENESIS"
  const MANIFEST_INTERVAL := 1000

  // Event ids are a table's unique primary key, read in ascending order.
  ghost predicate Keyed(rows: seq<Row>) {
    forall i, j :: 0 <= i < j < |rows| ==> rows[i].id < rows[j].id
  }

  /** `compute_row_hash`. */
  function ComputeRowHash(digest: Digest, prevHash: string, payload: string): string {
    digest(prevHash + payload)
  }

  function LastHash(rows: seq<Row>): string {
    if rows == [] then GENESIS else rows[|rows| - 1].rowHash
  }

  // SQLite's next row id.
  function NextId(rows: seq<Row>): int {
    if rows == [] then 1 else rows[|rows| - 1].id + 1
  }

  function Chained(digest: Digest, rows: seq<Row>, payload: string): Row {
    Row(NextId(rows), LastHash(rows), ComputeRowHash(digest, LastHash(rows), payload), payload)
  }

  predicate IsInRange(id: int, from: Option<int>, to: Option<int>) {
    (from == None || from.value <= id) && (to == None || id <= to.value)
  }

  /** The rows with ids from `from` to `to`. */
  function InRange(rows: seq<Row>, from: Option<int>, to: Option<int>): seq<Row> {
    if rows == [] then []
    else
      var (before, last) := (rows[..|rows| - 1], rows[|rows| - 1]);
      if IsInRange(last.id, from, to) then InRange(before, from, to) + [last] else InRange(before, from, to)
  }

  function Concatenated(rows: seq<Row>): string {
    if rows == [] then "" else Concatenated(rows[..|rows| - 1]) + rows[|rows| - 1].rowHash
  }

  function ManifestsAfter(digest: Digest, rows: seq<Row>, manifests: seq<Manifest>, lastId: int): seq<Manifest> {
    if lastId % MANIFEST_INTERVAL != 0 then manifests
    else
      var start := lastId - MANIFEST_INTERVAL + 1;
      manifests + [Manifest(start, lastId, digest(Concatenated(InRange(rows, Some(start), Some(lastId)))))]
  }

  // ---------- verification ----------

  function RowHashOf(rows: seq<Row>, id: int): Option<string> {
    if rows == [] then None
    else
      var (before, last) := (rows[..|rows| - 1], rows[|rows| - 1]);
      if last.id == id then Some(last.rowHash) else RowHashOf(before, id)
  }

  // What the first row of a range has to name as its predecessor's hash.
  function ExpectedFirst(rows: seq<Row>, from: Option<int>): Result<string, AuditError> {
    if from == None || from.value <= 1 then Success(GENESIS)
    else
      match RowHashOf(rows, from.value - 1)
      case None => Failure(MissingRow(from.value - 1))
      case Some(hash) => Success(hash)
  }

  function RowMismatches(digest: Digest, expected: string, row: Row): seq<Mismatch> {
    (if row.prevHash != expected then [PrevHashMismatch(row.id)] else [])
    + (if ComputeRowHash(digest, row.prevHash, row.payload) != row.rowHash then [RowHashMismatch(row.id)] else [])
  }

  function ExpectedAt(first: string, rows: seq<Row>, k: nat): string
    requires k <= |rows|
  {
    if k == 0 then first else rows[k - 1].rowHash
  }

  // The mismatches of the first `n` rows.
  function MismatchesUpTo(digest: Digest, first: string, rows: seq<Row>, n: nat): seq<Mismatch>
    requires n <= |rows|
    decreases n
  {
    if n == 0 then []
    else
      MismatchesUpTo(digest, first, rows, n - 1)
      + RowMismatches(digest, ExpectedAt(first, rows, n - 1), rows[n - 1])
  }

  function Mismatches(digest: Digest, first: string, rows: seq<Row>): seq<Mismatch> {
    MismatchesUpTo(digest, first, rows, |rows|)
  }

  /** What `verify` reports on a range of a table. */
  function Verified(digest: Digest, rows: seq<Row>, from: Option<int>, to: Option<int>): Result<Report, AuditError> {
    match ExpectedFirst(rows, from)
    case Failure(error) => Failure(error)
    case Success(expected) =>
      var chosen := InRange(rows, from, to);
      var details := Mismatches(digest, expected, chosen);
      Success(Report(|chosen|, |details|, details))
  }

  class Store {
    const digest: Digest
    const readOnly: bool
    var rows: seq<Row>
    var manifests: seq<Manifest>

    constructor (digest: Digest)
      ensures this.digest == digest && !readOnly && rows == [] && manifests == []
    {
      this.digest := digest;
      readOnly := false;
      rows := [];
      manifests := [];
    }

    // A read-only connection to the table of another store.
    constructor OpenReadOnly(store: Store)
      ensures digest == store.digest && readOnly && rows == store.rows && manifests == store.manifests
    {
      digest := store.digest;
      readOnly := true;
      rows := store.rows;
      manifests := store.manifests;
    }

    method RecordEvent(payload: string) returns (r: Result<int, AuditError>)
      modifies this
      ensures readOnly ==> r == Failure(ReadOnly) && rows == old(rows) && manifests == old(manifests)
      ensures !readOnly ==> r == Success(NextId(old(rows)))
      ensures !readOnly ==> rows == old(rows) + [Chained(digest, old(rows), payload)]
      ensures !readOnly ==> manifests == ManifestsAfter(digest, rows, old(manifests), NextId(old(rows)))
    {
      if readOnly {
        return Failure(ReadOnly);
      }
      var prevHash := if rows == [] then GENESIS else rows[|rows| - 1].rowHash;
      var rowHash := ComputeRowHash(digest, prevHash, payload);
      var id := NextId(rows);
      rows := rows + [Row(id, prevHash, rowHash, payload)];
      MaybeCreateManifest(id);
      return Success(id);
    }

    method MaybeCreateManifest(lastId: int)
      modifies this`manifests
      ensures manifests == ManifestsAfter(digest, rows, old(manifests), lastId)
    {
      if lastId % MANIFEST_INTERVAL != 0 {
        return;
      }
      var start := lastId - MANIFEST_INTERVAL + 1;
      var chosen := InRange(rows, Some(start), Some(lastId));
      var concatenated := "";
      for next := 0 to |chosen|
        invariant concatenated == Concatenated(chosen[..next])
      {
        assert chosen[..next + 1][..next] == chosen[..next];
        concatenated := concatenated + chosen[next].rowHash;
      }
      assert chosen[..|chosen|] == chosen;
      manifests := manifests + [Manifest(start, lastId, digest(concatenated))];
    }

    method Verify(from: Option<int>, to: Option<int>) returns (r: Result<Report, AuditError>)
      ensures r == Verified(digest, rows, from, to)
    {
      var expectedPrev := GENESIS;
      if from.Some? && from.value > 1 {
        var found := RowHashOf(rows, from.value - 1);
        if found == None {
          return Failure(MissingRow(from.value - 1));
        }
        expectedPrev := found.value;
      }
      var chosen := InRange(rows, from, to);
      var report := CheckRows(expectedPrev, chosen);
      return Success(report);
    }

    method CheckRows(first: string, chosen: seq<Row>) returns (report: Report)
      ensures var details := Mismatches(digest, first, chosen); report == Report(|chosen|, |details|, details)
    {
      var expectedPrev, checked, broken, details := first, 0, 0, [];
      while checked < |chosen|
        invariant checked <= |chosen| && expectedPrev == ExpectedAt(first, chosen, checked)
        invariant details == MismatchesUpTo(digest, first, chosen, checked) && broken == |details|
      {
        var row := chosen[checked];
        checked := checked + 1;
        if row.prevHash != expectedPrev {
          broken := broken + 1;
          details := details + [PrevHashMismatch(row.id)];
        }
        if ComputeRowHash(digest, row.prevHash, row.payload) != row.rowHash {
          broken := broken + 1;
          details := details + [RowHashMismatch(row.id)];
        }
        expectedPrev := row.rowHash;
      }
      return Report(checked, broken, details);
    }
  }
}
