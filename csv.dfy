/**
  The row loop of POST /uploadCSV (redis-backend/server.js): rows without a Surname
  are skipped; every other row takes the next resident identifier and becomes a
  resident hash, whose writes are queued and run together at the end.
  Rows arrive already parsed, as maps from column header to cell.
*/
module Csv {
  import opened Wrappers
  import opened Text
  import opened Ids
  import opened Age
  import opened Redis
  import opened Seqs

  type Row = map<string, string>

  /** A cell of the row; a column the row lacks reads as an empty cell. */
  function Cell(row: Row, column: string): string {
    if column in row then row[column] else ""
  }

  predicate Accepted(row: Row) {
    Cell(row, "Surname") != ""
  }

  /** `calculateAge(resident.Birthdate) || 0`, with the date parser a parameter. */
  function RowAge(row: Row, today: Date, parse: string -> Option<Date>): int {
    CalculateAge(today, parse(Cell(row, "Birthdate"))).GetOr(0)
  }

  /** The residentData object built from a row. */
  function Record(row: Row, id: string, age: int): map<string, string> {
    map[
      "id" := id,
      "surname" := Cell(row, "Surname"),
      "firstName" := Cell(row, "First Name"),
      "middleName" := Cell(row, "Middle Name"),
      "gender" := Cell(row, "Gender"),
      "birthdate" := Cell(row, "Birthdate"),
      "age" := IntToString(age),
      "birthplace" := Cell(row, "Birthplace"),
      "purok" := Cell(row, "Purok"),
      "maritalStatus" := Cell(row, "Marital Status"),
      "totalHouseholdMembers" := Cell(row, "Total Household Members"),
      "bloodType" := Cell(row, "Blood Type"),
      "occupation" := Cell(row, "Occupation"),
      "lengthOfStay" := Cell(row, "Length of Stay"),
      "monthlyIncome" := Cell(row, "Monthly Income")
    ]
  }

  /** One queued resident: its key and its fields. */
  datatype Write = Write(key: string, fields: map<string, string>)

  /** The write queued for an accepted row when the counter yields n. */
  function Queued(row: Row, year: nat, today: Date, parse: string -> Option<Date>, n: nat): Write {
    var id := FormatId(year, n, ResidentWidth);
    Write(ResidentKey(id), Record(row, id, RowAge(row, today, parse)))
  }

  function QueuedAs(year: nat, today: Date, parse: string -> Option<Date>): (Row, nat) -> Write {
    (row: Row, n: nat) => Queued(row, year, today, parse, n)
  }

  /** The writes the loop queues for rows, the resident counter standing at start. */
  function Writes(rows: seq<Row>, year: nat, today: Date, parse: string -> Option<Date>, start: nat): (w: seq<Write>)
    ensures |w| <= |rows|
  {
    Numbered(rows, Accepted, QueuedAs(year, today, parse), start)
  }

  /** MULTI/EXEC of the queued writes, in queue order. */
  function ApplyWrites(hs: Keyspace, w: seq<Write>): Keyspace {
    if w == [] then hs
    else Merge(ApplyWrites(hs, w[..|w| - 1]), w[|w| - 1].key, Strs(w[|w| - 1].fields))
  }

  /** The k-th queued write is the k-th accepted row, stored under the k-th identifier
      after start. */
  lemma WritesAreAcceptedRows(rows: seq<Row>, year: nat, today: Date,
                              parse: string -> Option<Date>, start: nat)
    ensures |Writes(rows, year, today, parse, start)| == |Keep(rows, Accepted)|
    ensures forall k :: 0 <= k < |Keep(rows, Accepted)| ==>
              Writes(rows, year, today, parse, start)[k] ==
                Queued(Keep(rows, Accepted)[k], year, today, parse, start + k + 1)
  {
    NumberedCount(rows, Accepted, QueuedAs(year, today, parse), start);
    forall k | 0 <= k < |Keep(rows, Accepted)|
      ensures Writes(rows, year, today, parse, start)[k] ==
                Queued(Keep(rows, Accepted)[k], year, today, parse, start + k + 1)
    {
      WriteAt(rows, year, today, parse, start, k);
    }
  }

  lemma WriteAt(rows: seq<Row>, year: nat, today: Date, parse: string -> Option<Date>, start: nat, k: nat)
    requires k < |Keep(rows, Accepted)|
    ensures k < |Writes(rows, year, today, parse, start)|
    ensures Writes(rows, year, today, parse, start)[k] == Queued(Keep(rows, Accepted)[k], year, today, parse, start + k + 1)
  {
    var x, n := Keep(rows, Accepted)[k], start + k + 1;
    QueuedAsQueued(year, today, parse, x, n);
    NumberedAtIs(rows, Accepted, QueuedAs(year, today, parse), start, k, Queued(x, year, today, parse, n));
  }

  /** The write function handed to the numbering is the queued write itself. */
  lemma QueuedAsQueued(year: nat, today: Date, parse: string -> Option<Date>, row: Row, n: nat)
    ensures QueuedAs(year, today, parse)(row, n) == Queued(row, year, today, parse, n)
  {
  }

  /** The loop, one row further: an accepted row queues one more write, under the
      identifier after those already queued. */
  lemma WritesSnoc(rows: seq<Row>, row: Row, year: nat, today: Date,
                   parse: string -> Option<Date>, start: nat)
    ensures Writes(rows + [row], year, today, parse, start) ==
              Writes(rows, year, today, parse, start) +
                (if Accepted(row)
                 then [Queued(row, year, today, parse, start + |Writes(rows, year, today, parse, start)| + 1)]
                 else [])
  {
    NumberedSnoc(rows, row, Accepted, QueuedAs(year, today, parse), start);
    NumberedCount(rows, Accepted, QueuedAs(year, today, parse), start);
  }

  /** The loop's step from the first i rows to the first i + 1. */
  lemma WritesStep(rows: seq<Row>, i: nat, year: nat, today: Date, parse: string -> Option<Date>, start: nat)
    requires i < |rows|
    ensures Writes(rows[..i + 1], year, today, parse, start) ==
              Writes(rows[..i], year, today, parse, start) +
                (if Accepted(rows[i])
                 then [Queued(rows[i], year, today, parse, start + |Writes(rows[..i], year, today, parse, start)| + 1)]
                 else [])
  {
    assert rows[..i + 1] == rows[..i] + [rows[i]];
    WritesSnoc(rows[..i], rows[i], year, today, parse, start);
  }

  lemma ResidentKeyInjective(a: string, b: string)
    ensures ResidentKey(a) == ResidentKey(b) <==> a == b
  {
    if ResidentKey(a) == ResidentKey(b) {
      assert a == ResidentKey(a)[9..];
    }
  }

  /** The k-th queued write goes to the k-th resident identifier after start. */
  lemma WriteKey(rows: seq<Row>, year: nat, today: Date, parse: string -> Option<Date>, start: nat, k: nat)
    requires k < |Writes(rows, year, today, parse, start)|
    ensures Writes(rows, year, today, parse, start)[k].key == ResidentKey(FormatId(year, start + k + 1, ResidentWidth))
  {
    NumberedCount(rows, Accepted, QueuedAs(year, today, parse), start);
    NumberedAt(rows, Accepted, QueuedAs(year, today, parse), start, k);
  }

  /** No two rows of an upload are stored under the same key. */
  lemma WritesHaveDistinctKeys(rows: seq<Row>, year: nat, today: Date, parse: string -> Option<Date>, start: nat)
    ensures Distinct(seq(|Writes(rows, year, today, parse, start)|,
                         i requires 0 <= i < |Writes(rows, year, today, parse, start)| =>
                           Writes(rows, year, today, parse, start)[i].key))
  {
    var w := Writes(rows, year, today, parse, start);
    forall i, j | 0 <= i < j < |w| ensures w[i].key != w[j].key {
      var a, b := FormatId(year, start + i + 1, ResidentWidth), FormatId(year, start + j + 1, ResidentWidth);
      WriteKey(rows, year, today, parse, start, i);
      WriteKey(rows, year, today, parse, start, j);
      FormatIdInjective(year, start + i + 1, year, start + j + 1, ResidentWidth);
      ResidentKeyInjective(a, b);
    }
  }

  /** An upload of rows that all lack a surname queues nothing. */
  lemma NoSurnameNoWrites(rows: seq<Row>, year: nat, today: Date, parse: string -> Option<Date>, start: nat)
    requires forall i :: 0 <= i < |rows| ==> !Accepted(rows[i])
    ensures Writes(rows, year, today, parse, start) == []
  {
    WritesAreAcceptedRows(rows, year, today, parse, start);
    KeepNone(rows, Accepted);
  }

  /** An unparsable birthdate stores age 0. */
  lemma InvalidBirthdateStoresZero(row: Row, today: Date, parse: string -> Option<Date>)
    requires parse(Cell(row, "Birthdate")).None?
    ensures IntToString(RowAge(row, today, parse)) == "0"
  {
  }

  /** Every queued write goes to a resident key. */
  lemma WritesAreResidents(rows: seq<Row>, year: nat, today: Date, parse: string -> Option<Date>, start: nat)
    ensures forall i :: 0 <= i < |Writes(rows, year, today, parse, start)| ==>
              StartsWith(Writes(rows, year, today, parse, start)[i].key, "resident:")
  {
    WritesAreAcceptedRows(rows, year, today, parse, start);
    forall i | 0 <= i < |Writes(rows, year, today, parse, start)|
      ensures StartsWith(Writes(rows, year, today, parse, start)[i].key, "resident:")
    {
      var id := FormatId(year, start + i + 1, ResidentWidth);
      assert ResidentKey(id)[..9] == "resident:";
    }
  }
}
