/** The scholarship record and the two operations that `MainClient` and
    `ScholarshipClient` each define with the same code: turning the records
    of the scholarship CSV into `Scholarship` values (`readCSV`), and the
    degree/location query (`filterScholarships`).  The two copies of
    `readCSV` differ only in the column the location is taken from, so the
    reader here takes that column as a parameter. */
module Scholarships {
  import opened Seqs
  import opened Text

  /** One scholarship; `amount` is kept as the raw text of its column. */
  datatype Scholarship = Scholarship(name: string, degree: string, amount: string, location: string)

  /** What `CSVReader.readAll` hands back: the records of the file, or a
      failure to open or parse it (`IOException`, `CsvException`). */
  datatype CsvRead = Records(rows: seq<seq<string>>) | ReadFailed

  /** The runtime exceptions that escape `readCSV`, whose `catch` names only
      `IOException` and `CsvException`. */
  datatype Uncaught =
    | IndexOutOfBounds       // `records.remove(0)` on a file without records
    | ArrayIndexOutOfBounds  // `record[locationColumn]` past the end of a record

  /** How `readCSV` ends: with the list it built, or with an uncaught exception. */
  datatype ReadResult = Loaded(scholarships: seq<Scholarship>) | Threw(exception: Uncaught)

  /** The record-length guard of `readCSV`: at least 5 fields. */
  const MinFields: nat := 5

  predicate IsFullRecord(record: seq<string>)
  {
    |record| >= MinFields
  }

  /** A record that passes the length guard but is too short for the location column. */
  predicate Overruns(record: seq<string>, locationColumn: nat)
  {
    IsFullRecord(record) && locationColumn >= |record|
  }

  function FieldAt(record: seq<string>, i: nat): string
  {
    if i < |record| then record[i] else ""
  }

  /** The column mapping: name, degree and amount from fields 1, 2 and 3,
      location from `locationColumn`.  Only ever applied to records that
      have all these fields (see `LoadedFields`). */
  function ToScholarship(locationColumn: nat): seq<string> -> Scholarship
  {
    record => Scholarship(FieldAt(record, 1), FieldAt(record, 2), FieldAt(record, 3), FieldAt(record, locationColumn))
  }

  /** What `readCSV` computes from what the reader returned, stated without
      its loop: a failed read yields no scholarships; otherwise the first
      record is dropped as the header (and its absence throws), a data record
      that passes the guard but lacks the location column throws, and
      otherwise every data record with at least 5 fields is mapped, in order. */
  function Load(read: CsvRead, locationColumn: nat): ReadResult
  {
    match read
    case ReadFailed => Loaded([])
    case Records(rows) =>
      if rows == [] then Threw(IndexOutOfBounds)
      else if exists record :: record in rows[1..] && Overruns(record, locationColumn) then Threw(ArrayIndexOutOfBounds)
      else Loaded(Map(Filter(rows[1..], IsFullRecord), ToScholarship(locationColumn)))
  }

  /** `readCSV`: drop the header, then walk the data records and append one
      scholarship for every record with at least 5 fields. */
  method ReadRecords(read: CsvRead, locationColumn: nat) returns (r: ReadResult)
    ensures r == Load(read, locationColumn)
  {
    if read.ReadFailed? {
      return Loaded([]);
    }
    var rows := read.rows;
    if rows == [] {
      return Threw(IndexOutOfBounds);
    }
    var records := rows[1..];
    var scholarships: seq<Scholarship> := [];
    var i := 0;
    while i < |records|
      invariant 0 <= i <= |records|
      invariant forall record :: record in records[..i] ==> !Overruns(record, locationColumn)
      invariant scholarships == Map(Filter(records[..i], IsFullRecord), ToScholarship(locationColumn))
    {
      var record := records[i];
      if |record| >= MinFields {
        if locationColumn >= |record| {
          assert record in records && Overruns(record, locationColumn);
          return Threw(ArrayIndexOutOfBounds);
        }
        scholarships := scholarships + [Scholarship(record[1], record[2], record[3], record[locationColumn])];
      }
      assert records[..i + 1] == records[..i] + [record];
      FilterSnoc(records[..i], record, IsFullRecord);
      i := i + 1;
    }
    assert records[..i] == records;
    return Loaded(scholarships);
  }

  /** The first record never reaches the result, whatever it holds. */
  lemma LoadIgnoresHeader(header1: seq<string>, header2: seq<string>, data: seq<seq<string>>, locationColumn: nat)
    ensures Load(Records([header1] + data), locationColumn) == Load(Records([header2] + data), locationColumn)
  {
    assert ([header1] + data)[1..] == data == ([header2] + data)[1..];
  }

  /** A file without any record makes `remove(0)` throw; a failed read gives an empty list. */
  lemma LoadEdgeCases(locationColumn: nat)
    ensures Load(Records([]), locationColumn) == Threw(IndexOutOfBounds)
    ensures Load(ReadFailed, locationColumn) == Loaded([])
  {
  }

  /** A load that succeeds yields exactly one scholarship per data record with
      at least 5 fields, in order, each holding fields 1, 2, 3 and the
      location column of its record. */
  lemma LoadedFields(rows: seq<seq<string>>, locationColumn: nat)
    requires Load(Records(rows), locationColumn).Loaded?
    ensures var data := Filter(rows[1..], IsFullRecord);
            var loaded := Load(Records(rows), locationColumn).scholarships;
            |loaded| == |data| &&
            forall k :: 0 <= k < |data| ==>
              MinFields <= |data[k]| && locationColumn < |data[k]| &&
              loaded[k] == Scholarship(data[k][1], data[k][2], data[k][3], data[k][locationColumn])
  {
    var data := Filter(rows[1..], IsFullRecord);
    FilterSound(rows[1..], IsFullRecord);
  }

  /** A record with fewer than 5 fields is skipped without error, wherever it stands. */
  lemma LoadSkipsShortRecord(rows: seq<seq<string>>, short: seq<string>, rest: seq<seq<string>>, locationColumn: nat)
    requires rows != [] && |short| < MinFields
    ensures Load(Records(rows + [short] + rest), locationColumn) == Load(Records(rows + rest), locationColumn)
  {
    var with := rows + [short] + rest;
    var without := rows + rest;
    assert with[1..] == rows[1..] + [short] + rest;
    assert without[1..] == rows[1..] + rest;
    FilterAppend(rows[1..] + [short], rest, IsFullRecord);
    FilterAppend(rows[1..], [short], IsFullRecord);
    FilterAppend(rows[1..], rest, IsFullRecord);
    assert Filter([short], IsFullRecord) == [];
    assert forall record :: record in with[1..] <==> record in without[1..] || record == short;
  }

  // ---------------------------------------------------------------------
  // filterScholarships

  /** The token that matches every value of a field, in any letter case. */
  const Wildcard: string := "all"

  /** One half of the query: the wildcard, or a case-insensitive substring of the field. */
  predicate FieldMatches(field: string, query: string)
  {
    EqualsIgnoreCase(query, Wildcard) || Contains(Lower(field), Lower(query))
  }

  /** `matchesDegree && matchesLocation`. */
  predicate Matches(s: Scholarship, degree: string, location: string)
  {
    FieldMatches(s.degree, degree) && FieldMatches(s.location, location)
  }

  function Query(degree: string, location: string): Scholarship -> bool
  {
    s => Matches(s, degree, location)
  }

  /** `filterScholarships`: the scholarships matching both halves of the query,
      in list order; with "all" for both it returns the list unchanged. */
  method FilterScholarships(scholarships: seq<Scholarship>, degree: string, location: string)
    returns (filtered: seq<Scholarship>)
    ensures filtered == Filter(scholarships, Query(degree, location))
    ensures forall s :: s in filtered <==> s in scholarships && Matches(s, degree, location)
    ensures IsSubsequence(filtered, scholarships)
    ensures EqualsIgnoreCase(degree, Wildcard) && EqualsIgnoreCase(location, Wildcard) ==> filtered == scholarships
  {
    filtered := [];
    var i := 0;
    while i < |scholarships|
      invariant 0 <= i <= |scholarships|
      invariant filtered == Filter(scholarships[..i], Query(degree, location))
    {
      var scholarship := scholarships[i];
      var matchesDegree := EqualsIgnoreCase(degree, Wildcard) || Contains(Lower(scholarship.degree), Lower(degree));
      var matchesLocation := EqualsIgnoreCase(location, Wildcard) || Contains(Lower(scholarship.location), Lower(location));
      if matchesDegree && matchesLocation {
        filtered := filtered + [scholarship];
      }
      assert scholarships[..i + 1] == scholarships[..i] + [scholarship];
      FilterSnoc(scholarships[..i], scholarship, Query(degree, location));
      i := i + 1;
    }
    assert scholarships[..i] == scholarships;
    FilterMembers(scholarships, Query(degree, location));
    FilterIsSubsequence(scholarships, Query(degree, location));
    if EqualsIgnoreCase(degree, Wildcard) && EqualsIgnoreCase(location, Wildcard) {
      FilterKeepsAll(scholarships, Query(degree, location));
    }
  }

  /** Every scholarship that matches is kept as many times as it occurs in the
      input, and nothing else is kept: the result is the input without exactly
      the records failing the degree or the location half of the query. */
  lemma FilterKeepsEveryMatch(scholarships: seq<Scholarship>, degree: string, location: string)
    ensures forall s ::
      multiset(Filter(scholarships, Query(degree, location)))[s] ==
      if Matches(s, degree, location) then multiset(scholarships)[s] else 0
  {
    FilterCount(scholarships, Query(degree, location));
  }

  /** An empty query text is a substring of every field, so it matches like the wildcard. */
  lemma EmptyQueryMatchesAll(s: Scholarship)
    ensures Matches(s, "", "")
  {
    ContainsEmpty(Lower(s.degree));
    ContainsEmpty(Lower(s.location));
  }
}
