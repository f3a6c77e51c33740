/** The console client `ScholarshipClient`: its own copy of `readCSV`, which
    takes the location from column 5 while its guard only asks for 5 fields,
    and its copy of `filterScholarships`, which is the same code as
    `MainClient`'s. */
module ScholarshipClient {
  import opened Seqs
  import opened Text
  import opened Scholarships

  /** The column `ScholarshipClient.readCSV` takes the location from. */
  const LocationColumn: nat := 5

  /** `readCSV` as written here: a data record of exactly 5 fields passes the
      guard and then `record[5]` throws, an exception the `catch` does not
      name, so the whole read fails; otherwise records of at least 6 fields
      are mapped in order with the location from field 5. */
  method ReadCsv(read: CsvRead) returns (r: ReadResult)
    ensures r == Load(read, LocationColumn)
    ensures read.ReadFailed? ==> r == Loaded([])
    ensures read.Records? && read.rows == [] ==> r == Threw(IndexOutOfBounds)
    ensures read.Records? && read.rows != [] ==>
      (r == Threw(ArrayIndexOutOfBounds) <==> exists record :: record in read.rows[1..] && |record| == 5)
  {
    r := ReadRecords(read, LocationColumn);
  }

  /** The smallest file that shows the out-of-bounds read: a header and one
      five-field record.  The same file loads under the column-4 mapping that
      the comment at the read intends. */
  lemma FiveFieldRecordThrows()
    ensures var rows := [["", "Name", "Degree", "Funds", "Location"], ["1", "Merit Award", "Master", "$5,000", "Germany"]];
            Load(Records(rows), LocationColumn) == Threw(ArrayIndexOutOfBounds) &&
            Load(Records(rows), 4) == Loaded([Scholarship("Merit Award", "Master", "$5,000", "Germany")])
  {
    var rows := [["", "Name", "Degree", "Funds", "Location"], ["1", "Merit Award", "Master", "$5,000", "Germany"]];
    var record := rows[1];
    assert record in rows[1..] && Overruns(record, LocationColumn);
    assert rows[1..] == [record];
    assert Filter(rows[1..], IsFullRecord) == [record];
  }

  /** Records of six or more fields load with name, degree, amount and
      location from fields 1, 2, 3 and 5, in input order. */
  lemma ReadCsvFields(rows: seq<seq<string>>)
    requires Load(Records(rows), LocationColumn).Loaded?
    ensures var data := Filter(rows[1..], IsFullRecord);
            var loaded := Load(Records(rows), LocationColumn).scholarships;
            |loaded| == |data| &&
            forall k :: 0 <= k < |data| ==>
              |data[k]| >= 6 && loaded[k] == Scholarship(data[k][1], data[k][2], data[k][3], data[k][5])
  {
    LoadedFields(rows, LocationColumn);
  }

  /** `filterScholarships` of this client, the same code as `MainClient`'s. */
  method FilterScholarships(scholarships: seq<Scholarship>, degree: string, location: string)
    returns (filtered: seq<Scholarship>)
    ensures filtered == Filter(scholarships, Query(degree, location))
    ensures forall s :: s in filtered <==> s in scholarships && Matches(s, degree, location)
    ensures IsSubsequence(filtered, scholarships)
    ensures EqualsIgnoreCase(degree, Wildcard) && EqualsIgnoreCase(location, Wildcard) ==> filtered == scholarships
  {
    filtered := Scholarships.FilterScholarships(scholarships, degree, location);
  }
}
