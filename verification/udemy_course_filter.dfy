/** The console course filter `UdemyCourseFilter`: the menu of subjects, and
    the pass over the lines of the course file that prints the title of
    every course of the chosen subject.  The file arrives as its lines; the
    printed titles are returned in the order they are printed. */
module UdemyCourseFilter {
  import opened Seqs
  import opened Text

  /** The menu: choice number to subject. */
  const Subjects: map<int, string> := map[
    1 := "Business Finance",
    2 := "Graphic Design",
    3 := "Musical Instruments",
    4 := "Web Development"
  ]

  /** The comma-separated fields of the column that holds the subject and of the one that holds the title. */
  const SubjectField: nat := 10
  const TitleField: nat := 1

  /** `line.split(",")`: a plain split, no quoting, trailing empty fields dropped. */
  function Fields(line: string): seq<string>
  {
    Split(line, ',')
  }

  /** `data.length > 10 && data[10].equalsIgnoreCase(subject)`. */
  predicate LineMatches(line: string, subject: string)
  {
    var data := Fields(line);
    |data| > SubjectField && EqualsIgnoreCase(data[SubjectField], subject)
  }

  function OfSubject(subject: string): string -> bool
  {
    line => LineMatches(line, subject)
  }

  /** The title field of a line; only ever taken of matching lines, which have it. */
  function Title(line: string): string
  {
    var data := Fields(line);
    if |data| > TitleField then data[TitleField] else ""
  }

  /** The titles the filter prints: the title of every matching line, in file order. */
  function MatchingTitles(lines: seq<string>, subject: string): seq<string>
  {
    Map(Filter(lines, OfSubject(subject)), Title)
  }

  /** `filterCoursesBySubject`: read the lines one by one; for every line with
      more than 10 fields whose field 10 equals the subject ignoring case,
      print field 1 and set `foundCourse`.  "No courses found" is printed
      exactly when `foundCourse` is still false at the end. */
  method FilterCoursesBySubject(lines: seq<string>, subject: string) returns (titles: seq<string>, foundCourse: bool)
    ensures titles == MatchingTitles(lines, subject)
    ensures foundCourse <==> exists i :: 0 <= i < |lines| && LineMatches(lines[i], subject)
    ensures foundCourse <==> titles != []
  {
    titles := [];
    foundCourse := false;
    var i := 0;
    while i < |lines|
      invariant 0 <= i <= |lines|
      invariant titles == MatchingTitles(lines[..i], subject)
      invariant foundCourse <==> exists j :: 0 <= j < i && LineMatches(lines[j], subject)
      invariant foundCourse <==> titles != []
    {
      var line := lines[i];
      var data := Split(line, ',');
      if |data| > 10 && EqualsIgnoreCase(data[10], subject) {
        assert OfSubject(subject)(line) && Title(line) == data[1];
        titles := titles + [data[1]];
        foundCourse := true;
      } else {
        assert !OfSubject(subject)(line);
      }
      assert lines[..i + 1] == lines[..i] + [line];
      FilterSnoc(lines[..i], line, OfSubject(subject));
      MapSnoc(Filter(lines[..i], OfSubject(subject)), line, Title);
      i := i + 1;
    }
    assert lines[..i] == lines;
  }

  /** Every printed title is field 1 of a matching line, one per matching
      line and in file order; a line with 10 fields or fewer never prints. */
  lemma MatchingTitlesFields(lines: seq<string>, subject: string)
    ensures var matching := Filter(lines, OfSubject(subject));
            |MatchingTitles(lines, subject)| == |matching| &&
            forall k :: 0 <= k < |matching| ==>
              matching[k] in lines && |Fields(matching[k])| > SubjectField &&
              EqualsIgnoreCase(Fields(matching[k])[SubjectField], subject) &&
              MatchingTitles(lines, subject)[k] == Fields(matching[k])[TitleField]
  {
    var matching := Filter(lines, OfSubject(subject));
    FilterSound(lines, OfSubject(subject));
    forall k | 0 <= k < |matching|
      ensures matching[k] in lines && LineMatches(matching[k], subject)
      ensures MatchingTitles(lines, subject)[k] == Fields(matching[k])[TitleField]
    {
      assert OfSubject(subject)(matching[k]);
      assert MatchingTitles(lines, subject)[k] == Title(matching[k]);
    }
  }

  /** A line that is too short is skipped without error, wherever it stands. */
  lemma ShortLineSkipped(before: seq<string>, line: string, after: seq<string>, subject: string)
    requires |Fields(line)| <= SubjectField
    ensures MatchingTitles(before + [line] + after, subject) == MatchingTitles(before + after, subject)
  {
    var p := OfSubject(subject);
    FilterAppend(before + [line], after, p);
    FilterAppend(before, [line], p);
    FilterAppend(before, after, p);
    assert !p(line);
    assert Filter([line], p) == [];
  }

  /** For a non-empty subject, dropping trailing empty fields never changes
      whether a line matches, nor its title: the outcome is that of the raw
      comma-separated pieces. */
  lemma TrailingEmptyFieldsIrrelevant(line: string, subject: string)
    requires subject != []
    ensures var pieces := Pieces(line, ',');
            LineMatches(line, subject) <==> |pieces| > SubjectField && EqualsIgnoreCase(pieces[SubjectField], subject)
    ensures LineMatches(line, subject) ==> Title(line) == Pieces(line, ',')[TitleField]
  {
    var pieces := Pieces(line, ',');
    SplitIsPrefix(line, ',');
    if |pieces| > SubjectField && pieces[SubjectField] != [] {
      SplitKeepsNonEmpty(line, ',', SubjectField);
    }
    if |pieces| > SubjectField && pieces[SubjectField] == [] {
      assert |Lower(subject)| > 0 == |Lower(pieces[SubjectField])|;
    }
  }

  /** "web development" equals "Web Development" ignoring case. */
  lemma LowerCaseSubjectEqual()
    ensures EqualsIgnoreCase("web development", "Web Development")
  {
    var a, b := "web development", "Web Development";
    assert |Lower(a)| == |Lower(b)| == 15;
    forall i | 0 <= i < 15
      ensures Lower(a)[i] == Lower(b)[i]
    {
    }
  }

  /** The subject comparison is exact, not a substring test: a course of
      "Web Development 2" is not listed under "Web Development", while one of
      "web development" is. */
  lemma SubjectMatchIsExact(fields: seq<string>)
    requires |fields| == 11
    requires forall k :: 0 <= k < |fields| ==> ',' !in fields[k]
    requires fields[SubjectField] == "Web Development 2"
    ensures !LineMatches(Join(fields, ','), "Web Development")
    ensures LineMatches(Join(fields[SubjectField := "web development"], ','), "Web Development")
  {
    SplitOfJoin(fields, ',');
    assert |Lower(fields[SubjectField])| == 17 && |Lower("Web Development")| == 15;
    var other := fields[SubjectField := "web development"];
    assert forall k :: 0 <= k < |other| ==> ',' !in other[k] by {
      assert ',' !in "web development";
    }
    SplitOfJoin(other, ',');
    LowerCaseSubjectEqual();
  }

  /** The outcome of one run of the program: a rejected menu choice, or the
      chosen subject with the titles printed and the final `foundCourse`. */
  datatype Session = InvalidChoice | Listing(subject: string, titles: seq<string>, foundCourse: bool)

  /** `main` after the choice has been read: a number that is not a key of
      the menu is rejected before the file is read; otherwise the file's
      lines are filtered by the chosen subject. */
  method ChooseAndFilter(choice: int, lines: seq<string>) returns (r: Session)
    ensures r == InvalidChoice <==> !(1 <= choice <= 4)
    ensures r.Listing? ==> choice in Subjects && r.subject == Subjects[choice]
    ensures r.Listing? ==> r.titles == MatchingTitles(lines, r.subject) && (r.foundCourse <==> r.titles != [])
  {
    if choice !in Subjects {
      return InvalidChoice;
    }
    var selectedSubject := Subjects[choice];
    var titles, found := FilterCoursesBySubject(lines, selectedSubject);
    r := Listing(selectedSubject, titles, found);
  }
}
