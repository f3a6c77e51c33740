/** The query layer of the Swing client `MainClient`: its `readCSV` (location
    in column 4), the scholarship search behind the "Search Scholarships"
    button, and the course-topic search behind "Search Courses".  The text
    fields arrive as plain strings; what the buttons display is reduced to
    the outcome it is rendered from. */
module MainClient {
  import opened Seqs
  import opened Text
  import opened Scholarships

  /** The column `MainClient.readCSV` takes the location from. */
  const LocationColumn: nat := 4

  /** `readCSV` of this client: it never reads past a record that passed the
      5-field guard, so only a file without any record makes it throw. */
  method ReadCsv(read: CsvRead) returns (r: ReadResult)
    ensures r == Load(read, LocationColumn)
    ensures read.ReadFailed? ==> r == Loaded([])
    ensures read.Records? ==> (r.Threw? <==> read.rows == [])
    ensures r.Threw? ==> r.exception == IndexOutOfBounds
  {
    r := ReadRecords(read, LocationColumn);
  }

  /** A file with at least one record always loads, with one scholarship per
      data record of at least 5 fields, location taken from field 4. */
  lemma ReadCsvLoadsEveryFullRecord(rows: seq<seq<string>>)
    requires rows != []
    ensures Load(Records(rows), LocationColumn).Loaded?
    ensures var data := Filter(rows[1..], IsFullRecord);
            var loaded := Load(Records(rows), LocationColumn).scholarships;
            |loaded| == |data| &&
            forall k :: 0 <= k < |data| ==>
              |data[k]| >= 5 && loaded[k] == Scholarship(data[k][1], data[k][2], data[k][3], data[k][4])
  {
    LoadedFields(rows, LocationColumn);
  }

  /** What the scholarship search ends with: a prompt for a missing field, the
      exception `readCSV` let through, or the matching scholarships (an empty
      list is shown as "No scholarships found ..."). */
  datatype ScholarshipSearch =
    | MissingDegree
    | MissingLocation
    | Crashed(exception: Uncaught)
    | Listed(found: seq<Scholarship>)

  /** `searchScholarships`: both fields are trimmed; a blank degree, then a
      blank location, stops the search before the file is read; otherwise the
      file is loaded and filtered with the trimmed texts. */
  method SearchScholarships(degreeText: string, locationText: string, read: CsvRead) returns (r: ScholarshipSearch)
    ensures IsBlank(degreeText) ==> r == MissingDegree
    ensures !IsBlank(degreeText) && IsBlank(locationText) ==> r == MissingLocation
    ensures !IsBlank(degreeText) && !IsBlank(locationText) ==>
      r == match Load(read, LocationColumn)
           case Threw(e) => Crashed(e)
           case Loaded(all) => Listed(Filter(all, Query(Trim(degreeText), Trim(locationText))))
    ensures r.Listed? ==> forall s :: s in r.found ==> Matches(s, Trim(degreeText), Trim(locationText))
  {
    var degree := Trim(degreeText);
    var location := Trim(locationText);
    if degree == [] {
      return MissingDegree;
    }
    if location == [] {
      return MissingLocation;
    }
    var loaded := ReadCsv(read);
    match loaded
    case Threw(e) =>
      r := Crashed(e);
    case Loaded(scholarships) =>
      var filtered := FilterScholarships(scholarships, degree, location);
      r := Listed(filtered);
  }

  // ---------------------------------------------------------------------
  // searchCourses

  /** The fixed course titles the topic search looks through. */
  const Catalog: seq<string> := [
    "Java Programming",
    "Python for Data Science",
    "Introduction to Machine Learning",
    "Web Development with JavaScript",
    "Data Structures and Algorithms"
  ]

  /** `course.toLowerCase().contains(courseTopic.toLowerCase())`. */
  predicate TitleMatches(title: string, topic: string)
  {
    Contains(Lower(title), Lower(topic))
  }

  function OnTopic(topic: string): string -> bool
  {
    title => TitleMatches(title, topic)
  }

  /** What the course search ends with: a prompt for the missing topic, or the
      matching titles (an empty list is shown as "No courses found ..."). */
  datatype CourseSearch = MissingTopic | CoursesFound(titles: seq<string>)

  /** The loop of `searchCourses`: the titles of `courses` that contain
      `topic`, ignoring case, in list order. */
  method MatchCourses(courses: seq<string>, topic: string) returns (matched: seq<string>)
    ensures matched == Filter(courses, OnTopic(topic))
    ensures forall t :: t in matched <==> t in courses && TitleMatches(t, topic)
    ensures IsSubsequence(matched, courses)
  {
    matched := [];
    var i := 0;
    while i < |courses|
      invariant 0 <= i <= |courses|
      invariant matched == Filter(courses[..i], OnTopic(topic))
    {
      var course := courses[i];
      if Contains(Lower(course), Lower(topic)) {
        matched := matched + [course];
      }
      assert courses[..i + 1] == courses[..i] + [course];
      FilterSnoc(courses[..i], course, OnTopic(topic));
      i := i + 1;
    }
    assert courses[..i] == courses;
    FilterMembers(courses, OnTopic(topic));
    FilterIsSubsequence(courses, OnTopic(topic));
  }

  /** `searchCourses`: a blank topic is rejected before any title is looked
      at; otherwise exactly the catalog titles that contain the trimmed topic,
      ignoring case, in catalog order. */
  method SearchCourses(topicText: string) returns (r: CourseSearch)
    ensures r == MissingTopic <==> IsBlank(topicText)
    ensures r.CoursesFound? ==> r.titles == Filter(Catalog, OnTopic(Trim(topicText)))
    ensures r.CoursesFound? ==>
      forall t :: t in r.titles <==> t in Catalog && TitleMatches(t, Trim(topicText))
    ensures r.CoursesFound? ==> IsSubsequence(r.titles, Catalog)
  {
    var topic := Trim(topicText);
    if topic == [] {
      return MissingTopic;
    }
    var matched := MatchCourses(Catalog, topic);
    r := CoursesFound(matched);
  }

  // ---------------------------------------------------------------------
  // the topic "java" over the catalog

  /** A title without the letter j, in either case, does not match "java". */
  lemma TitleWithoutJ(title: string)
    requires 'j' !in title && 'J' !in title
    ensures !TitleMatches(title, "java")
  {
    LowerLacks(title, 'j');
    assert Lower("java")[0] == 'j';
    ContainsNeedsChar(Lower(title), Lower("java"), 'j');
  }

  /** The match ignores case: "Java Programming" starts with "java" once lowered. */
  lemma JavaProgrammingMatches()
    ensures TitleMatches("Java Programming", "java")
  {
    assert Lower("java") == "java";
    assert Lower("Java Programming")[..4] == "java";
    assert OccursAt(Lower("Java Programming"), "java", 0);
  }

  /** The match finds the topic inside a longer word: "JavaScript". */
  lemma JavaScriptMatches()
    ensures TitleMatches("Web Development with JavaScript", "java")
  {
    assert Lower("java") == "java";
    assert Lower("Web Development with JavaScript")[21..25] == "java";
    assert OccursAt(Lower("Web Development with JavaScript"), "java", 21);
  }

  /** Which catalog titles match "java": the first and the fourth. */
  lemma JavaCatalogMatches()
    ensures var p := OnTopic("java");
            p(Catalog[0]) && !p(Catalog[1]) && !p(Catalog[2]) && p(Catalog[3]) && !p(Catalog[4])
  {
    JavaProgrammingMatches();
    JavaScriptMatches();
    TitleWithoutJ(Catalog[1]);
    TitleWithoutJ(Catalog[2]);
    TitleWithoutJ(Catalog[4]);
  }

  lemma FilterOfFive<T>(c: seq<T>, p: T -> bool)
    requires |c| == 5 && p(c[0]) && !p(c[1]) && !p(c[2]) && p(c[3]) && !p(c[4])
    ensures Filter(c, p) == [c[0], c[3]]
  {
    assert Filter(c[4..], p) == [] by { assert c[4..][0] == c[4] && c[4..][1..] == []; }
    assert Filter(c[3..], p) == [c[3]] by { assert c[3..][0] == c[3] && c[3..][1..] == c[4..]; }
    assert Filter(c[2..], p) == [c[3]] by { assert c[2..][0] == c[2] && c[2..][1..] == c[3..]; }
    assert Filter(c[1..], p) == [c[3]] by { assert c[1..][0] == c[1] && c[1..][1..] == c[2..]; }
  }

  /** Searching the catalog for "java" lists "Java Programming" and "Web
      Development with JavaScript", in that order. */
  lemma JavaTopicExample()
    ensures Filter(Catalog, OnTopic("java")) == ["Java Programming", "Web Development with JavaScript"]
  {
    JavaCatalogMatches();
    FilterOfFive(Catalog, OnTopic("java"));
  }
}
