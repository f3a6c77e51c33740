# Education site record queries, in Dafny

The education site is a Java desktop application. Its `MainClient` window
searches a scholarship CSV file and a fixed course list.
`StudentCommunity` keeps an in-memory directory of student profiles.
`ScholarshipClient` is a console version of the scholarship search.
`UdemyCourseFilter` is a console program that lists the courses of one
subject from a course CSV file.

This project models the record and query logic behind those screens and
proves what it does:

- `Seqs` holds the order-preserving filter and map that every query here
  is specified by, with their lemmas (membership, multiplicity,
  subsequence, append).
- `Text` models the Java string operations the queries rely on:
  `toLowerCase`/`equalsIgnoreCase` (ASCII letters), `contains`, `trim`
  (drops every character up to `' '` at both ends) and `split(",")`
  (trailing empty strings dropped, and a string without the separator
  kept whole).
- `Scholarships` holds the `Scholarship` record and `readCSV`, stated
  once as the function `Load` and once as the loop `ReadRecords`. The two
  copies of `readCSV` differ only in their location column, so it is a
  parameter here. The module also holds `filterScholarships`.
- `MainClient` covers `readCSV` with the location in column 4, the
  "Search Scholarships" handler and the "Search Courses" handler.
- `ScholarshipClient` covers `readCSV` with the location in column 5 (see
  Findings) and its copy of `filterScholarships`.
- `Community` models `StudentCommunity` as a class. Its fields are the
  profile list and the display list. It covers the "Add Profile" handler,
  `updateProfileList` and the "Connect with Students" query.
- `UdemyCourseFilter` covers the menu check and
  `filterCoursesBySubject`.

What the reader returns is a parameter: the CSV records, or a read
failure. So are the lines of the course file and the text typed into a
field. Each handler returns the outcome its message or dialog is built
from.

## Model

| member | source | states |
|---|---|---|
| Scholarships.ReadRecords | src/main/java/com/example/MainClient.java:233-254 | The loop's result equals `Load`. A failed read gives an empty list. A file without records throws at `remove(0)`. A data record that passes the 5-field guard but lacks the location column throws. Otherwise there is one scholarship per data record of at least 5 fields, in order. |
| Scholarships.LoadIgnoresHeader | src/main/java/com/example/MainClient.java:237 | The first record never affects the result, whatever it holds. |
| Scholarships.LoadEdgeCases | src/main/java/com/example/MainClient.java:236-237 | An empty file throws `IndexOutOfBounds`. An IOException or CsvException gives an empty list. |
| Scholarships.LoadedFields | src/main/java/com/example/MainClient.java:239-247 | A successful load has exactly as many scholarships as data records of at least 5 fields. Each has name, degree and amount from fields 1, 2 and 3 and its location from the location column, in input order. |
| Scholarships.LoadSkipsShortRecord | src/main/java/com/example/MainClient.java:240 | Inserting a data record of fewer than 5 fields anywhere leaves the outcome unchanged. |
| Scholarships.FilterScholarships | src/main/java/com/example/MainClient.java:256-267 | The result is the order-preserving filter by the two-part query. It holds a scholarship iff the input holds it and both halves match. It is a subsequence of the input. "all" (any case) for both halves returns the input unchanged. |
| Scholarships.FilterKeepsEveryMatch | src/main/java/com/example/MainClient.java:258-265 | Every matching scholarship is kept as often as it occurs in the input, and a non-matching one never is. |
| Scholarships.EmptyQueryMatchesAll | src/main/java/com/example/MainClient.java:259-260 | An empty query text matches every scholarship, since the empty string is contained in every field. |
| MainClient.ReadCsv | src/main/java/com/example/MainClient.java:233-254 | `readCSV` with the location in column 4. A read failure gives an empty list. With records, it throws iff the file has no record at all, and then only `IndexOutOfBounds`. |
| MainClient.ReadCsvLoadsEveryFullRecord | src/main/java/com/example/MainClient.java:239-247 | A file with at least one record always loads. Each data record of at least 5 fields gives one scholarship with the location from field 4. |
| MainClient.SearchScholarships | src/main/java/com/example/MainClient.java:164-183 | A blank degree is reported first, then a blank location, and the file is not read. Otherwise the result is the exception `readCSV` let through, or the loaded list filtered with the trimmed texts. Every listed scholarship matches them. |
| MainClient.MatchCourses | src/main/java/com/example/MainClient.java:213-219 | The matched titles are exactly the titles that contain the topic ignoring case, in list order, as a subsequence of the list. |
| MainClient.SearchCourses | src/main/java/com/example/MainClient.java:197-219 | The result is "missing topic" iff the text is blank. Otherwise it is exactly the catalog titles containing the trimmed topic, ignoring case, in catalog order. |
| MainClient.TitleWithoutJ | src/main/java/com/example/MainClient.java:216 | A title with no j in either case never matches "java". |
| MainClient.JavaProgrammingMatches | src/main/java/com/example/MainClient.java:216 | The match ignores case: "Java Programming" matches "java". |
| MainClient.JavaScriptMatches | src/main/java/com/example/MainClient.java:216 | The match is a substring test: "Web Development with JavaScript" matches "java" inside "JavaScript". |
| MainClient.JavaTopicExample | src/main/java/com/example/MainClient.java:205-219 | Over the fixed catalog, the topic "java" lists "Java Programming" and "Web Development with JavaScript", in that order, and nothing else. |
| ScholarshipClient.ReadCsv | src/main/java/com/example/ScholarshipClient.java:40-61 | `readCSV` with the location in column 5. With a non-empty file, it throws `ArrayIndexOutOfBounds` iff some data record has exactly 5 fields. |
| ScholarshipClient.FiveFieldRecordThrows | src/main/java/com/example/ScholarshipClient.java:47-51 | A header plus one 5-field record makes the column-5 read throw. The column-4 read of the same file loads that scholarship. |
| ScholarshipClient.ReadCsvFields | src/main/java/com/example/ScholarshipClient.java:46-54 | When this read succeeds, every loaded data record has at least 6 fields, and the location comes from field 5. |
| ScholarshipClient.FilterScholarships | src/main/java/com/example/ScholarshipClient.java:64-75 | The same query as `MainClient`'s: order-preserving filter, membership iff both halves match, a subsequence, and "all"/"all" keeps everything. |
| Community.StudentCommunity.constructor | src/main/java/com/example/StudentCommunity.java:11-16 | A new directory has no profiles and an empty display list, and is consistent. |
| Community.StudentCommunity.UpdateProfileList | src/main/java/com/example/StudentCommunity.java:196-201 | The display list becomes the `toString` text of every profile, one per profile, in order. |
| Community.StudentCommunity.AddProfile | src/main/java/com/example/StudentCommunity.java:114-131 | A profile is added iff all four trimmed fields are non-empty. The trimmed profile is then appended and the display list rebuilt. Otherwise nothing changes. Every stored profile has trimmed, non-empty fields, and the display list matches the profiles. |
| Community.TrimmedFieldsStored | src/main/java/com/example/StudentCommunity.java:115-125 | The profile the handler builds from non-blank fields has trimmed, non-empty fields. |
| Community.StudentCommunity.Connect | src/main/java/com/example/StudentCommunity.java:166-178 | The result is "missing country" iff the text is blank. Otherwise it is exactly the profiles whose current country equals the trimmed text ignoring case, in list order, as a subsequence of the list. |
| Community.CountryMatchIsWhole | src/main/java/com/example/StudentCommunity.java:175 | A match compares the whole field: a matching current country has the length of the desired one, so a longer name that merely contains it does not match. |
| Community.AddSameEmailTwice | src/main/java/com/example/StudentCommunity.java:120-125 | Two profiles with the same e-mail address are both added: no uniqueness or address-shape check exists. |
| UdemyCourseFilter.FilterCoursesBySubject | src/main/java/com/example/UdemyCourseFilter.java:42-62 | The printed titles are field 1 of every line whose field 10 equals the subject ignoring case, in file order. `foundCourse` holds iff some line matches, iff a title was printed. |
| UdemyCourseFilter.MatchingTitlesFields | src/main/java/com/example/UdemyCourseFilter.java:49-56 | Each printed title comes from a line of the file with more than 10 fields whose field 10 equals the subject, one title per such line. |
| UdemyCourseFilter.ShortLineSkipped | src/main/java/com/example/UdemyCourseFilter.java:54 | A line with 10 fields or fewer, anywhere in the file, changes nothing. |
| UdemyCourseFilter.TrailingEmptyFieldsIrrelevant | src/main/java/com/example/UdemyCourseFilter.java:49-55 | For a non-empty subject, whether a line matches, and its title, are the same as with a split that keeps trailing empty fields. |
| UdemyCourseFilter.LowerCaseSubjectEqual | src/main/java/com/example/UdemyCourseFilter.java:54 | "web development" equals "Web Development" ignoring case. |
| UdemyCourseFilter.SubjectMatchIsExact | src/main/java/com/example/UdemyCourseFilter.java:54 | The subject comparison is equality, not a substring test. A line of "Web Development 2" is not listed under "Web Development", and the same line with "web development" is. |
| UdemyCourseFilter.ChooseAndFilter | src/main/java/com/example/UdemyCourseFilter.java:10-36 | A choice is rejected iff it is not 1 to 4. Otherwise the chosen subject is the menu's, and the listing is that of `filterCoursesBySubject`. |
| Text.TrimLeading | src/main/java/com/example/MainClient.java:165 | Only characters up to `' '` are removed from the front, the result is a suffix of the input, and it starts with a kept character. |
| Text.TrimTrailing | src/main/java/com/example/MainClient.java:165 | Only characters up to `' '` are removed from the back, the result is a prefix of the input, and it ends with a kept character. |
| Text.BlankIff | src/main/java/com/example/MainClient.java:168 | `trim().isEmpty()` holds iff every character of the text is at most `' '`. |
| Text.TrimIdempotent | src/main/java/com/example/StudentCommunity.java:115-118 | Trimming a trimmed text changes nothing. |
| Text.JoinPieces | src/main/java/com/example/UdemyCourseFilter.java:49 | Joining the comma-separated pieces of a line with commas gives the line back. |
| Text.PiecesOfJoin | src/main/java/com/example/UdemyCourseFilter.java:49 | Splitting fields without commas, joined by commas, gives the fields back. |
| Text.SplitIsPrefix | src/main/java/com/example/UdemyCourseFilter.java:49 | `split(",")` keeps a prefix of the pieces and drops only empty ones. |
| Text.SplitKeepsNonEmpty | src/main/java/com/example/UdemyCourseFilter.java:49 | A non-empty piece is never dropped by `split(",")`. |
| Text.SplitOfJoin | src/main/java/com/example/UdemyCourseFilter.java:49 | Comma-free fields come back from `split(",")` of their join: a single field always, and two or more when the last is non-empty. |

## Left out

- The Swing and console user interface is not modelled: windows, dialogs, result text, HTML rendering, and clearing the text fields after an add. Each handler returns the outcome its message is built from instead.
- File reading and console input are not modelled. `CSVReader.readAll` becomes its result or a read failure, the course file becomes its lines, and `nextInt` becomes an integer. A non-numeric menu answer, and an `IOException` while reading the course file, are not modelled.
- `ScholarshipClient.main` is not modelled. It only prompts, trims and prints around `readCSV` and `filterScholarships`, which are modelled.
- The debug line that `filterCoursesBySubject` prints for every line is not modelled.
- University search (`UniversityAPIClient`), the network, and `LoginPage` are not part of this model.
- `toLowerCase` and `equalsIgnoreCase` are modelled on ASCII letters only. Java's locale-dependent Unicode case mapping is not modelled.
- The `Scholarship` class is declared twice with identical code. It is modelled once, and its `toString` is not modelled.
- The code has no amount parsing, sorting by amount, e-mail shape validation, duplicate-email check, profile edit or delete, profile persistence, or header detection by name, so none of these is modelled. `readCSV` always drops the first record, and `Community.AddSameEmailTwice` shows that duplicate e-mails are accepted.

## Findings

| source | as written | input that shows it | evidently intended | confidence | as-written member | corrected member |
|---|---|---|---|---|---|---|
| src/main/java/com/example/ScholarshipClient.java:47-51 | The guard admits records of 5 fields, then the location is read from `record[5]`. The resulting `ArrayIndexOutOfBoundsException` is not caught, so the whole load fails. | A header line, then the line `1,Merit Award,Master,"$5,000",Germany`, whose quoted amount makes it a five-field record | The location at index 4, as the comment on line 51 says and as `MainClient.readCSV` does (MainClient.java:244), so every record of at least 5 fields loads. The guard comment on line 47 lists a Date column, which would put the location at index 5; on that reading the guard should ask for 6 fields. Either way a 5-field record should not crash the load | not executed | ScholarshipClient.FiveFieldRecordThrows | MainClient.ReadCsvLoadsEveryFullRecord |
