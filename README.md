# Virtual library: a verified model of its request logic

The virtual library is a Next.js application. Students upload study material
(a PDF or an image plus a title, description, category, course and
specialization) and browse it by search text and tags. This project models
its logic in Dafny and proves what that logic promises. The modelled parts are:

- **The resource query** (`GET /api/resources`). The optional `q`,
  `category`, `course` and `specialization` parameters form one conjunction
  over the Resource rows:
  - `q` must occur, ignoring case, in the title or the description;
  - each tag must match exactly, unless it is absent, empty or `'All'`.

  Matches are returned newest first. A failing store gives a 500
  `'Database Service Error'`, and an empty match is a 200 with `[]`
  (`query.dfy`).
- **The upload gate** (`POST /api/upload`). The checks run in order: a file
  is present, it is at most 10 MiB, and its MIME type is one of four. Then a
  length schema is applied per field, and it reports every failing field.
  An admitted upload writes the blob and then appends one Resource row,
  built from the validated fields, to the table (`upload.dfy`, `records.dfy`).
- **The course taxonomy**. The database constraints are:
  - courses are unique by name;
  - specializations are unique by the pair (name, course);
  - every specialization has a parent course.

  The seed script runs two nested loops of upserts with an empty update over
  a fixed table. The proofs show that seeding is idempotent, that it stores
  each seeded row exactly once, and that it adds nothing else. The
  management route `POST /api/courses` uses plain `create`, so a duplicate is
  an error (500) and not an upsert. `GET /api/courses` lists the courses by
  name with their specializations (`taxonomy.dfy`, `courses_route.dfy`).
- **The library page**. The model covers:
  - the category list (`['All', ...new Set(categories)].sort()`);
  - the three counters;
  - how each fetch outcome sets `resources`, `error` and `loading`;
  - the upload handler, which clears file, title and description after a
    success but keeps the category (`library_page.dfy`).

`common.dfy` holds the shared pieces:

- an option type;
- ASCII case folding and substring search;
- the code-unit string order of the category sort, with its order laws (the
  course listing uses it too, in place of the database's collation);
- an insertion sort keyed by a string;
- first-occurrence de-duplication;
- decimal rendering of a status code.

Where the code and the prose description of the system disagree, the model
follows the code:

- **Course name length.** The course field must have at least 2 characters,
  not 1 (`src/app/api/upload/route.ts:10`).
- **Missing description.** A form without a description reads as `null`. The
  schema's `.optional()` accepts only `undefined`, so the upload is rejected
  (`src/app/api/upload/route.ts:8`, `:24`).
- **Course creation.** `POST /api/courses` creates rows; it does not upsert
  them. A store error from it is a 500, not a 400
  (`src/app/api/courses/route.ts:25`, `:40-41`).
- **Uploads from the library page.** The page's form never carries `course`
  or `specialization`, and the schema requires both. An upload submitted from
  that page is therefore always refused, and its form is never reset
  (`LibraryPage.PageFormNeverAdmitted`).

## Model

| member | source | states |
|---|---|---|
| Common.Contains | src/app/api/resources/route.ts:26-27 | the substring test holds exactly when the search text occurs at some position of the column |
| Common.ContainsIgnoreCase | src/app/api/resources/route.ts:26-27 | the empty search text is found in every column, and a text longer than the column is never found |
| Common.ContainsIgnoreCaseSelf | src/app/api/resources/route.ts:26 | a value always contains itself, ignoring case |
| Common.LexLeTotal | src/app/library/page.tsx:41 | any two strings are comparable in code-unit order |
| Common.LexLe | src/app/library/page.tsx:41 | a prefix sorts at or before any extension of it, and otherwise the first character of the earlier string is not greater |
| Common.LexLeTrans | src/app/library/page.tsx:41 | code-unit order is transitive |
| Common.LexLeAntisym | src/app/library/page.tsx:41 | two strings that sort at or before each other are equal |
| Common.SortBySorted | src/app/library/page.tsx:41 | the sort's output is ordered by its key; `SortBy` itself keeps the multiset of its input |
| Common.Distinct | src/app/library/page.tsx:40 | a `Set` of the values holds exactly the values of the input, each once, and is no longer than the input |
| Common.DistinctCard | src/app/library/page.tsx:117 | the number of de-duplicated values is the size of the set of values |
| Common.DecimalRoundTrip | src/app/library/page.tsx:52 | the status code interpolated into the message reads back as the same number |
| Common.Decimal | src/app/library/page.tsx:52 | the status code renders as at least one decimal digit, with no leading zero unless it is 0 |
| Records.ResourceTable.Create | src/app/api/upload/route.ts:56-67 | appends exactly one row, built from the draft with a fresh id and the creation time; earlier rows are unchanged and no earlier row has the new id |
| ResourceQuery.Select | src/app/api/resources/route.ts:21-34 | each row that passes the `where` clause is kept as often as it is stored; every other row is dropped |
| ResourceQuery.Matches | src/app/api/resources/route.ts:22-33 | a matching row has the requested category, course and specialization whenever each is supplied and not `'All'`, and contains `q` in its title or description whenever `q` is supplied; with nothing supplied every row matches |
| ResourceQuery.InsertByTime | src/app/api/resources/route.ts:35-37 | inserting into a newest-first list keeps it newest first and adds exactly that row |
| ResourceQuery.SortNewestFirst | src/app/api/resources/route.ts:35-37 | the result has non-increasing `createdAt` and is a permutation of the input |
| ResourceQuery.Run | src/app/api/resources/route.ts:21-38 | the answer is ordered newest first; a row is in it exactly when it is stored and passes all four clauses, and it appears as often as it is stored |
| ResourceQuery.Get | src/app/api/resources/route.ts:41-55 | 200 exactly when the store answers, with the matching rows newest first, each as often as it is stored; otherwise 500 with `'Database Service Error'` and the store's message |
| ResourceQuery.NoFiltersReturnsAll | src/app/api/resources/route.ts:24-32 | with `q` absent or empty and each tag absent, empty or `'All'`, every stored row is returned as often as it is stored |
| ResourceQuery.ResultSatisfiesEveryClause | src/app/api/resources/route.ts:22-33 | a returned row is stored and passes the text clause and each of the three tag clauses |
| ResourceQuery.EveryMatchingRowReturned | src/app/api/resources/route.ts:22-33 | a stored row that passes every clause is returned |
| ResourceQuery.EmptyMatchIsSuccess | src/app/api/resources/route.ts:41 | when no row matches, the answer is a 200 with the empty list |
| ResourceQuery.SearchIgnoresCase | src/app/api/resources/route.ts:24-29 | `q='CALCULUS'` finds the title 'Calculus Notes' |
| ResourceQuery.AllIsNotASentinelForText | src/app/api/resources/route.ts:24-30 | `'All'` in a tag parameter imposes nothing, but `q='All'` is searched as text and misses 'Calculus Notes' |
| ResourceQuery.TagFilterIsCaseSensitive | src/app/api/resources/route.ts:30-32 | `course='b.tech'` does not select a 'B.Tech' row, while the exact tags do |
| Upload.Check | src/app/api/upload/route.ts:6-12 | a field passes its rule exactly when it is a string within the bounds; `null` is reported as not a string; a value shorter than the minimum is reported as too short, with the rule's minimum and custom message, and one longer than the maximum as too long, with the maximum |
| Upload.RuleOf | src/app/api/upload/route.ts:6-12 | every rule's minimum is at most its maximum (at most 500); every field but the description needs at least one character and at most 100; only title and category carry a custom message |
| Upload.Report | src/app/api/upload/route.ts:43-48 | one field contributes an error exactly when its check fails, and the error carries that field's issue |
| Upload.FieldErrors | src/app/api/upload/route.ts:43-48 | a field is reported exactly when it fails, with its own issue and exactly once, so every failing field is listed and not only the first |
| Upload.FileAcceptable | src/app/api/upload/route.ts:34-40 | a file passes exactly when it is at most 10485760 bytes (the limit itself passes) and its type is one of the four allowed; a PDF within the limit passes and a file with no type never does |
| Upload.Admit | src/app/api/upload/route.ts:29-49 | a missing file, then an oversize file, then a disallowed type is reported before the schema; validation fails exactly for an acceptable file with a failing field, and names every failing field once, each with its own issue (not a string, too short with the rule's message, or too long); admission happens exactly when all checks pass, and its data are the submitted fields |
| Upload.AdmittedFieldsInBounds | src/app/api/upload/route.ts:6-12 | admitted metadata have title 3..100, description at most 500, category 2..50, course 2..50 and specialization 1..50 characters |
| Upload.Post | src/app/api/upload/route.ts:17-83 | a rejection is a 400 with the check's message (and field details) and no new row; a failed blob write or row creation is a 500 with its message and no new row; otherwise exactly one row is appended, built from the file, the blob URL and the validated fields |
| Upload.RecordFromValidatedFields | src/app/api/upload/route.ts:56-67 | the created row has the blob URL, the file's name and MIME type, and the submitted title, description, category, course and specialization |
| Upload.DraftOf | src/app/api/upload/route.ts:56-67 | the new row takes the blob URL, the file's name and type, and the validated title, description, category, course and specialization |
| Upload.UploadedRecordIsFound | src/app/api/upload/route.ts:56-67 | an uploaded row is selected again by searching for its title and by filtering on its own category, course and specialization |
| Upload.SizeBoundary | src/app/api/upload/route.ts:34-36 | a file of exactly 10485760 bytes is admitted and one of 10485761 bytes is refused as too large |
| Upload.TitleBoundary | src/app/api/upload/route.ts:7 | a two-character title is reported with the title's custom message, and a three-character one is admitted |
| Upload.FileErrorsComeFirst | src/app/api/upload/route.ts:30-49 | a bad file is reported as such even when every metadata field is missing |
| Upload.MissingTaxonomyFieldsRejected | src/app/api/upload/route.ts:22-27 | an acceptable file sent without course and specialization fails validation, with both fields reported as not strings |
| Upload.MissingDescriptionRejected | src/app/api/upload/route.ts:8 | a form without a description is refused, with only the description reported |
| Taxonomy.FindCourse | prisma/seed-courses.js:14 | the lookup by unique name finds a row with that name, and finds none exactly when no row has it |
| Taxonomy.FindSpec | prisma/seed-courses.js:21-26 | the lookup by (name, courseId) finds a row with that pair, and finds none exactly when no row has it |
| Taxonomy.UpsertCourseIn | prisma/seed-courses.js:13-17 | keeps the tables well-formed and only extends them; an existing course is returned and nothing changes; otherwise one course with the name and a fresh id is appended |
| Taxonomy.UpsertSpecializationIn | prisma/seed-courses.js:20-32 | keeps the tables well-formed; an existing pair is returned and nothing changes; otherwise exactly one row with the name and course is appended |
| Taxonomy.CreateCourseIn | src/app/api/courses/route.ts:25-27 | fails exactly when the name is taken; otherwise exactly one course with that name is appended and the specializations are unchanged |
| Taxonomy.CreateSpecializationIn | src/app/api/courses/route.ts:30-35 | fails exactly when the pair exists or the course does not; otherwise exactly one row with that name and course is appended |
| Taxonomy.SeedSpecs | prisma/seed-courses.js:19-33 | the inner loop keeps the tables well-formed, only extends them, and leaves the courses unchanged |
| Taxonomy.SeedEntry | prisma/seed-courses.js:12-33 | one pass of the outer loop (the course upsert, then its inner loop) keeps the tables well-formed and only extends them |
| Taxonomy.SeedAll | prisma/seed-courses.js:12-34 | the outer loop keeps the tables well-formed and only extends them |
| Taxonomy.EntryPresentPreserved | prisma/seed-courses.js:15 | a course and its specializations, once present, stay present when rows are added |
| Taxonomy.SeedSpecsEstablishes | prisma/seed-courses.js:19-33 | after the inner loop, every listed specialization exists under the course |
| Taxonomy.SeedEntryEstablishes | prisma/seed-courses.js:12-33 | after one pass of the outer loop, its course exists with all its specializations |
| Taxonomy.SeedAllEstablishes | prisma/seed-courses.js:12-34 | after the loops, every entry of the table is present |
| Taxonomy.SeedSpecsNoop | prisma/seed-courses.js:27 | the inner loop over specializations that all exist changes nothing |
| Taxonomy.SeedAllNoop | prisma/seed-courses.js:12-34 | seeding tables that already hold every entry changes nothing |
| Taxonomy.SeedIdempotent | prisma/seed-courses.js:12-34 | running the seed on its own result yields the same tables |
| Taxonomy.SeedTouchesOnlySeedRows | prisma/seed-courses.js:12-33 | seeding keeps every existing row in place, and every added course or specialization has a name from the seed table |
| Taxonomy.SeedSpecsAddsOnly | prisma/seed-courses.js:19-33 | every row the inner loop adds lies under its course and has a listed name |
| Taxonomy.SeedEntryAddsOnly | prisma/seed-courses.js:12-33 | one pass adds only its own course and its own specialization names |
| Taxonomy.SeedAllAddsOnly | prisma/seed-courses.js:12-34 | the loops add only course and specialization names that the entries seed |
| Taxonomy.CountCoursesUnique | prisma/seed-courses.js:14 | with unique names, a course name occurs once if present and not at all otherwise |
| Taxonomy.CountSpecsUnique | prisma/seed-courses.js:21-26 | with unique pairs, a (name, course) pair occurs once if present and not at all otherwise |
| Taxonomy.SeedStoresEachRowOnce | prisma/seed-courses.js:12-32 | after seeding, each seeded course is stored exactly once, and each of its specializations exactly once under it |
| Taxonomy.SameNameUnderTwoCourses | prisma/seed-courses.js:4-9 | 'CSE' ends up as two distinct rows, under two different courses |
| Taxonomy.UpsertCourseIdempotent | prisma/seed-courses.js:13-17 | repeating a course upsert with the same name changes nothing and returns the same row |
| Taxonomy.TaxonomyStore.UpsertCourse | prisma/seed-courses.js:13-17 | updates the store in place as the upsert function describes and keeps it well-formed |
| Taxonomy.TaxonomyStore.UpsertSpecialization | prisma/seed-courses.js:20-32 | updates the store in place as the upsert function describes and keeps it well-formed |
| Taxonomy.TaxonomyStore.CreateCourse | src/app/api/courses/route.ts:25-27 | a duplicate name leaves the store unchanged and yields no row; otherwise the store gains the one created course |
| Taxonomy.TaxonomyStore.CreateSpecialization | src/app/api/courses/route.ts:30-35 | a duplicate pair or a missing course leaves the store unchanged; otherwise the store gains the one created row |
| Taxonomy.TaxonomyStore.SeedSpecializations | prisma/seed-courses.js:19-33 | the inner loop leaves the store in the state the functional inner loop computes |
| Taxonomy.TaxonomyStore.SeedFrom | prisma/seed-courses.js:12-34 | the nested loops leave the store in the state the functional seeding computes |
| Taxonomy.TaxonomyStore.Seed | prisma/seed-courses.js:11-36 | seeding with the fixed table leaves the store in the seeded state, so all the seeding lemmas apply to it |
| CoursesRoute.SpecsOf | src/app/api/courses/route.ts:7-9 | a course's nested list holds exactly the specialization rows with its id, each as often as it is stored |
| CoursesRoute.ByName | src/app/api/courses/route.ts:10-12 | the courses, all of them, ordered ascending by name |
| CoursesRoute.ListCourses | src/app/api/courses/route.ts:6-14 | one entry per course, ascending by name, covering every course, each with exactly its own specializations, each row listed as often as it is stored |
| CoursesRoute.Get | src/app/api/courses/route.ts:4-18 | 200 with the course listing (sorted by name, each course with its own specializations) when the store answers; otherwise 500 `'Failed to fetch courses'` |
| CoursesRoute.PostOutcome | src/app/api/courses/route.ts:20-43 | type 'course' adds exactly one course or fails with 500; type 'specialization' adds exactly one row under an existing course or fails with 500; any other type is a 400 `'Invalid type'`; a body that is not JSON is a 500; nothing changes unless a row is created |
| CoursesRoute.Post | src/app/api/courses/route.ts:20-43 | the handler updates the store and answers as `PostOutcome` describes, keeping the store well-formed |
| CoursesRoute.PostIsNotUpsert | src/app/api/courses/route.ts:24-28 | a second POST of a course that the first created fails with 500 and changes nothing |
| CoursesRoute.CreatedCourseIsListed | src/app/api/courses/route.ts:6-14 | a course created by POST appears in the GET listing |
| LibraryPage.DerivedCategories | src/app/library/page.tsx:38-42 | the list is sorted in code-unit order and holds exactly 'All' and the categories of the loaded resources |
| LibraryPage.DerivedCategoriesLength | src/app/library/page.tsx:40-41 | the list has one entry per distinct category plus one |
| LibraryPage.AllListedTwice | src/app/library/page.tsx:40-41 | a category literally named 'All' appears beside the added 'All', twice in all |
| LibraryPage.AllNotAlwaysFirst | src/app/library/page.tsx:41 | with the single category 'AI' the list is ['AI', 'All'] |
| LibraryPage.Recent | src/app/library/page.tsx:118-122 | keeps each resource created less than a day before now exactly as often as it occurs, drops every other one, and keeps the whole list when every resource is recent |
| LibraryPage.IsRecent | src/app/library/page.tsx:118-122 | a resource dated at or after now is recent; one dated a full day or more before now is not |
| LibraryPage.RecentCount | src/app/library/page.tsx:118-122 | the number of recent resources equals the number of list positions that hold a recent resource |
| LibraryPage.StatsOf | src/app/library/page.tsx:113-124 | total is the number of resources, recent the number of positions holding a recent resource, and categories the number of distinct category values; neither count exceeds the total and a non-empty list has at least one category |
| LibraryPage.StatsMatchCategoryList | src/app/library/page.tsx:117 | the category count is one less than the length of the category list |
| LibraryPage.FailureMessage | src/app/library/page.tsx:51-52 | the body's message if non-empty, else its error if non-empty, else 'Server responded with' and the status |
| LibraryPage.Settle | src/app/library/page.tsx:44-70 | only an ok response with an array loads rows, exactly those rows, and leaves no error; every other outcome empties the list and sets its message: the failure message for a non-ok status, the unexpected-format text for an ok object, the parse error for an ok body that is not JSON, and the thrown message or the connection fallback |
| LibraryPage.RequestParams | src/app/library/page.tsx:48 | the page sends the search box as `q` and the selected category as `category`, and never a course or specialization |
| LibraryPage.Delivered | src/app/api/resources/route.ts:51-55 | the route's answer reaches the page with its status: the found rows as a JSON array, a failure as an object holding the store's message and the route's error label |
| LibraryPage.InitialRequestReturnsAll | src/app/library/page.tsx:20-21 | with the initial search '' and category 'All', every stored row comes back |
| LibraryPage.QueryResultShown | src/app/library/page.tsx:55-58 | a successful query lands in `resources` exactly as the route ordered it, with no error |
| LibraryPage.StoreFailureShown | src/app/library/page.tsx:50-53 | a store failure shows the database's message, or 'Database Service Error' when that message is empty, and empties the list |
| LibraryPage.PageForm | src/app/library/page.tsx:88-92 | the submitted form carries the chosen file, the title, the description and the form category, and no course or specialization |
| LibraryPage.PageFormNeverAdmitted | src/app/library/page.tsx:88-92 | no form the page can submit passes the upload gate |
| LibraryPage.ReplyOf | src/app/library/page.tsx:99-100 | `data.success` is true exactly when the upload answered 200 |
| LibraryPage.Page.constructor | src/app/library/page.tsx:19-36 | the initial state: no resources, empty search, category 'All', dialog closed, loading, no error, empty form |
| LibraryPage.Page.FetchResources | src/app/library/page.tsx:44-70 | `resources` and `error` become what the outcome settles to, `loading` ends false, and search, category, dialog and form are untouched |
| LibraryPage.Page.HandleUpload | src/app/library/page.tsx:84-111 | without a file, or without a successful reply, nothing changes; after a success the dialog closes, the list is refetched, and file, title and description are cleared while the form category stays |
| LibraryPage.PageUploadKeepsForm | src/app/library/page.tsx:100-107 | an upload from this page never reports success, so the form is never reset |

## Left out

- Network, `fetch`, multipart parsing and the JSON body parser. The route
  handlers take their already-parsed inputs as parameters: a form of optional
  strings, a request body of optional fields, and a fetch outcome.
- The database and Prisma. Tables are in-memory sequences with counter ids.
  The unique keys and the parent-course foreign key of the schema file are
  stated as `Taxonomy.WellFormed`; the schema file is not part of this model.
- Common.ContainsIgnoreCase: the store's case-insensitive `contains` folds Unicode
  case. The model folds only ASCII letters.
- Strings are sequences of characters. JavaScript's UTF-16 code units (and
  string lengths counted in them) are not distinguished from characters.
- The Vercel Blob `put` is a parameter that yields a URL or an error. The
  blob left behind when row creation then fails is not modelled.
- Upload.Check: the schema library's default message texts for the rules
  without a custom message are not reproduced. Only the bound is recorded.
- CoursesRoute.ByName: the database orders course names by its collation,
  which the model replaces with code-unit order. The two agree under the
  C collation; a locale collation (such as `en_US.UTF-8`, which ignores `.`
  and spaces at its first level) can order even one-case ASCII names
  differently, for example `BCA` before `B.TECH`.
- Ordering of rows with equal `createdAt` (and of courses with equal names,
  which the unique key rules out) is the insertion sort's. The database does
  not specify it.
- The `!Array.isArray(resources)` guards of the page. `resources` is always
  a sequence in the model, so those branches cannot be reached.
- The page's 500 ms debounce, and the order in which overlapping fetches
  settle.
- LibraryPage.Page.HandleUpload: the refetch is not awaited in the source. The model
  settles it before the form is cleared.
- URL construction: the page interpolates the search text and category into
  the query string without encoding them, so a `&`, `=`, `+`, `#` or `%xx`
  in them would be read back differently by the route. The model passes both
  values through unchanged.
- LibraryPage.FailureMessage: error bodies that are not objects (such as
  JSON `null`) and non-string `message`/`error` fields are treated as absent.
- `Date` parsing and locale formatting. Timestamps are integer
  milliseconds, and `now` is a parameter.
- Taxonomy.UpsertSpecializationIn: requires the parent course to exist. Its
  only caller, the seed, upserts that course just before.
- Logging (`console.log`, `console.error`), the error-boundary pages, the
  constants file duplicating the seed table, and all markup.
