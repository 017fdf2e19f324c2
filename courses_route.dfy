/**
 * `/api/courses`: `GET` lists every course ascending by name, each with its
 * own specializations; `POST` reads `{ type, name, courseId }` and, on the
 * `type` tag, creates one course or one specialization with a plain `create`.
 * Any failure inside the handler, a duplicate key included, is a 500.
 */
module CoursesRoute {
  import opened Common
  import opened Taxonomy

  // ---------------------------------------------------------------------
  // GET

  /** A course together with the specializations that belong to it. */
  datatype Listing = Listing(course: Course, specializations: seq<Specialization>)

  function CourseName(c: Course): string {
    c.name
  }

  /** The specialization rows of one course, in table order (the `include`). */
  function SpecsOf(ss: seq<Specialization>, courseId: nat): (r: seq<Specialization>)
    ensures forall x :: x in r <==> x in ss && x.courseId == courseId
    ensures forall x :: multiset(r)[x] == if x.courseId == courseId then multiset(ss)[x] else 0
    ensures |r| <= |ss|
  {
    if ss == [] then []
    else
      var rest := SpecsOf(ss[1..], courseId);
      assert forall x :: x in ss <==> x == ss[0] || x in ss[1..] by {
        assert ss == [ss[0]] + ss[1..];
      }
      if ss[0].courseId == courseId then [ss[0]] + rest else rest
  }

  /** The listing order: courses ascending by name. */
  function ByName(t: Tables): (r: seq<Course>)
    ensures SortedBy(r, CourseName)
    ensures multiset(r) == multiset(t.courses)
  {
    SortBySorted(t.courses, CourseName);
    SortBy(t.courses, CourseName)
  }

  /** Listings built with `SpecsOf` hold each course's own specialization rows, as often as stored. */
  lemma ListingSpecs(t: Tables, r: seq<Listing>)
    requires forall i :: 0 <= i < |r| ==> r[i].specializations == SpecsOf(t.specs, r[i].course.id)
    ensures forall i, x :: 0 <= i < |r| ==>
      (x in r[i].specializations <==> x in t.specs && x.courseId == r[i].course.id)
    ensures forall i, x :: 0 <= i < |r| ==>
      multiset(r[i].specializations)[x] == if x.courseId == r[i].course.id then multiset(t.specs)[x] else 0
  {
  }

  /** `findMany` with `include: { specializations: true }` and `orderBy: { name: 'asc' }`. */
  function ListCourses(t: Tables): (r: seq<Listing>)
    ensures |r| == |t.courses|
    ensures forall i, j :: 0 <= i < j < |r| ==> LexLe(r[i].course.name, r[j].course.name)
    ensures forall c :: c in t.courses <==> exists i :: 0 <= i < |r| && r[i].course == c
    ensures forall i, x :: 0 <= i < |r| ==>
      (x in r[i].specializations <==> x in t.specs && x.courseId == r[i].course.id)
    ensures forall i, x :: 0 <= i < |r| ==>
      multiset(r[i].specializations)[x] == if x.courseId == r[i].course.id then multiset(t.specs)[x] else 0
  {
    var cs := ByName(t);
    assert forall c :: c in t.courses <==> c in cs by {
      assert forall c :: c in t.courses <==> multiset(t.courses)[c] > 0;
      assert forall c :: c in cs <==> multiset(cs)[c] > 0;
    }
    var r := seq(|cs|, i requires 0 <= i < |cs| => Listing(cs[i], SpecsOf(t.specs, cs[i].id)));
    ListingSpecs(t, r);
    assert forall c :: c in cs <==> exists i :: 0 <= i < |r| && r[i].course == c by {
      forall c | c in cs ensures exists i :: 0 <= i < |r| && r[i].course == c {
        var i :| 0 <= i < |cs| && cs[i] == c;
        assert r[i].course == c;
      }
    }
    r
  }

  /** The database either answers with its tables or fails. */
  datatype CourseStore = Readable(tables: Tables) | Unreadable

  datatype GetResponse =
    | Courses(listings: seq<Listing>)
    | FetchFailed(error: string)
  {
    function Status(): int {
      if Courses? then 200 else 500
    }
  }

  function Get(store: CourseStore): (resp: GetResponse)
    ensures resp.Status() == 200 <==> store.Readable?
    ensures store.Readable? ==> resp.Courses? && |resp.listings| == |store.tables.courses|
    ensures store.Readable? ==> resp == Courses(ListCourses(store.tables))
    ensures store.Unreadable? ==> resp == FetchFailed("Failed to fetch courses")
  {
    match store
    case Readable(t) => Courses(ListCourses(t))
    case Unreadable => FetchFailed("Failed to fetch courses")
  }

  // ---------------------------------------------------------------------
  // POST

  /**
   * The request body. `Unparseable` is a body that is not JSON, or the JSON
   * `null`, whose destructuring throws (a 500). A `None` field is one that is
   * absent or not of the column's type (a string name, an integer course id);
   * a JSON primitive such as `5` has every field absent, so its `type` is
   * invalid (a 400).
   */
  datatype PostBody =
    | Unparseable
    | Body(kind: Option<string>, name: Option<string>, courseId: Option<int>)

  datatype PostResponse =
    | CourseCreated(course: Course)
    | SpecializationCreated(specialization: Specialization)
    | InvalidType
    | AddFailed
  {
    function Status(): int {
      match this
      case CourseCreated(_) => 200
      case SpecializationCreated(_) => 200
      case InvalidType => 400
      case AddFailed => 500
    }

    function Error(): Option<string> {
      match this
      case InvalidType => Some("Invalid type")
      case AddFailed => Some("Failed to add item")
      case _ => None
    }
  }

  /** The tables after the handler, and its answer. */
  function PostOutcome(t: Tables, body: PostBody): (r: (Tables, PostResponse))
    requires WellFormed(t)
    ensures WellFormed(r.0)
    // Nothing changes unless a row was created.
    ensures r.1.Status() != 200 ==> r.0 == t
    ensures r.1.Status() == 400 <==>
      body.Body? && body.kind != Some("course") && body.kind != Some("specialization")
    // A course POST adds exactly one course with the given name, or fails with 500.
    ensures body.Body? && body.kind == Some("course") ==>
      if body.name.Some? && !HasCourse(t.courses, body.name.value) then
        && r.1.CourseCreated? && r.1.course.name == body.name.value
        && r.0.courses == t.courses + [r.1.course] && r.0.specs == t.specs
      else r.1 == AddFailed
    // A specialization POST adds exactly one row under an existing course, or fails with 500.
    ensures body.Body? && body.kind == Some("specialization") ==>
      if && body.name.Some? && body.courseId.Some? && body.courseId.value >= 0
         && HasCourseId(t.courses, body.courseId.value)
         && !HasSpec(t.specs, body.name.value, body.courseId.value)
      then
        && r.1.SpecializationCreated?
        && r.1.specialization.name == body.name.value
        && r.1.specialization.courseId == body.courseId.value
        && r.0.specs == t.specs + [r.1.specialization] && r.0.courses == t.courses
      else r.1 == AddFailed
    ensures body.Unparseable? ==> r.1 == AddFailed
  {
    match body
    case Unparseable => (t, AddFailed)
    case Body(kind, name, courseId) =>
      if kind == Some("course") then
        if name.None? then (t, AddFailed)
        else
          match CreateCourseIn(t, name.value)
          case None => (t, AddFailed)
          case Some((u, c)) => (u, CourseCreated(c))
      else if kind == Some("specialization") then
        if name.None? || courseId.None? || courseId.value < 0 then (t, AddFailed)
        else
          match CreateSpecializationIn(t, name.value, courseId.value)
          case None => (t, AddFailed)
          case Some((u, s)) => (u, SpecializationCreated(s))
      else (t, InvalidType)
  }

  /** The handler run against the store; the same decisions as `PostOutcome`. */
  method Post(store: TaxonomyStore, body: PostBody) returns (resp: PostResponse)
    requires store.Valid()
    modifies store
    ensures store.Valid()
    ensures (store.State(), resp) == PostOutcome(old(store.State()), body)
  {
    if body.Unparseable? {
      return AddFailed;
    }
    if body.kind == Some("course") {
      if body.name.None? {
        return AddFailed;
      }
      var created := store.CreateCourse(body.name.value);
      if created.None? {
        resp := AddFailed;
      } else {
        resp := CourseCreated(created.value);
      }
    } else if body.kind == Some("specialization") {
      if body.name.None? || body.courseId.None? || body.courseId.value < 0 {
        return AddFailed;
      }
      var created := store.CreateSpecialization(body.name.value, body.courseId.value);
      if created.None? {
        resp := AddFailed;
      } else {
        resp := SpecializationCreated(created.value);
      }
    } else {
      resp := InvalidType;
    }
  }

  /** `POST` is not an upsert: repeating a successful course POST fails with 500 and changes nothing. */
  lemma PostIsNotUpsert(t: Tables, name: string)
    requires WellFormed(t) && !HasCourse(t.courses, name)
    ensures var first := PostOutcome(t, Body(Some("course"), Some(name), None));
      && first.1.Status() == 200
      && PostOutcome(first.0, Body(Some("course"), Some(name), None)) == (first.0, AddFailed)
  {
    var first := PostOutcome(t, Body(Some("course"), Some(name), None));
    assert first.0.courses[|t.courses|].name == name;
  }

  /** A course created by `POST` shows up in the `GET` listing. */
  lemma CreatedCourseIsListed(t: Tables, name: string)
    requires WellFormed(t) && !HasCourse(t.courses, name)
    ensures var u := PostOutcome(t, Body(Some("course"), Some(name), None)).0;
      exists i :: 0 <= i < |ListCourses(u)| && ListCourses(u)[i].course.name == name
  {
    var r := PostOutcome(t, Body(Some("course"), Some(name), None));
    var c := r.1.course;
    assert c in r.0.courses;
    var i :| 0 <= i < |ListCourses(r.0)| && ListCourses(r.0)[i].course == c;
  }
}
