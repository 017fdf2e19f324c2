/**
 * The course taxonomy: a Course table unique by name and a Specialization
 * table unique by the pair (name, courseId), each specialization belonging to
 * an existing course. The seed script upserts a fixed course-to-specialization
 * table with an empty update (so an existing row is left as it is); the
 * management route uses plain `create`, which fails on a duplicate key.
 */
module Taxonomy {
  import opened Common

  datatype Course = Course(id: nat, name: string)
  datatype Specialization = Specialization(id: nat, name: string, courseId: nat)

  /** Both tables, with the next id each one will hand out. */
  datatype Tables = Tables(
    courses: seq<Course>,
    specs: seq<Specialization>,
    nextCourseId: nat,
    nextSpecId: nat)

  predicate HasCourse(cs: seq<Course>, name: string) {
    exists i :: 0 <= i < |cs| && cs[i].name == name
  }

  predicate HasCourseId(cs: seq<Course>, id: nat) {
    exists i :: 0 <= i < |cs| && cs[i].id == id
  }

  predicate HasSpec(ss: seq<Specialization>, name: string, courseId: nat) {
    exists i :: 0 <= i < |ss| && ss[i].name == name && ss[i].courseId == courseId
  }

  /** No two course rows share a name. */
  predicate UniqueNames(cs: seq<Course>) {
    forall i, j :: 0 <= i < j < |cs| ==> cs[i].name != cs[j].name
  }

  /** The database's constraints: fresh increasing ids, unique keys, and existing parent courses. */
  predicate WellFormed(t: Tables) {
    && (forall i, j :: 0 <= i < j < |t.courses| ==> t.courses[i].id < t.courses[j].id)
    && (forall i :: 0 <= i < |t.courses| ==> t.courses[i].id < t.nextCourseId)
    && UniqueNames(t.courses)
    && (forall i, j :: 0 <= i < j < |t.specs| ==> t.specs[i].id < t.specs[j].id)
    && (forall i :: 0 <= i < |t.specs| ==> t.specs[i].id < t.nextSpecId)
    && (forall i, j :: 0 <= i < j < |t.specs| ==>
          t.specs[i].name != t.specs[j].name || t.specs[i].courseId != t.specs[j].courseId)
    && (forall i :: 0 <= i < |t.specs| ==> HasCourseId(t.courses, t.specs[i].courseId))
  }

  /** `u` keeps every row of `t` where it was and may add rows after them. */
  predicate Extends(t: Tables, u: Tables) {
    t.courses <= u.courses && t.specs <= u.specs
  }

  // ---------------------------------------------------------------------
  // Lookups by unique key

  function FindCourse(cs: seq<Course>, name: string): (r: Option<nat>)
    ensures r.Some? ==> r.value < |cs| && cs[r.value].name == name
    ensures r.None? <==> !HasCourse(cs, name)
  {
    if cs == [] then None
    else if cs[|cs| - 1].name == name then Some(|cs| - 1)
    else FindCourse(cs[..|cs| - 1], name)
  }

  function FindSpec(ss: seq<Specialization>, name: string, courseId: nat): (r: Option<nat>)
    ensures r.Some? ==> r.value < |ss| && ss[r.value].name == name && ss[r.value].courseId == courseId
    ensures r.None? <==> !HasSpec(ss, name, courseId)
  {
    if ss == [] then None
    else if ss[|ss| - 1].name == name && ss[|ss| - 1].courseId == courseId then Some(|ss| - 1)
    else FindSpec(ss[..|ss| - 1], name, courseId)
  }

  // ---------------------------------------------------------------------
  // Upsert with an empty update, and plain create

  function UpsertCourseIn(t: Tables, name: string): (r: (Tables, Course))
    requires WellFormed(t)
    ensures WellFormed(r.0) && Extends(t, r.0)
    ensures r.1.name == name && r.1 in r.0.courses
    ensures HasCourse(t.courses, name) ==> r.0 == t && r.1 in t.courses
    ensures !HasCourse(t.courses, name) ==>
      r.0.courses == t.courses + [r.1] && r.0.specs == t.specs && r.1.id !in (set c | c in t.courses :: c.id)
  {
    match FindCourse(t.courses, name)
    case Some(i) => (t, t.courses[i])
    case None =>
      var c := Course(t.nextCourseId, name);
      var u := t.(courses := t.courses + [c], nextCourseId := t.nextCourseId + 1);
      assert forall i :: 0 <= i < |t.specs| ==> HasCourseId(u.courses, t.specs[i].courseId) by {
        forall i | 0 <= i < |t.specs| ensures HasCourseId(u.courses, t.specs[i].courseId) {
          var k :| 0 <= k < |t.courses| && t.courses[k].id == t.specs[i].courseId;
          assert u.courses[k] == t.courses[k];
        }
      }
      (u, c)
  }

  function UpsertSpecializationIn(t: Tables, name: string, courseId: nat): (r: (Tables, Specialization))
    requires WellFormed(t) && HasCourseId(t.courses, courseId)
    ensures WellFormed(r.0) && Extends(t, r.0) && r.0.courses == t.courses
    ensures r.1.name == name && r.1.courseId == courseId && r.1 in r.0.specs
    ensures HasSpec(t.specs, name, courseId) ==> r.0 == t && r.1 in t.specs
    ensures !HasSpec(t.specs, name, courseId) ==> r.0.specs == t.specs + [r.1]
  {
    match FindSpec(t.specs, name, courseId)
    case Some(i) => (t, t.specs[i])
    case None =>
      var s := Specialization(t.nextSpecId, name, courseId);
      (t.(specs := t.specs + [s], nextSpecId := t.nextSpecId + 1), s)
  }

  /** `create` of a course: a second row with the same name violates the unique key. */
  function CreateCourseIn(t: Tables, name: string): (r: Option<(Tables, Course)>)
    requires WellFormed(t)
    ensures r.None? <==> HasCourse(t.courses, name)
    ensures r.Some? ==>
      && WellFormed(r.value.0)
      && r.value.0.courses == t.courses + [r.value.1] && r.value.0.specs == t.specs
      && r.value.1.name == name
  {
    if HasCourse(t.courses, name) then None else Some(UpsertCourseIn(t, name))
  }

  /** `create` of a specialization: fails on a duplicate pair or a missing parent course. */
  function CreateSpecializationIn(t: Tables, name: string, courseId: nat): (r: Option<(Tables, Specialization)>)
    requires WellFormed(t)
    ensures r.None? <==> HasSpec(t.specs, name, courseId) || !HasCourseId(t.courses, courseId)
    ensures r.Some? ==>
      && WellFormed(r.value.0)
      && r.value.0.specs == t.specs + [r.value.1] && r.value.0.courses == t.courses
      && r.value.1.name == name && r.value.1.courseId == courseId
  {
    if HasSpec(t.specs, name, courseId) || !HasCourseId(t.courses, courseId) then None
    else Some(UpsertSpecializationIn(t, name, courseId))
  }

  // ---------------------------------------------------------------------
  // The seed table and the seeding as a function of the tables

  type Entry = (string, seq<string>)

  const COURSES: seq<Entry> := [
    ("B.Tech", ["CSE", "ECE", "ME", "CE", "EE"]),
    ("MCA", ["Cloud Computing", "AI", "Data Science", "Cyber Security"]),
    ("M.Tech", ["CSE", "VLSI", "Power Systems"]),
    ("BCA", ["General", "AI", "Data Science"])
  ]

  /** A course name that the entries seed. */
  predicate SeedsCourse(es: seq<Entry>, name: string) {
    exists k :: 0 <= k < |es| && es[k].0 == name
  }

  /** A specialization name that the entries seed under some course. */
  predicate SeedsSpec(es: seq<Entry>, name: string) {
    exists k :: 0 <= k < |es| && name in es[k].1
  }

  /** The inner loop: upsert each name, in order, under one course. */
  function SeedSpecs(t: Tables, courseId: nat, names: seq<string>): (r: Tables)
    requires WellFormed(t) && HasCourseId(t.courses, courseId)
    ensures WellFormed(r) && Extends(t, r) && r.courses == t.courses
    decreases |names|
  {
    if names == [] then t
    else
      var p := SeedSpecs(t, courseId, names[..|names| - 1]);
      UpsertSpecializationIn(p, names[|names| - 1], courseId).0
  }

  /** One pass of the outer loop: upsert the course, then its specializations. */
  function SeedEntry(t: Tables, e: Entry): (r: Tables)
    requires WellFormed(t)
    ensures WellFormed(r) && Extends(t, r)
  {
    var (u, c) := UpsertCourseIn(t, e.0);
    assert HasCourseId(u.courses, c.id);
    SeedSpecs(u, c.id, e.1)
  }

  /** The outer loop over the entries, in order. */
  function SeedAll(t: Tables, es: seq<Entry>): (r: Tables)
    requires WellFormed(t)
    ensures WellFormed(r) && Extends(t, r)
    decreases |es|
  {
    if es == [] then t
    else SeedEntry(SeedAll(t, es[..|es| - 1]), es[|es| - 1])
  }

  /** One more pass of the inner loop. */
  lemma SeedSpecsStep(t: Tables, courseId: nat, names: seq<string>, j: nat)
    requires WellFormed(t) && HasCourseId(t.courses, courseId) && j < |names|
    ensures SeedSpecs(t, courseId, names[..j + 1])
         == UpsertSpecializationIn(SeedSpecs(t, courseId, names[..j]), names[j], courseId).0
  {
    assert names[..j + 1][..j] == names[..j];
  }

  /** One more pass of the outer loop. */
  lemma SeedAllStep(t: Tables, es: seq<Entry>, i: nat)
    requires WellFormed(t) && i < |es|
    ensures SeedAll(t, es[..i + 1]) == SeedEntry(SeedAll(t, es[..i]), es[i])
  {
    assert es[..i + 1][..i] == es[..i];
  }

  function SeedResult(t: Tables): Tables
    requires WellFormed(t)
  {
    SeedAll(t, COURSES)
  }

  // ---------------------------------------------------------------------
  // What a seeded store holds

  /** The course of the entry exists, and each of its specializations exists under that course. */
  predicate EntryPresent(t: Tables, e: Entry) {
    match FindCourse(t.courses, e.0)
    case None => false
    case Some(i) => forall s :: s in e.1 ==> HasSpec(t.specs, s, t.courses[i].id)
  }

  predicate Seeded(t: Tables, es: seq<Entry>) {
    forall k :: 0 <= k < |es| ==> EntryPresent(t, es[k])
  }

  /** With unique names the course with a given name sits at one index only. */
  lemma CourseIndexUnique(cs: seq<Course>, i: nat, j: nat)
    requires UniqueNames(cs) && i < |cs| && j < |cs|
    requires cs[i].name == cs[j].name
    ensures i == j
  {
  }

  /** Rows already present stay present under an extension. */
  lemma {:induction false} EntryPresentPreserved(t: Tables, u: Tables, e: Entry)
    requires UniqueNames(u.courses) && Extends(t, u) && EntryPresent(t, e)
    ensures EntryPresent(u, e)
  {
    var i := FindCourse(t.courses, e.0).value;
    assert u.courses[i] == t.courses[i];
    var j := FindCourse(u.courses, e.0).value;
    CourseIndexUnique(u.courses, i, j);
    forall s | s in e.1 ensures HasSpec(u.specs, s, u.courses[j].id) {
      HasSpecPreserved(t, u, s, t.courses[i].id);
    }
  }

  lemma HasSpecPreserved(t: Tables, u: Tables, name: string, courseId: nat)
    requires Extends(t, u) && HasSpec(t.specs, name, courseId)
    ensures HasSpec(u.specs, name, courseId)
  {
    var m :| 0 <= m < |t.specs| && t.specs[m].name == name && t.specs[m].courseId == courseId;
    assert u.specs[m] == t.specs[m];
  }

  /** Each of `names` has a row under `courseId`. */
  predicate AllUnder(ss: seq<Specialization>, courseId: nat, names: seq<string>) {
    forall s :: s in names ==> HasSpec(ss, s, courseId)
  }

  lemma AllUnderStep(p: Tables, r: Tables, courseId: nat, names: seq<string>, x: Specialization)
    requires names != [] && Extends(p, r)
    requires AllUnder(p.specs, courseId, names[..|names| - 1])
    requires x in r.specs && x.name == names[|names| - 1] && x.courseId == courseId
    ensures AllUnder(r.specs, courseId, names)
  {
    var n := |names| - 1;
    forall s | s in names ensures HasSpec(r.specs, s, courseId) {
      if s != names[n] {
        assert s in names[..n];
        HasSpecPreserved(p, r, s, courseId);
      } else {
        var m :| 0 <= m < |r.specs| && r.specs[m] == x;
      }
    }
  }

  lemma {:induction false} SeedSpecsEstablishes(t: Tables, courseId: nat, names: seq<string>)
    requires WellFormed(t) && HasCourseId(t.courses, courseId)
    ensures AllUnder(SeedSpecs(t, courseId, names).specs, courseId, names)
    decreases |names|
  {
    if names != [] {
      var n := |names| - 1;
      var p := SeedSpecs(t, courseId, names[..n]);
      var ux := UpsertSpecializationIn(p, names[n], courseId);
      assert ux.0 == SeedSpecs(t, courseId, names);
      SeedSpecsEstablishes(t, courseId, names[..n]);
      AllUnderStep(p, ux.0, courseId, names, ux.1);
    }
  }

  lemma SeedEntryEstablishes(t: Tables, e: Entry)
    requires WellFormed(t)
    ensures EntryPresent(SeedEntry(t, e), e)
  {
    var uc := UpsertCourseIn(t, e.0);
    var u, c := uc.0, uc.1;
    assert HasCourseId(u.courses, c.id);
    var r := SeedSpecs(u, c.id, e.1);
    assert r == SeedEntry(t, e);
    SeedSpecsEstablishes(u, c.id, e.1);
    var i := FindCourse(r.courses, e.0).value;
    var j :| 0 <= j < |u.courses| && u.courses[j] == c;
    CourseIndexUnique(r.courses, i, j);
  }

  lemma SeededStep(p: Tables, r: Tables, es: seq<Entry>)
    requires es != [] && UniqueNames(r.courses) && Extends(p, r)
    requires Seeded(p, es[..|es| - 1]) && EntryPresent(r, es[|es| - 1])
    ensures Seeded(r, es)
  {
    var n := |es| - 1;
    forall k | 0 <= k < |es| ensures EntryPresent(r, es[k]) {
      if k < n {
        assert es[..n][k] == es[k];
        EntryPresentPreserved(p, r, es[k]);
      }
    }
  }

  lemma {:induction false} SeedAllEstablishes(t: Tables, es: seq<Entry>)
    requires WellFormed(t)
    ensures Seeded(SeedAll(t, es), es)
    decreases |es|
  {
    if es != [] {
      var n := |es| - 1;
      var p := SeedAll(t, es[..n]);
      var r := SeedAll(t, es);
      assert r == SeedEntry(p, es[n]);
      SeedAllEstablishes(t, es[..n]);
      SeedEntryEstablishes(p, es[n]);
      SeededStep(p, r, es);
    }
  }

  lemma {:induction false} SeedSpecsNoop(t: Tables, courseId: nat, names: seq<string>)
    requires WellFormed(t) && HasCourseId(t.courses, courseId)
    requires forall s :: s in names ==> HasSpec(t.specs, s, courseId)
    ensures SeedSpecs(t, courseId, names) == t
    decreases |names|
  {
    if names != [] {
      var n := |names| - 1;
      assert forall s :: s in names[..n] ==> s in names;
      SeedSpecsNoop(t, courseId, names[..n]);
      assert names[n] in names;
    }
  }

  lemma {:induction false} SeedAllNoop(t: Tables, es: seq<Entry>)
    requires WellFormed(t) && Seeded(t, es)
    ensures SeedAll(t, es) == t
    decreases |es|
  {
    if es != [] {
      var n := |es| - 1;
      assert Seeded(t, es[..n]) by {
        forall k | 0 <= k < n ensures EntryPresent(t, es[..n][k]) {
          assert es[..n][k] == es[k];
        }
      }
      SeedAllNoop(t, es[..n]);
      var e := es[n];
      assert EntryPresent(t, e);
      var i := FindCourse(t.courses, e.0).value;
      assert UpsertCourseIn(t, e.0) == (t, t.courses[i]);
      SeedSpecsNoop(t, t.courses[i].id, e.1);
    }
  }

  /** Running the seed a second time changes nothing. */
  lemma SeedIdempotent(t: Tables)
    requires WellFormed(t)
    ensures SeedResult(SeedResult(t)) == SeedResult(t)
  {
    SeedAllEstablishes(t, COURSES);
    SeedAllNoop(SeedResult(t), COURSES);
  }

  /** Seeding keeps every existing row as it was and adds only rows named in the seed table. */
  lemma SeedTouchesOnlySeedRows(t: Tables)
    requires WellFormed(t)
    ensures t.courses <= SeedResult(t).courses && t.specs <= SeedResult(t).specs
    ensures CoursesFrom(SeedResult(t).courses, |t.courses|, COURSES)
    ensures SpecsFrom(SeedResult(t).specs, |t.specs|, COURSES)
  {
    SeedAllAddsOnly(t, COURSES);
  }

  /** Every specialization row after position `from` lies under `courseId` and is named in `names`. */
  predicate AddedUnder(ss: seq<Specialization>, from: nat, courseId: nat, names: seq<string>) {
    forall i :: from <= i < |ss| ==> ss[i].courseId == courseId && ss[i].name in names
  }

  /** Every course row after position `from` has a name the entries seed. */
  predicate CoursesFrom(cs: seq<Course>, from: nat, es: seq<Entry>) {
    forall i :: from <= i < |cs| ==> SeedsCourse(es, cs[i].name)
  }

  /** Every specialization row after position `from` has a name the entries seed. */
  predicate SpecsFrom(ss: seq<Specialization>, from: nat, es: seq<Entry>) {
    forall i :: from <= i < |ss| ==> SeedsSpec(es, ss[i].name)
  }

  lemma {:induction false} SeedSpecsAddsOnly(t: Tables, courseId: nat, names: seq<string>)
    requires WellFormed(t) && HasCourseId(t.courses, courseId)
    ensures AddedUnder(SeedSpecs(t, courseId, names).specs, |t.specs|, courseId, names)
    decreases |names|
  {
    if names != [] {
      var n := |names| - 1;
      var p := SeedSpecs(t, courseId, names[..n]);
      var ux := UpsertSpecializationIn(p, names[n], courseId);
      var r := ux.0;
      assert r == SeedSpecs(t, courseId, names);
      SeedSpecsAddsOnly(t, courseId, names[..n]);
      forall i | |t.specs| <= i < |r.specs| ensures r.specs[i].courseId == courseId && r.specs[i].name in names {
        if i < |p.specs| {
          assert r.specs[i] == p.specs[i];
          assert p.specs[i].name in names[..n];
        } else {
          assert r.specs[i] == ux.1;
        }
      }
    }
  }

  lemma SeedEntryAddsOnly(t: Tables, e: Entry)
    requires WellFormed(t)
    ensures CoursesFrom(SeedEntry(t, e).courses, |t.courses|, [e])
    ensures SpecsFrom(SeedEntry(t, e).specs, |t.specs|, [e])
  {
    var uc := UpsertCourseIn(t, e.0);
    var u, c := uc.0, uc.1;
    assert HasCourseId(u.courses, c.id);
    var r := SeedSpecs(u, c.id, e.1);
    assert r == SeedEntry(t, e);
    SeedSpecsAddsOnly(u, c.id, e.1);
    forall i | |t.courses| <= i < |r.courses| ensures SeedsCourse([e], r.courses[i].name) {
      assert r.courses[i] == c;
      assert [e][0].0 == e.0;
    }
    forall i | |t.specs| <= i < |r.specs| ensures SeedsSpec([e], r.specs[i].name) {
      assert u.specs == t.specs;
      assert r.specs[i].name in [e][0].1;
    }
  }

  lemma CoursesFromStep(p: seq<Course>, r: seq<Course>, from: nat, es: seq<Entry>)
    requires es != [] && p <= r && from <= |p|
    requires CoursesFrom(p, from, es[..|es| - 1]) && CoursesFrom(r, |p|, [es[|es| - 1]])
    ensures CoursesFrom(r, from, es)
  {
    var n := |es| - 1;
    forall i | from <= i < |r| ensures SeedsCourse(es, r[i].name) {
      if i < |p| {
        assert r[i] == p[i];
        var k :| 0 <= k < n && es[..n][k].0 == p[i].name;
        assert es[k].0 == r[i].name;
      } else {
        assert SeedsCourse([es[n]], r[i].name);
        assert es[n].0 == r[i].name;
      }
    }
  }

  lemma SpecsFromStep(p: seq<Specialization>, r: seq<Specialization>, from: nat, es: seq<Entry>)
    requires es != [] && p <= r && from <= |p|
    requires SpecsFrom(p, from, es[..|es| - 1]) && SpecsFrom(r, |p|, [es[|es| - 1]])
    ensures SpecsFrom(r, from, es)
  {
    var n := |es| - 1;
    forall i | from <= i < |r| ensures SeedsSpec(es, r[i].name) {
      if i < |p| {
        assert r[i] == p[i];
        var k :| 0 <= k < n && p[i].name in es[..n][k].1;
        assert r[i].name in es[k].1;
      } else {
        assert SeedsSpec([es[n]], r[i].name);
        assert r[i].name in es[n].1;
      }
    }
  }

  lemma {:induction false} SeedAllAddsOnly(t: Tables, es: seq<Entry>)
    requires WellFormed(t)
    ensures CoursesFrom(SeedAll(t, es).courses, |t.courses|, es)
    ensures SpecsFrom(SeedAll(t, es).specs, |t.specs|, es)
    decreases |es|
  {
    if es != [] {
      var n := |es| - 1;
      var p := SeedAll(t, es[..n]);
      var r := SeedAll(t, es);
      assert r == SeedEntry(p, es[n]);
      SeedAllAddsOnly(t, es[..n]);
      SeedEntryAddsOnly(p, es[n]);
      CoursesFromStep(p.courses, r.courses, |t.courses|, es);
      SpecsFromStep(p.specs, r.specs, |t.specs|, es);
    }
  }

  // ---------------------------------------------------------------------
  // Exactly once

  function CountCourses(cs: seq<Course>, name: string): nat {
    if cs == [] then 0
    else CountCourses(cs[..|cs| - 1], name) + (if cs[|cs| - 1].name == name then 1 else 0)
  }

  function CountSpecs(ss: seq<Specialization>, name: string, courseId: nat): nat {
    if ss == [] then 0
    else CountSpecs(ss[..|ss| - 1], name, courseId)
         + (if ss[|ss| - 1].name == name && ss[|ss| - 1].courseId == courseId then 1 else 0)
  }

  lemma {:induction false} CountCoursesUnique(cs: seq<Course>, name: string)
    requires forall i, j :: 0 <= i < j < |cs| ==> cs[i].name != cs[j].name
    ensures CountCourses(cs, name) == if HasCourse(cs, name) then 1 else 0
  {
    if cs != [] {
      var p := cs[..|cs| - 1];
      CountCoursesUnique(p, name);
      if cs[|cs| - 1].name != name && HasCourse(cs, name) {
        var k :| 0 <= k < |cs| && cs[k].name == name;
        assert p[k].name == name;
      }
    }
  }

  lemma {:induction false} CountSpecsUnique(ss: seq<Specialization>, name: string, courseId: nat)
    requires forall i, j :: 0 <= i < j < |ss| ==> ss[i].name != ss[j].name || ss[i].courseId != ss[j].courseId
    ensures CountSpecs(ss, name, courseId) == if HasSpec(ss, name, courseId) then 1 else 0
  {
    if ss != [] {
      var p := ss[..|ss| - 1];
      CountSpecsUnique(p, name, courseId);
      var last := ss[|ss| - 1];
      if !(last.name == name && last.courseId == courseId) && HasSpec(ss, name, courseId) {
        var k :| 0 <= k < |ss| && ss[k].name == name && ss[k].courseId == courseId;
        assert p[k].name == name;
      }
    }
  }

  /** The entry's course is stored exactly once, and each of its specializations exactly once under it. */
  predicate StoredOnce(r: Tables, e: Entry) {
    exists i :: 0 <= i < |r.courses| && r.courses[i].name == e.0
      && CountCourses(r.courses, e.0) == 1
      && forall s :: s in e.1 ==> CountSpecs(r.specs, s, r.courses[i].id) == 1
  }

  lemma PresentIsStoredOnce(r: Tables, e: Entry)
    requires WellFormed(r) && EntryPresent(r, e)
    ensures StoredOnce(r, e)
  {
    var i := FindCourse(r.courses, e.0).value;
    CountCoursesUnique(r.courses, e.0);
    forall s | s in e.1 ensures CountSpecs(r.specs, s, r.courses[i].id) == 1 {
      CountSpecsUnique(r.specs, s, r.courses[i].id);
    }
  }

  /** Every entry of the seed table is present after seeding. */
  lemma SeedEstablishesEntry(t: Tables, k: nat)
    requires WellFormed(t) && k < |COURSES|
    ensures EntryPresent(SeedResult(t), COURSES[k])
  {
    SeedAllEstablishes(t, COURSES);
  }

  /**
   * After seeding, each seeded course name is stored exactly once, and each
   * seeded specialization exactly once under that course.
   */
  lemma SeedStoresEachRowOnce(t: Tables, k: nat)
    requires WellFormed(t) && k < |COURSES|
    ensures StoredOnce(SeedResult(t), COURSES[k])
  {
    SeedEstablishesEntry(t, k);
    PresentIsStoredOnce(SeedResult(t), COURSES[k]);
  }

  /** Two specialization rows carry `name`, under two different courses. */
  predicate UnderTwoCourses(ss: seq<Specialization>, name: string) {
    exists a, b :: 0 <= a < |ss| && 0 <= b < |ss| && a != b
      && ss[a].name == name && ss[b].name == name && ss[a].courseId != ss[b].courseId
  }

  lemma SharedNameTwoRows(r: Tables, e1: Entry, e2: Entry, name: string)
    requires WellFormed(r) && EntryPresent(r, e1) && EntryPresent(r, e2)
    requires e1.0 != e2.0 && name in e1.1 && name in e2.1
    ensures UnderTwoCourses(r.specs, name)
  {
    var i := FindCourse(r.courses, e1.0).value;
    var j := FindCourse(r.courses, e2.0).value;
    var a :| 0 <= a < |r.specs| && r.specs[a].name == name && r.specs[a].courseId == r.courses[i].id;
    var b :| 0 <= b < |r.specs| && r.specs[b].name == name && r.specs[b].courseId == r.courses[j].id;
    assert r.courses[i].id != r.courses[j].id by {
      if i < j { assert r.courses[i].id < r.courses[j].id; }
      else { assert r.courses[j].id < r.courses[i].id; }
    }
  }

  /** 'CSE' is seeded under both B.Tech and M.Tech, as two distinct rows. */
  lemma SameNameUnderTwoCourses(t: Tables)
    requires WellFormed(t)
    ensures UnderTwoCourses(SeedResult(t).specs, "CSE")
  {
    SeedEstablishesEntry(t, 0);
    SeedEstablishesEntry(t, 2);
    assert COURSES[0].0 == "B.Tech" && COURSES[2].0 == "M.Tech";
    assert "CSE" in COURSES[0].1 && "CSE" in COURSES[2].1;
    SharedNameTwoRows(SeedResult(t), COURSES[0], COURSES[2], "CSE");
  }

  /** An upsert repeated with the same key changes nothing and returns the same row. */
  lemma UpsertCourseIdempotent(t: Tables, name: string)
    requires WellFormed(t)
    ensures var (u, c) := UpsertCourseIn(t, name);
      UpsertCourseIn(u, name) == (u, c)
  {
    var (u, c) := UpsertCourseIn(t, name);
    var i := FindCourse(u.courses, name).value;
    var j :| 0 <= j < |u.courses| && u.courses[j] == c;
    CourseIndexUnique(u.courses, i, j);
  }

  // ---------------------------------------------------------------------
  // The database as an object updated in place

  class TaxonomyStore {
    var courses: seq<Course>
    var specializations: seq<Specialization>
    var nextCourseId: nat
    var nextSpecId: nat

    function State(): Tables
      reads this
    {
      Tables(courses, specializations, nextCourseId, nextSpecId)
    }

    ghost predicate Valid()
      reads this
    {
      WellFormed(State())
    }

    constructor ()
      ensures Valid() && State() == Tables([], [], 0, 0)
    {
      courses, specializations := [], [];
      nextCourseId, nextSpecId := 0, 0;
    }

    method UpsertCourse(name: string) returns (c: Course)
      requires Valid()
      modifies this
      ensures Valid()
      ensures (State(), c) == UpsertCourseIn(old(State()), name)
    {
      var found := FindCourse(courses, name);
      if found.Some? {
        c := courses[found.value];
      } else {
        c := Course(nextCourseId, name);
        courses := courses + [c];
        nextCourseId := nextCourseId + 1;
      }
      assert (State(), c) == UpsertCourseIn(old(State()), name);
    }

    method UpsertSpecialization(name: string, courseId: nat) returns (s: Specialization)
      requires Valid() && HasCourseId(courses, courseId)
      modifies this
      ensures Valid()
      ensures (State(), s) == UpsertSpecializationIn(old(State()), name, courseId)
    {
      var found := FindSpec(specializations, name, courseId);
      if found.Some? {
        s := specializations[found.value];
      } else {
        s := Specialization(nextSpecId, name, courseId);
        specializations := specializations + [s];
        nextSpecId := nextSpecId + 1;
      }
      assert (State(), s) == UpsertSpecializationIn(old(State()), name, courseId);
    }

    /** Plain `create`; `None` is the error the database raises on a duplicate name. */
    method CreateCourse(name: string) returns (r: Option<Course>)
      requires Valid()
      modifies this
      ensures Valid()
      ensures match CreateCourseIn(old(State()), name)
        case None => r.None? && State() == old(State())
        case Some((u, c)) => r == Some(c) && State() == u
    {
      if HasCourse(courses, name) {
        r := None;
      } else {
        var c := UpsertCourse(name);
        r := Some(c);
      }
    }

    /** Plain `create`; `None` is the error raised on a duplicate pair or a missing course. */
    method CreateSpecialization(name: string, courseId: nat) returns (r: Option<Specialization>)
      requires Valid()
      modifies this
      ensures Valid()
      ensures match CreateSpecializationIn(old(State()), name, courseId)
        case None => r.None? && State() == old(State())
        case Some((u, s)) => r == Some(s) && State() == u
    {
      if HasSpec(specializations, name, courseId) || !HasCourseId(courses, courseId) {
        r := None;
      } else {
        var s := UpsertSpecialization(name, courseId);
        r := Some(s);
      }
    }

    /** The inner loop of the seed script: upsert each name, in order, under one course. */
    method SeedSpecializations(courseId: nat, names: seq<string>)
      requires Valid() && HasCourseId(courses, courseId)
      modifies this
      ensures Valid()
      ensures State() == SeedSpecs(old(State()), courseId, names)
    {
      for j := 0 to |names|
        invariant Valid() && courses == old(courses)
        invariant State() == SeedSpecs(old(State()), courseId, names[..j])
      {
        SeedSpecsStep(old(State()), courseId, names, j);
        var spec := UpsertSpecialization(names[j], courseId);
      }
      assert names[..|names|] == names;
    }

    /** The outer loop of the seed script over a course-to-specializations table. */
    method SeedFrom(es: seq<Entry>)
      requires Valid()
      modifies this
      ensures Valid()
      ensures State() == SeedAll(old(State()), es)
    {
      for i := 0 to |es|
        invariant Valid()
        invariant State() == SeedAll(old(State()), es[..i])
      {
        var (courseName, specNames) := es[i];
        var course := UpsertCourse(courseName);
        assert HasCourseId(courses, course.id);
        SeedSpecializations(course.id, specNames);
        SeedAllStep(old(State()), es, i);
      }
      assert es[..|es|] == es;
    }

    /** The seed script: every course of COURSES and its specializations, upserted in order. */
    method Seed()
      requires Valid()
      modifies this
      ensures Valid()
      ensures State() == SeedResult(old(State()))
    {
      SeedFrom(COURSES);
    }
  }
}
