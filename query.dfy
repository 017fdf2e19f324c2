/**
 * `GET /api/resources`: the optional `q`, `category`, `course` and
 * `specialization` parameters become one AND of four conditions over the
 * Resource rows, and the matches are returned newest first. A store that
 * cannot be read gives a 500 service error; an empty match is a 200.
 */
module ResourceQuery {
  import opened Common
  import opened Records

  /** The four search parameters; `None` is a parameter absent from the URL. */
  datatype Params = Params(
    q: Option<string>,
    category: Option<string>,
    course: Option<string>,
    specialization: Option<string>)

  /** JavaScript truthiness of a parameter: present and not the empty string. */
  predicate Supplied(v: Option<string>) {
    v.Some? && v.value != ""
  }

  /** The text clause: case-insensitive `q` in the title or in the description. */
  predicate TextMatches(q: Option<string>, r: Resource) {
    Supplied(q) ==>
      ContainsIgnoreCase(r.title, q.value) ||
      (r.description.Some? && ContainsIgnoreCase(r.description.value, q.value))
  }

  /** A tag clause: exact equality unless the filter is absent, empty or 'All'. */
  predicate TagMatches(filter: Option<string>, column: Option<string>) {
    Supplied(filter) && filter.value != "All" ==> column == filter
  }

  /** The whole `where` clause: the conjunction of the four clauses. */
  predicate Matches(p: Params, r: Resource)
    ensures Matches(p, r) && Supplied(p.category) && p.category.value != "All" ==> r.category == p.category.value
    ensures Matches(p, r) && Supplied(p.course) && p.course.value != "All" ==> r.course == p.course
    ensures Matches(p, r) && Supplied(p.specialization) && p.specialization.value != "All" ==>
      r.specialization == p.specialization
    ensures Matches(p, r) && Supplied(p.q) ==>
      ContainsIgnoreCase(r.title, p.q.value) ||
      (r.description.Some? && ContainsIgnoreCase(r.description.value, p.q.value))
    ensures !Supplied(p.q) && !Supplied(p.category) && !Supplied(p.course) && !Supplied(p.specialization) ==>
      Matches(p, r)
  {
    && TextMatches(p.q, r)
    && TagMatches(p.category, Some(r.category))
    && TagMatches(p.course, r.course)
    && TagMatches(p.specialization, r.specialization)
  }

  /** The rows satisfying the `where` clause, in table order. */
  function Select(rows: seq<Resource>, p: Params): (r: seq<Resource>)
    ensures forall x :: multiset(r)[x] == if Matches(p, x) then multiset(rows)[x] else 0
  {
    if rows == [] then []
    else
      assert rows == [rows[0]] + rows[1..];
      (if Matches(p, rows[0]) then [rows[0]] else []) + Select(rows[1..], p)
  }

  // ---------------------------------------------------------------------
  // orderBy createdAt desc

  predicate NewestFirst(s: seq<Resource>) {
    forall i, j :: 0 <= i < j < |s| ==> s[i].createdAt >= s[j].createdAt
  }

  /**
   * The route's own insertion sort. It is kept apart from `Common.SortBy`,
   * which sorts ascending by a string key under code-unit order; this one
   * sorts descending by an integer timestamp, with different order laws.
   */
  function InsertByTime(x: Resource, s: seq<Resource>): (r: seq<Resource>)
    requires NewestFirst(s)
    ensures NewestFirst(r)
    ensures multiset(r) == multiset(s) + multiset{x}
    ensures forall y :: y in r <==> y == x || y in s
  {
    if s == [] || x.createdAt >= s[0].createdAt then [x] + s
    else
      assert s == [s[0]] + s[1..];
      var rest := InsertByTime(x, s[1..]);
      assert forall k :: 0 <= k < |rest| ==> s[0].createdAt >= rest[k].createdAt by {
        forall k | 0 <= k < |rest| ensures s[0].createdAt >= rest[k].createdAt {
          assert rest[k] in rest;
        }
      }
      [s[0]] + rest
  }

  function SortNewestFirst(s: seq<Resource>): (r: seq<Resource>)
    ensures NewestFirst(r)
    ensures multiset(r) == multiset(s)
  {
    if s == [] then []
    else
      assert s == [s[0]] + s[1..];
      InsertByTime(s[0], SortNewestFirst(s[1..]))
  }

  /** `findMany` with the `where` clause and the ordering. */
  function Run(rows: seq<Resource>, p: Params): (r: seq<Resource>)
    ensures NewestFirst(r)
    ensures forall x :: multiset(r)[x] == if Matches(p, x) then multiset(rows)[x] else 0
    ensures forall x :: x in r <==> x in rows && Matches(p, x)
  {
    var r := SortNewestFirst(Select(rows, p));
    assert forall x :: x in r <==> multiset(r)[x] > 0;
    assert forall x :: x in rows <==> multiset(rows)[x] > 0;
    r
  }

  // ---------------------------------------------------------------------
  // The route's outcome

  /** The store either answers with its rows or fails with an error message. */
  datatype Store = Available(rows: seq<Resource>) | Unavailable(message: string)

  datatype Response =
    | Found(resources: seq<Resource>)
    | ServiceError(error: string, message: string)
  {
    function Status(): int {
      if Found? then 200 else 500
    }
  }

  function Get(store: Store, p: Params): (resp: Response)
    ensures resp.Status() == 200 <==> store.Available?
    ensures store.Available? ==>
      && resp.Found?
      && NewestFirst(resp.resources)
      && (forall x :: x in resp.resources <==> x in store.rows && Matches(p, x))
    ensures store.Available? ==>
      forall x :: multiset(resp.resources)[x] == if Matches(p, x) then multiset(store.rows)[x] else 0
    ensures store.Unavailable? ==>
      resp == ServiceError("Database Service Error", store.message)
  {
    match store
    case Available(rows) => Found(Run(rows, p))
    case Unavailable(msg) => ServiceError("Database Service Error", msg)
  }

  // ---------------------------------------------------------------------
  // Properties of the query

  /** A parameter that imposes no constraint on a tag column. */
  predicate Unconstraining(v: Option<string>) {
    !Supplied(v) || v.value == "All"
  }

  /** With no effective filter every stored row comes back, each as often as stored. */
  lemma {:induction false} NoFiltersReturnsAll(rows: seq<Resource>, p: Params)
    requires !Supplied(p.q)
    requires Unconstraining(p.category) && Unconstraining(p.course) && Unconstraining(p.specialization)
    ensures multiset(Run(rows, p)) == multiset(rows)
  {
    var r := Run(rows, p);
    forall x ensures multiset(r)[x] == multiset(rows)[x] {
      assert Matches(p, x);
    }
  }

  /** The result never holds a row absent from the store, and every row it holds passes each clause. */
  lemma ResultSatisfiesEveryClause(rows: seq<Resource>, p: Params, x: Resource)
    requires x in Run(rows, p)
    ensures x in rows
    ensures TextMatches(p.q, x)
    ensures TagMatches(p.category, Some(x.category))
    ensures TagMatches(p.course, x.course)
    ensures TagMatches(p.specialization, x.specialization)
  {
  }

  /** A row that passes every clause is returned. */
  lemma EveryMatchingRowReturned(rows: seq<Resource>, p: Params, x: Resource)
    requires x in rows && Matches(p, x)
    ensures x in Run(rows, p)
  {
  }

  /** No match is a successful, empty answer rather than an error. */
  lemma EmptyMatchIsSuccess(rows: seq<Resource>, p: Params)
    requires forall x :: x in rows ==> !Matches(p, x)
    ensures Get(Available(rows), p) == Found([])
    ensures Get(Available(rows), p).Status() == 200
  {
  }

  const Sample := Resource(0, "Calculus Notes", None, "calc.pdf", "https://blob/calc.pdf",
                           "application/pdf", "Notes", Some("B.Tech"), Some("CSE"), 0)

  /** A search term that differs from the title only in case still finds the row. */
  lemma SearchIgnoresCase()
    ensures Matches(Params(Some("CALCULUS"), None, None, None), Sample)
  {
    assert Lower("CALCULUS") == "calculus";
    assert Lower(Sample.title)[0..8] == "calculus";
    assert OccursAt(Lower(Sample.title), Lower("CALCULUS"), 0);
  }

  /** 'All' switches off the tag filters but is ordinary search text for `q`. */
  lemma AllIsNotASentinelForText()
    ensures Matches(Params(None, Some("All"), Some("All"), Some("All")), Sample)
    ensures !Matches(Params(Some("All"), None, None, None), Sample)
  {
    var t := Lower(Sample.title);
    assert t == "calculus notes";
    assert Lower("All") == "all";
    forall i ensures !OccursAt(t, "all", i) {
      if 0 <= i <= |t| - 3 {
        assert t[i..i + 3][0] == t[i] && t[i..i + 3][2] == t[i + 2];
      }
    }
  }

  /** Tag equality is case-sensitive: 'b.tech' does not select a 'B.Tech' row. */
  lemma TagFilterIsCaseSensitive()
    ensures !Matches(Params(None, None, Some("b.tech"), None), Sample)
    ensures Matches(Params(None, None, Some("B.Tech"), Some("CSE")), Sample)
  {
  }
}
