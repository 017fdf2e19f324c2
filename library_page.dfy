/**
 * The library page's logic, without its markup: the category list and the
 * counters derived from the loaded resources, the way a fetch of
 * `/api/resources` settles into the `resources`/`error`/`loading` state, and
 * the upload form's submission and reset.
 */
module LibraryPage {
  import opened Common
  import opened Records
  import ResourceQuery
  import Upload

  // ---------------------------------------------------------------------
  // derivedCategories

  /** `resources.map(r => r.category)`. */
  function Categories(rs: seq<Resource>): (r: seq<string>)
    ensures |r| == |rs|
    ensures forall i :: 0 <= i < |rs| ==> r[i] == rs[i].category
  {
    seq(|rs|, i requires 0 <= i < |rs| => rs[i].category)
  }

  function Identity(s: string): string {
    s
  }

  /** `['All', ...new Set(categories)].sort()`: the default sort compares strings by code unit. */
  function DerivedCategories(rs: seq<Resource>): (r: seq<string>)
    ensures SortedBy(r, Identity)
    ensures forall c :: c in r <==> c == "All" || c in Categories(rs)
  {
    var s := ["All"] + Distinct(Categories(rs));
    SortBySorted(s, Identity);
    assert forall c :: c in SortBy(s, Identity) <==> c in s by {
      assert forall c :: c in SortBy(s, Identity) <==> multiset(SortBy(s, Identity))[c] > 0;
      assert forall c :: c in s <==> multiset(s)[c] > 0;
    }
    SortBy(s, Identity)
  }

  /** One entry per distinct category, plus the 'All' entry. */
  lemma DerivedCategoriesLength(rs: seq<Resource>)
    ensures |DerivedCategories(rs)| == |set c | c in Categories(rs)| + 1
  {
    DistinctCard(Categories(rs));
  }

  /** A category literally named 'All' is listed beside the 'All' entry rather than merged with it. */
  lemma AllListedTwice(rs: seq<Resource>)
    requires "All" in Categories(rs)
    ensures multiset(DerivedCategories(rs))["All"] == 2
  {
    var d := Distinct(Categories(rs));
    NoDuplicatesCount(d, "All");
    assert multiset(["All"] + d) == multiset{"All"} + multiset(d);
  }

  lemma SortAllAI()
    ensures SortBy(["All", "AI"], Identity) == ["AI", "All"]
  {
    assert ["All", "AI"][1..] == ["AI"];
    assert SortBy(["AI"], Identity) == ["AI"] by {
      assert ["AI"][1..] == [];
      assert InsertBy("AI", [], Identity) == ["AI"];
    }
    assert !LexLe("All", "AI") by {
      assert "All"[1..] == "ll" && "AI"[1..] == "I";
      assert !LexLe("ll", "I");
    }
    assert InsertBy("All", ["AI"], Identity) == ["AI"] + InsertBy("All", [], Identity);
  }

  /** 'All' is not always first: a category such as 'AI' sorts before it. */
  lemma AllNotAlwaysFirst(r: Resource)
    requires r.category == "AI"
    ensures DerivedCategories([r]) == ["AI", "All"]
  {
    assert Categories([r]) == ["AI"];
    assert Distinct(["AI"]) == ["AI"] by {
      assert ["AI"][..0] == [];
    }
    SortAllAI();
  }

  // ---------------------------------------------------------------------
  // stats

  const DayMillis: int := 24 * 60 * 60 * 1000

  /** Created less than a day before `now` (a row dated after `now` counts too). */
  predicate IsRecent(r: Resource, now: int)
    ensures r.createdAt >= now ==> IsRecent(r, now)
    ensures r.createdAt <= now - DayMillis ==> !IsRecent(r, now)
  {
    now - r.createdAt < DayMillis
  }

  /** Filtering `p + [y]` extends the filtered `p` by `y` exactly when `y` is recent. */
  lemma RecentAppend(p: seq<Resource>, y: Resource, rest: seq<Resource>, now: int)
    requires forall x :: multiset(rest)[x] == if IsRecent(x, now) then multiset(p)[x] else 0
    ensures var r := if IsRecent(y, now) then rest + [y] else rest;
      forall x :: multiset(r)[x] == if IsRecent(x, now) then multiset(p + [y])[x] else 0
  {
    assert multiset(p + [y]) == multiset(p) + multiset{y};
  }

  /** A filter that keeps counts keeps exactly the recent members. */
  lemma RecentMembers(r: seq<Resource>, rs: seq<Resource>, now: int)
    requires forall x :: multiset(r)[x] == if IsRecent(x, now) then multiset(rs)[x] else 0
    ensures forall x :: x in r <==> x in rs && IsRecent(x, now)
  {
    forall x ensures x in r <==> x in rs && IsRecent(x, now) {
      assert x in r <==> multiset(r)[x] > 0;
      assert x in rs <==> multiset(rs)[x] > 0;
    }
  }

  /** When every row of `p + [y]` is recent, so are `y` and every row of `p`. */
  lemma AllRecentSplit(p: seq<Resource>, y: Resource, now: int)
    ensures (forall i :: 0 <= i < |p + [y]| ==> IsRecent((p + [y])[i], now)) ==>
      IsRecent(y, now) && forall i :: 0 <= i < |p| ==> IsRecent(p[i], now)
  {
    if forall i :: 0 <= i < |p + [y]| ==> IsRecent((p + [y])[i], now) {
      assert IsRecent((p + [y])[|p|], now);
      forall i | 0 <= i < |p| ensures IsRecent(p[i], now) {
        assert (p + [y])[i] == p[i];
      }
    }
  }

  /** `resources.filter(...)`: the recent rows, in list order. */
  function Recent(rs: seq<Resource>, now: int): (r: seq<Resource>)
    ensures |r| <= |rs|
    ensures forall x :: multiset(r)[x] == if IsRecent(x, now) then multiset(rs)[x] else 0
    ensures forall x :: x in r <==> x in rs && IsRecent(x, now)
    ensures (forall i :: 0 <= i < |rs| ==> IsRecent(rs[i], now)) ==> r == rs
  {
    if rs == [] then []
    else
      var n := |rs| - 1;
      var p := rs[..n];
      var rest := Recent(p, now);
      assert rs == p + [rs[n]];
      RecentAppend(p, rs[n], rest, now);
      AllRecentSplit(p, rs[n], now);
      if IsRecent(rs[n], now) then
        RecentMembers(rest + [rs[n]], rs, now);
        rest + [rs[n]]
      else
        RecentMembers(rest, rs, now);
        rest
  }

  /** The positions of `rs` holding a recent row. */
  ghost function RecentPositions(rs: seq<Resource>, now: int): set<int> {
    set i | 0 <= i < |rs| && IsRecent(rs[i], now)
  }

  /** Appending a row adds its position exactly when it is recent. */
  lemma PositionsStep(rs: seq<Resource>, now: int)
    requires rs != []
    ensures |RecentPositions(rs, now)| ==
      |RecentPositions(rs[..|rs| - 1], now)| + if IsRecent(rs[|rs| - 1], now) then 1 else 0
  {
    var n := |rs| - 1;
    var a := RecentPositions(rs[..n], now);
    var b := RecentPositions(rs, now);
    var last: set<int> := if IsRecent(rs[n], now) then {n} else {};
    forall i | i in b ensures i in a + last {
      if i < n { assert rs[..n][i] == rs[i]; }
    }
    forall i | i in a + last ensures i in b {
      if i < n { assert rs[..n][i] == rs[i]; }
    }
    assert b == a + last;
    assert a !! last;
  }

  /** Filtering keeps one row per recent position. */
  lemma {:induction false} RecentCount(rs: seq<Resource>, now: int)
    ensures |Recent(rs, now)| == |RecentPositions(rs, now)|
  {
    if rs != [] {
      var n := |rs| - 1;
      RecentCount(rs[..n], now);
      PositionsStep(rs, now);
      assert |Recent(rs, now)| == |Recent(rs[..n], now)| + if IsRecent(rs[n], now) then 1 else 0;
    }
  }

  datatype Stats = Stats(total: nat, categories: nat, recent: nat)

  /** The three counters shown above the listing; `now` is the clock reading. */
  function StatsOf(rs: seq<Resource>, now: int): (s: Stats)
    ensures s.total == |rs|
    ensures s.recent == |set i | 0 <= i < |rs| && IsRecent(rs[i], now)|
    ensures s.categories == |set c | c in Categories(rs)|
    ensures s.recent <= s.total
    ensures s.categories <= s.total
    ensures rs != [] ==> s.categories >= 1
  {
    var cats := set c | c in Categories(rs);
    DistinctCard(Categories(rs));
    RecentCount(rs, now);
    assert rs != [] ==> Categories(rs)[0] in cats;
    Stats(|rs|, |cats|, |Recent(rs, now)|)
  }

  /** The category counter and the category list agree: the list has one more entry, 'All'. */
  lemma StatsMatchCategoryList(rs: seq<Resource>, now: int)
    ensures StatsOf(rs, now).categories + 1 == |DerivedCategories(rs)|
  {
    DerivedCategoriesLength(rs);
  }

  // ---------------------------------------------------------------------
  // fetchResources

  /** What a response body parses to. */
  datatype Body =
    | JsonArray(rows: seq<Resource>)
    | JsonObject(message: Option<string>, error: Option<string>)
    | NotJson(parseError: string)

  /** The result of `fetch`: a response, or the error it threw (`None` when not an `Error`). */
  datatype FetchOutcome =
    | Responded(status: nat, body: Body)
    | Thrown(message: Option<string>)

  /** `errorData.message || errorData.error || \`Server responded with ${status}\``; an unparsable body reads as `{}`. */
  function FailureMessage(status: nat, body: Body): (m: string)
    ensures body.JsonObject? && ResourceQuery.Supplied(body.message) ==> m == body.message.value
    ensures body.JsonObject? && !ResourceQuery.Supplied(body.message) && ResourceQuery.Supplied(body.error) ==> m == body.error.value
    ensures !(body.JsonObject? && (ResourceQuery.Supplied(body.message) || ResourceQuery.Supplied(body.error))) ==>
      m == "Server responded with " + Decimal(status)
  {
    match body
    case JsonObject(message, error) =>
      if ResourceQuery.Supplied(message) then message.value
      else if ResourceQuery.Supplied(error) then error.value
      else "Server responded with " + Decimal(status)
    case _ => "Server responded with " + Decimal(status)
  }

  const UnexpectedFormat := "Received unexpected data format from server."
  const ConnectionFailure := "Failed to fetch resources. Please check your connection."

  /** The `resources` and `error` a fetch settles into. */
  function Settle(outcome: FetchOutcome): (r: (seq<Resource>, Option<string>))
    // Only an ok response carrying an array loads rows, and it clears the error.
    ensures r.1.None? <==> outcome.Responded? && 200 <= outcome.status <= 299 && outcome.body.JsonArray?
    ensures r.1.None? ==> r.0 == outcome.body.rows
    // Every other outcome empties the list and leaves an error message.
    ensures r.1.Some? ==> r.0 == []
    ensures outcome.Responded? && !(200 <= outcome.status <= 299) ==>
      r.1 == Some(FailureMessage(outcome.status, outcome.body))
    ensures outcome.Responded? && 200 <= outcome.status <= 299 && outcome.body.JsonObject? ==>
      r.1 == Some(UnexpectedFormat)
    ensures outcome.Responded? && 200 <= outcome.status <= 299 && outcome.body.NotJson? ==>
      r.1 == Some(outcome.body.parseError)
    ensures outcome.Thrown? ==> r.1 == Some(outcome.message.GetOr(ConnectionFailure))
  {
    match outcome
    case Thrown(message) => ([], Some(message.GetOr(ConnectionFailure)))
    case Responded(status, body) =>
      if !(200 <= status <= 299) then ([], Some(FailureMessage(status, body)))
      else
        match body
        case JsonArray(rows) => (rows, None)
        case JsonObject(_, _) => ([], Some(UnexpectedFormat))
        case NotJson(parseError) => ([], Some(parseError))
  }

  /** The query string the page sends: the search box as `q`, the category, and nothing else. */
  function RequestParams(search: string, category: string): (p: ResourceQuery.Params)
    ensures p.q == Some(search) && p.category == Some(category)
    ensures p.course.None? && p.specialization.None?
  {
    ResourceQuery.Params(Some(search), Some(category), None, None)
  }

  /** How the resources route's answer reaches the page. */
  function Delivered(resp: ResourceQuery.Response): (o: FetchOutcome)
    ensures o.Responded? && o.status == resp.Status()
    ensures resp.Found? ==> o.body == JsonArray(resp.resources)
    ensures resp.ServiceError? ==> o.body == JsonObject(Some(resp.message), Some(resp.error))
  {
    match resp
    case Found(resources) => Responded(200, JsonArray(resources))
    case ServiceError(error, message) => Responded(500, JsonObject(Some(message), Some(error)))
  }

  /** With the initial search box and category ('' and 'All') the page asks for every stored row. */
  lemma InitialRequestReturnsAll(rows: seq<Resource>)
    ensures multiset(ResourceQuery.Run(rows, RequestParams("", "All"))) == multiset(rows)
  {
    ResourceQuery.NoFiltersReturnsAll(rows, RequestParams("", "All"));
  }

  /** A successful query lands in `resources` as the route ordered it, with no error. */
  lemma QueryResultShown(rows: seq<Resource>, search: string, category: string)
    ensures Settle(Delivered(ResourceQuery.Get(ResourceQuery.Available(rows), RequestParams(search, category))))
         == (ResourceQuery.Run(rows, RequestParams(search, category)), None)
  {
  }

  /** A store failure surfaces the database's message, or the route's error label when that is empty. */
  lemma StoreFailureShown(msg: string, search: string, category: string)
    ensures Settle(Delivered(ResourceQuery.Get(ResourceQuery.Unavailable(msg), RequestParams(search, category))))
         == ([], Some(if msg != "" then msg else "Database Service Error"))
  {
  }

  // ---------------------------------------------------------------------
  // handleUpload

  /** The form the page submits: file, title, description and category, and nothing else. */
  function PageForm(file: Upload.File, title: string, desc: string, category: string): (f: Upload.Form)
    ensures f.file == Some(file)
    ensures f.title == Some(title) && f.description == Some(desc) && f.category == Some(category)
    ensures f.course.None? && f.specialization.None?
  {
    Upload.Form(Some(file), Some(title), Some(desc), Some(category), None, None)
  }

  /**
   * The page never sends a course or a specialization, which the upload
   * schema requires, so no submission from this page is admitted.
   */
  lemma PageFormNeverAdmitted(file: Upload.File, title: string, desc: string, category: string)
    ensures Upload.Admit(PageForm(file, title, desc, category)).Rejected?
  {
    if Upload.FileAcceptable(file) {
      Upload.MissingTaxonomyFieldsRejected(file, title, desc, category);
    }
  }

  /** What the page learns from the upload request: `data.success`, or that it threw. */
  datatype UploadReply = Replied(success: bool) | ReplyThrew

  function ReplyOf(resp: Upload.UploadResponse): (r: UploadReply)
    ensures r.Replied? && (r.success <==> resp.Status() == 200)
  {
    Replied(resp.Success?)
  }

  // ---------------------------------------------------------------------
  // The page's state

  class Page {
    var resources: seq<Resource>
    var search: string
    var category: string
    var isUploadOpen: bool
    var loading: bool
    var error: Option<string>
    var file: Option<Upload.File>
    var title: string
    var desc: string
    var formCategory: string

    /** The form fields, as one value. */
    function FormState(): (Option<Upload.File>, string, string, string)
      reads this
    {
      (file, title, desc, formCategory)
    }

    constructor ()
      ensures resources == [] && search == "" && category == "All"
      ensures !isUploadOpen && loading && error.None?
      ensures FormState() == (None, "", "", "")
    {
      resources, search, category := [], "", "All";
      isUploadOpen, loading, error := false, true, None;
      file, title, desc, formCategory := None, "", "", "";
    }

    /** One run of `fetchResources`, given what the request produced. */
    method FetchResources(outcome: FetchOutcome)
      modifies this
      ensures (resources, error) == Settle(outcome)
      ensures !loading
      ensures search == old(search) && category == old(category) && isUploadOpen == old(isUploadOpen)
      ensures FormState() == old(FormState())
    {
      loading := true;
      error := None;
      match outcome {
        case Thrown(message) =>
          error := Some(message.GetOr(ConnectionFailure));
          resources := [];
        case Responded(status, body) =>
          if !(200 <= status <= 299) {
            error := Some(FailureMessage(status, body));
            resources := [];
          } else {
            match body {
              case JsonArray(rows) =>
                resources := rows;
              case JsonObject(_, _) =>
                resources := [];
                error := Some(UnexpectedFormat);
              case NotJson(parseError) =>
                error := Some(parseError);
                resources := [];
            }
          }
      }
      loading := false;
    }

    /**
     * `handleUpload`: nothing happens without a file. A successful upload
     * closes the dialog, refetches and clears file, title and description
     * (the category stays); any other reply leaves the page as it was.
     */
    method HandleUpload(reply: UploadReply, refetch: FetchOutcome)
      modifies this
      ensures old(file).None? || !(reply.Replied? && reply.success) ==>
        && FormState() == old(FormState()) && isUploadOpen == old(isUploadOpen)
        && resources == old(resources) && error == old(error) && loading == old(loading)
      ensures old(file).Some? && reply.Replied? && reply.success ==>
        && FormState() == (None, "", "", old(formCategory))
        && !isUploadOpen && !loading
        && (resources, error) == Settle(refetch)
      ensures search == old(search) && category == old(category)
    {
      if file.None? {
        return;
      }
      if reply.Replied? && reply.success {
        isUploadOpen := false;
        FetchResources(refetch);
        file := None;
        title := "";
        desc := "";
      }
    }
  }

  /** Submitted from this page, an upload is always refused, so the form is never reset. */
  lemma PageUploadKeepsForm(f: Upload.File, title: string, desc: string, category: string,
                            resp: Upload.UploadResponse)
    requires resp.Status() == 200 ==> Upload.Admit(PageForm(f, title, desc, category)).Admitted?
    ensures ReplyOf(resp) == Replied(false)
  {
    PageFormNeverAdmitted(f, title, desc, category);
  }
}
