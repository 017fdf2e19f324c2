/**
 * `POST /api/upload`: an ordered chain of early-return checks (file present,
 * at most 10 MiB, MIME type allowed, then the per-field length schema),
 * followed by the blob write and the creation of one Resource row built from
 * the validated fields.
 */
module Upload {
  import opened Common
  import opened Records
  import ResourceQuery

  const MaxFileSize: nat := 10 * 1024 * 1024
  const AllowedTypes: seq<string> := ["application/pdf", "image/jpeg", "image/png", "image/webp"]

  /** The uploaded file as the multipart parser presents it. */
  datatype File = File(name: string, size: nat, mimeType: string)

  /**
   * The parsed multipart form. A field absent from the form reads as null,
   * here `None`; the form never yields `undefined`.
   */
  datatype Form = Form(
    file: Option<File>,
    title: Option<string>,
    description: Option<string>,
    category: Option<string>,
    course: Option<string>,
    specialization: Option<string>)

  // ---------------------------------------------------------------------
  // The metadata schema

  datatype Field = Title | Description | Category | Course | Specialization

  /** What the schema reports about one field. */
  datatype Issue =
    | ExpectedString
    | TooShort(minimum: nat, message: Option<string>)
    | TooLong(maximum: nat)

  datatype FieldError = FieldError(field: Field, issue: Issue)

  /** A string rule `min(minimum, message).max(maximum)`. */
  datatype Rule = Rule(minimum: nat, maximum: nat, message: Option<string>)

  /** The schema: every rule is satisfiable, and only title and category carry a custom message. */
  function RuleOf(f: Field): (r: Rule)
    ensures r.minimum <= r.maximum <= 500
    ensures f != Description ==> r.minimum >= 1 && r.maximum <= 100
    ensures r.message.Some? <==> f == Title || f == Category
  {
    match f
    case Title => Rule(3, 100, Some("Title must be at least 3 characters"))
    case Description => Rule(0, 500, None)
    case Category => Rule(2, 50, Some("Category must be at least 2 characters"))
    case Course => Rule(2, 50, None)
    case Specialization => Rule(1, 50, None)
  }

  function ValueOf(form: Form, f: Field): Option<string> {
    match f
    case Title => form.title
    case Description => form.description
    case Category => form.category
    case Course => form.course
    case Specialization => form.specialization
  }

  /** The bounds a value must meet to pass its rule. */
  predicate Fits(v: Option<string>, rule: Rule) {
    v.Some? && rule.minimum <= |v.value| <= rule.maximum
  }

  /** A null value is not a string; otherwise at most one bound can fail. */
  function Check(v: Option<string>, rule: Rule): (r: Option<Issue>)
    requires rule.minimum <= rule.maximum
    ensures r.None? <==> Fits(v, rule)
    ensures v.None? ==> r == Some(ExpectedString)
    ensures r.Some? && r.value.TooShort? ==> v.Some? && |v.value| < rule.minimum
    ensures r.Some? && r.value.TooLong? ==> v.Some? && |v.value| > rule.maximum
    ensures v.Some? && |v.value| < rule.minimum ==> r == Some(TooShort(rule.minimum, rule.message))
    ensures v.Some? && |v.value| > rule.maximum ==> r == Some(TooLong(rule.maximum))
  {
    if v.None? then Some(ExpectedString)
    else if |v.value| < rule.minimum then Some(TooShort(rule.minimum, rule.message))
    else if |v.value| > rule.maximum then Some(TooLong(rule.maximum))
    else None
  }

  function CheckField(form: Form, f: Field): Option<Issue> {
    Check(ValueOf(form, f), RuleOf(f))
  }

  /** The report for one field: its issue, if it has one. */
  function Report(form: Form, f: Field): (errs: seq<FieldError>)
    ensures |errs| <= 1
    ensures errs != [] <==> CheckField(form, f).Some?
    ensures forall e :: e in errs ==> e == FieldError(f, CheckField(form, f).value)
  {
    match CheckField(form, f)
    case Some(i) => [FieldError(f, i)]
    case None => []
  }

  /** No two reports name the same field. */
  predicate DistinctFields(errs: seq<FieldError>) {
    forall i, j :: 0 <= i < j < |errs| ==> errs[i].field != errs[j].field
  }

  /** Every report of `s` names one of `fs`, and every report of `t` names a field outside `fs`. */
  predicate Separated(s: seq<FieldError>, t: seq<FieldError>, fs: set<Field>) {
    (forall e :: e in s ==> e.field in fs) && (forall e :: e in t ==> e.field !in fs)
  }

  lemma AppendDistinct(s: seq<FieldError>, t: seq<FieldError>, fs: set<Field>)
    requires DistinctFields(s) && DistinctFields(t) && Separated(s, t, fs)
    ensures DistinctFields(s + t)
  {
    forall i, j | 0 <= i < j < |s + t| ensures (s + t)[i].field != (s + t)[j].field {
      if j < |s| {
        assert (s + t)[i] == s[i] && (s + t)[j] == s[j];
      } else if i >= |s| {
        assert (s + t)[i] == t[i - |s|] && (s + t)[j] == t[j - |s|];
      } else {
        assert (s + t)[i] in s && (s + t)[j] in t;
      }
    }
  }

  /** The five reports, one after another, never name a field twice. */
  lemma ReportsDistinct(form: Form)
    ensures DistinctFields(Report(form, Title) + Report(form, Description) + Report(form, Category)
                           + Report(form, Course) + Report(form, Specialization))
  {
    var r1, r2, r3 := Report(form, Title), Report(form, Description), Report(form, Category);
    var r4, r5 := Report(form, Course), Report(form, Specialization);
    AppendDistinct(r1, r2, {Title});
    AppendDistinct(r1 + r2, r3, {Title, Description});
    AppendDistinct(r1 + r2 + r3, r4, {Title, Description, Category});
    AppendDistinct(r1 + r2 + r3 + r4, r5, {Title, Description, Category, Course});
  }

  /** Every failing field is reported once, with its issue, in schema order; no passing field is. */
  function FieldErrors(form: Form): (errs: seq<FieldError>)
    ensures forall f :: CheckField(form, f).Some? <==> (exists e :: e in errs && e.field == f)
    ensures forall e :: e in errs ==> CheckField(form, e.field) == Some(e.issue)
    ensures forall i, j :: 0 <= i < j < |errs| ==> errs[i].field != errs[j].field
  {
    var errs := Report(form, Title) + Report(form, Description) + Report(form, Category)
                + Report(form, Course) + Report(form, Specialization);
    assert forall f :: CheckField(form, f).Some? ==> FieldError(f, CheckField(form, f).value) in errs by {
      forall f | CheckField(form, f).Some? ensures FieldError(f, CheckField(form, f).value) in errs {
        assert FieldError(f, CheckField(form, f).value) in Report(form, f);
      }
    }
    ReportsDistinct(form);
    errs
  }

  predicate FieldsValid(form: Form) {
    && Fits(form.title, RuleOf(Title))
    && Fits(form.description, RuleOf(Description))
    && Fits(form.category, RuleOf(Category))
    && Fits(form.course, RuleOf(Course))
    && Fits(form.specialization, RuleOf(Specialization))
  }

  /** The validated metadata, every field a string. */
  datatype Metadata = Metadata(
    title: string,
    description: string,
    category: string,
    course: string,
    specialization: string)

  // ---------------------------------------------------------------------
  // The admission gate

  datatype Rejection =
    | NoFile
    | FileTooLarge
    | InvalidFileType
    | ValidationFailed(details: seq<FieldError>)
  {
    function Error(): string {
      match this
      case NoFile => "No file uploaded"
      case FileTooLarge => "File size exceeds 10MB limit"
      case InvalidFileType => "Invalid file type. Only PDF and images are allowed."
      case ValidationFailed(_) => "Validation failed"
    }
  }

  datatype Admission = Rejected(reason: Rejection) | Admitted(file: File, data: Metadata)

  /** The size limit is inclusive, and only the four listed types pass. */
  predicate FileAcceptable(f: File)
    ensures FileAcceptable(f) <==> f.size <= 10485760 && f.mimeType in AllowedTypes
    ensures f.mimeType == "application/pdf" && f.size <= MaxFileSize ==> FileAcceptable(f)
    ensures f.mimeType == "" ==> !FileAcceptable(f)
  {
    f.size <= MaxFileSize && f.mimeType in AllowedTypes
  }

  function Admit(form: Form): (a: Admission)
    // the file checks run first, in order, and report only the first failure
    ensures form.file.None? ==> a == Rejected(NoFile)
    ensures form.file.Some? && form.file.value.size > MaxFileSize ==> a == Rejected(FileTooLarge)
    ensures (form.file.Some? && form.file.value.size <= MaxFileSize && form.file.value.mimeType !in AllowedTypes)
              ==> a == Rejected(InvalidFileType)
    // the schema is consulted only for an acceptable file, and reports every failing field
    ensures a.Rejected? && a.reason.ValidationFailed? <==>
              form.file.Some? && FileAcceptable(form.file.value) && !FieldsValid(form)
    ensures a.Rejected? && a.reason.ValidationFailed? ==>
              a.reason.details != [] &&
              forall f :: CheckField(form, f).Some? <==> (exists e :: e in a.reason.details && e.field == f)
    ensures a.Rejected? && a.reason.ValidationFailed? ==>
              forall e :: e in a.reason.details ==> CheckField(form, e.field) == Some(e.issue)
    ensures a.Rejected? && a.reason.ValidationFailed? ==>
              forall i, j :: 0 <= i < j < |a.reason.details| ==> a.reason.details[i].field != a.reason.details[j].field
    // admission: everything passed, and the data are the submitted fields
    ensures a.Admitted? <==> form.file.Some? && FileAcceptable(form.file.value) && FieldsValid(form)
    ensures a.Admitted? ==>
              && Some(a.file) == form.file
              && Some(a.data.title) == form.title
              && Some(a.data.description) == form.description
              && Some(a.data.category) == form.category
              && Some(a.data.course) == form.course
              && Some(a.data.specialization) == form.specialization
  {
    if form.file.None? then Rejected(NoFile)
    else if form.file.value.size > MaxFileSize then Rejected(FileTooLarge)
    else if form.file.value.mimeType !in AllowedTypes then Rejected(InvalidFileType)
    else if !FieldsValid(form) then
      var details := FieldErrors(form);
      assert details != [] by {
        if Fits(form.title, RuleOf(Title)) && Fits(form.description, RuleOf(Description))
           && Fits(form.category, RuleOf(Category)) && Fits(form.course, RuleOf(Course)) {
          assert CheckField(form, Specialization).Some?;
        } else if Fits(form.title, RuleOf(Title)) && Fits(form.description, RuleOf(Description))
           && Fits(form.category, RuleOf(Category)) {
          assert CheckField(form, Course).Some?;
        } else if Fits(form.title, RuleOf(Title)) && Fits(form.description, RuleOf(Description)) {
          assert CheckField(form, Category).Some?;
        } else if Fits(form.title, RuleOf(Title)) {
          assert CheckField(form, Description).Some?;
        } else {
          assert CheckField(form, Title).Some?;
        }
      }
      Rejected(ValidationFailed(details))
    else
      Admitted(form.file.value, Metadata(form.title.value, form.description.value, form.category.value,
                                         form.course.value, form.specialization.value))
  }

  /** Admitted metadata lies within the schema's bounds. */
  lemma AdmittedFieldsInBounds(form: Form)
    requires Admit(form).Admitted?
    ensures var d := Admit(form).data;
      && 3 <= |d.title| <= 100
      && |d.description| <= 500
      && 2 <= |d.category| <= 50
      && 2 <= |d.course| <= 50
      && 1 <= |d.specialization| <= 50
  {
  }

  // ---------------------------------------------------------------------
  // Record construction and the route

  /**
   * The row created for an admitted upload. The `|| ''` default of the
   * description maps '' to '' and so keeps every admitted string as it is.
   */
  function DraftOf(file: File, data: Metadata, url: string): (d: Draft)
    ensures d.fileUrl == url && d.fileName == file.name && d.fileType == file.mimeType
    ensures d.title == data.title && d.category == data.category
    ensures d.description == Some(data.description)
    ensures d.course == Some(data.course) && d.specialization == Some(data.specialization)
  {
    Draft(data.title, Some(data.description), file.name, url,
          file.mimeType, data.category, Some(data.course), Some(data.specialization))
  }

  /** The outcome of the blob write: the public URL, or the error it threw. */
  datatype Blob = Stored(url: string) | BlobFailed(message: string)

  datatype UploadResponse =
    | Success(resource: Resource)
    | BadRequest(error: string, details: seq<FieldError>)
    | InternalError(error: string, message: string)
  {
    function Status(): int {
      match this
      case Success(_) => 200
      case BadRequest(_, _) => 400
      case InternalError(_, _) => 500
    }
  }

  /**
   * The route. The blob write and the row creation happen only for an
   * admitted form; `dbFailure` is the error the row creation throws, if any.
   */
  method Post(table: ResourceTable, form: Form, blob: Blob, dbFailure: Option<string>, now: int)
    returns (resp: UploadResponse)
    requires table.Valid()
    modifies table
    ensures table.Valid()
    ensures Admit(form).Rejected? ==>
      && resp == BadRequest(Admit(form).reason.Error(),
                            if Admit(form).reason.ValidationFailed? then Admit(form).reason.details else [])
      && resp.Status() == 400
      && table.rows == old(table.rows)
    ensures Admit(form).Admitted? && blob.BlobFailed? ==>
      resp == InternalError("Internal Server Error", blob.message) && table.rows == old(table.rows)
    ensures Admit(form).Admitted? && blob.Stored? && dbFailure.Some? ==>
      resp == InternalError("Internal Server Error", dbFailure.value) && table.rows == old(table.rows)
    ensures Admit(form).Admitted? && blob.Stored? && dbFailure.None? ==>
      && resp.Success?
      && table.rows == old(table.rows) + [resp.resource]
      && resp.resource == Stamp(DraftOf(Admit(form).file, Admit(form).data, blob.url), old(table.nextId), now)
  {
    var decision := Admit(form);
    match decision {
      case Rejected(reason) =>
        var details := if reason.ValidationFailed? then reason.details else [];
        resp := BadRequest(reason.Error(), details);
      case Admitted(file, data) =>
        match blob {
          case BlobFailed(msg) =>
            resp := InternalError("Internal Server Error", msg);
          case Stored(url) =>
            if dbFailure.Some? {
              resp := InternalError("Internal Server Error", dbFailure.value);
            } else {
              var r := table.Create(DraftOf(file, data, url), now);
              resp := Success(r);
            }
        }
    }
  }

  // ---------------------------------------------------------------------
  // Properties of the gate

  /** The created row carries the blob URL, the file's own name and type, and the submitted fields. */
  lemma RecordFromValidatedFields(form: Form, url: string, id: nat, now: int)
    requires Admit(form).Admitted?
    ensures var r := Stamp(DraftOf(Admit(form).file, Admit(form).data, url), id, now);
      && r.fileUrl == url
      && r.fileName == form.file.value.name
      && r.fileType == form.file.value.mimeType
      && Some(r.title) == form.title
      && r.description == form.description
      && Some(r.category) == form.category
      && r.course == form.course
      && r.specialization == form.specialization
  {
  }

  /** A created row is found again by its own title and by its own tags. */
  lemma UploadedRecordIsFound(form: Form, url: string, id: nat, now: int)
    requires Admit(form).Admitted?
    ensures var d := Admit(form).data;
      var r := Stamp(DraftOf(Admit(form).file, d, url), id, now);
      && ResourceQuery.Matches(ResourceQuery.Params(Some(d.title), None, None, None), r)
      && ResourceQuery.Matches(ResourceQuery.Params(None, Some(d.category), Some(d.course), Some(d.specialization)), r)
  {
    ContainsIgnoreCaseSelf(Admit(form).data.title);
  }

  function PdfForm(size: nat, title: string): Form {
    Form(Some(File("notes.pdf", size, "application/pdf")), Some(title), Some(""),
         Some("Notes"), Some("B.Tech"), Some("CSE"))
  }

  /** A file of exactly 10 MiB passes the size check; one byte more does not. */
  lemma SizeBoundary()
    ensures Admit(PdfForm(10485760, "Calculus Notes")).Admitted?
    ensures Admit(PdfForm(10485761, "Calculus Notes")) == Rejected(FileTooLarge)
  {
  }

  /** A two-character title is reported against the title; three characters pass. */
  lemma TitleBoundary()
    ensures Admit(PdfForm(2097152, "ab")) ==
      Rejected(ValidationFailed([FieldError(Title, TooShort(3, Some("Title must be at least 3 characters")))]))
    ensures Admit(PdfForm(2097152, "abc")).Admitted?
  {
  }

  /** A bad file is reported even when every metadata field is bad too. */
  lemma FileErrorsComeFirst(file: File)
    requires !FileAcceptable(file)
    ensures var a := Admit(Form(Some(file), None, None, None, None, None));
      a.Rejected? && (a.reason == FileTooLarge || a.reason == InvalidFileType)
  {
  }

  /** Missing course and specialization fields arrive as null and fail the schema. */
  lemma MissingTaxonomyFieldsRejected(file: File, title: string, description: string, category: string)
    requires FileAcceptable(file)
    ensures var a := Admit(Form(Some(file), Some(title), Some(description), Some(category), None, None));
      && a.Rejected? && a.reason.ValidationFailed?
      && FieldError(Course, ExpectedString) in a.reason.details
      && FieldError(Specialization, ExpectedString) in a.reason.details
  {
    var form := Form(Some(file), Some(title), Some(description), Some(category), None, None);
    assert !FieldsValid(form);
    var errs := Admit(form).reason.details;
    assert errs == FieldErrors(form);
    assert FieldError(Course, ExpectedString) in Report(form, Course);
    assert FieldError(Specialization, ExpectedString) in Report(form, Specialization);
  }

  /** A missing description field reads as null, which the optional description does not accept. */
  lemma MissingDescriptionRejected()
    ensures var a := Admit(Form(Some(File("calc.pdf", 2097152, "application/pdf")), Some("Calculus Notes"), None,
                                Some("Notes"), Some("B.Tech"), Some("CSE")));
      a == Rejected(ValidationFailed([FieldError(Description, ExpectedString)]))
  {
  }
}
