/** The stored Report and its embedded Analysis, and the casting and
    validation the document schema applies when a report is saved. Both copies
    of the schema (server and Next.js) declare the same constraints. */
module Schema {
  import opened Wrappers
  import opened JsText
  import opened Json

  /** The closed set of severities the schema admits. */
  datatype Severity = Low | Medium | High

  function SeverityName(v: Severity): string
  {
    match v
    case Low => "low"
    case Medium => "medium"
    case High => "high"
  }

  /** The enum check of the severity path. */
  function ParseSeverity(s: string): (r: Option<Severity>)
    ensures r.Some? ==> SeverityName(r.value) == s
    ensures r.None? ==> forall v :: SeverityName(v) != s
  {
    if s == "low" then Some(Low)
    else if s == "medium" then Some(Medium)
    else if s == "high" then Some(High)
    else None
  }

  /** Every severity passes the enum check as its own name. */
  lemma SeverityRoundTrip(v: Severity)
    ensures ParseSeverity(SeverityName(v)) == Some(v)
  {
  }

  /** A stored analysis. Severity is always one of the three values: the
      schema fills in `medium` when it is absent. */
  datatype Analysis = Analysis(
    summary: string,
    keyFindings: seq<string>,
    recommendations: seq<string>,
    medicinesSuggested: seq<string>,
    reportType: string,
    severity: Severity)

  /** The required string paths of an analysis are non-empty. */
  predicate ValidAnalysis(a: Analysis)
  {
    a.summary != "" && a.reportType != ""
  }

  /** A stored report. `id` is the store's key; the two timestamps are kept by
      the store. */
  datatype Report = Report(
    id: string,
    userId: string,
    title: string,
    imageUrl: string,
    analysis: Analysis,
    createdAt: int,
    updatedAt: int)

  /** What the schema guarantees of every saved report: a non-empty trimmed
      title, a non-empty image URL, a valid analysis. */
  predicate ValidReport(r: Report)
  {
    && r.title != ""
    && Trim(r.title) == r.title
    && r.imageUrl != ""
    && ValidAnalysis(r.analysis)
  }

  // ---------------------------------------------------------------------------
  // Casting decoded values into the schema
  // ---------------------------------------------------------------------------

  /** The cast of one value to a String path: strings as they are, numbers and
      booleans as their string rendering; anything else is a cast error. */
  function CastString(v: JValue): (r: Option<string>)
    ensures v.JString? ==> r == Some(v.s)
    ensures v.JNull? || v.JArray? || v.JObject? ==> r.None?
  {
    match v
    case JString(s) => Some(s)
    case JNumber(t) => Some(t)
    case JBool(b) => Some(if b then "true" else "false")
    case _ => None
  }

  /** A required String path: present, castable and non-empty. */
  function RequiredString(v: Option<JValue>): (r: Option<string>)
    ensures r.Some? ==> r.value != "" && v.Some? && CastString(v.value) == r
    ensures v.None? || v == Some(JNull) || v == Some(JString("")) ==> r.None?
    ensures v.Some? && CastString(v.value).Some? && CastString(v.value).value != "" ==> r == CastString(v.value)
  {
    match v
    case None => None
    case Some(x) =>
      match CastString(x)
      case Some(s) => if s == "" then None else Some(s)
      case None => None
  }

  /** Every element cast to a string, or `None` when one cannot be. */
  function CastAll(items: seq<JValue>): (r: Option<seq<string>>)
    ensures r.Some? ==> |r.value| == |items| && forall i :: 0 <= i < |items| ==> CastString(items[i]) == Some(r.value[i])
    ensures r.None? ==> exists i :: 0 <= i < |items| && CastString(items[i]).None?
  {
    if items == [] then Some([])
    else
      match CastString(items[0])
      case None => None
      case Some(s) =>
        match CastAll(items[1..])
        case None =>
          assert forall i :: 0 <= i < |items[1..]| ==> items[1..][i] == items[i + 1];
          None
        case Some(rest) => Some([s] + rest)
  }

  /** An array-of-String path: absent means empty; an array is cast element by
      element; a single castable value is wrapped into a one-element list. */
  function StringList(v: Option<JValue>): (r: Option<seq<string>>)
    ensures v.None? ==> r == Some([])
    ensures v.Some? && v.value.JArray? ==> r == CastAll(v.value.items)
    ensures v.Some? && v.value.JString? ==> r == Some([v.value.s])
  {
    match v
    case None => Some([])
    case Some(JArray(items)) => CastAll(items)
    case Some(x) =>
      match CastString(x)
      case Some(s) => Some([s])
      case None => None
  }

  /** The severity path: absent means `medium`; otherwise the cast value must be
      one of the enum names. */
  function SeverityPath(v: Option<JValue>): (r: Option<Severity>)
    ensures v.None? ==> r == Some(Medium)
    ensures v.Some? && r.Some? ==> CastString(v.value) == Some(SeverityName(r.value))
    ensures v.Some? && v.value.JString? && ParseSeverity(v.value.s).None? ==> r.None?
    ensures v.Some? && CastString(v.value).Some? && ParseSeverity(CastString(v.value).value).Some? ==>
      r == ParseSeverity(CastString(v.value).value)
  {
    match v
    case None => Some(Medium)
    case Some(x) =>
      match CastString(x)
      case Some(s) => ParseSeverity(s)
      case None => None
  }

  /** The six paths of an analysis document. */
  const AnalysisKeys: set<string> :=
    {"summary", "reportType", "keyFindings", "recommendations", "medicinesSuggested", "severity"}

  /** Validation of an analysis document on save. A non-object, a missing or
      empty summary or report type, an uncastable value or a severity outside
      the enum is rejected; an absent severity becomes `medium`. */
  function CastAnalysis(doc: JValue): (r: Result<Analysis>)
    ensures r.Success? ==> ValidAnalysis(r.value)
    ensures r.Success? ==> doc.JObject?
    ensures r.Success? <==>
      && doc.JObject?
      && RequiredString(Get(doc, "summary")).Some?
      && RequiredString(Get(doc, "reportType")).Some?
      && StringList(Get(doc, "keyFindings")).Some?
      && StringList(Get(doc, "recommendations")).Some?
      && StringList(Get(doc, "medicinesSuggested")).Some?
      && SeverityPath(Get(doc, "severity")).Some?
    ensures r.Success? ==>
      && Some(r.value.summary) == RequiredString(Get(doc, "summary"))
      && Some(r.value.reportType) == RequiredString(Get(doc, "reportType"))
      && Some(r.value.keyFindings) == StringList(Get(doc, "keyFindings"))
      && Some(r.value.recommendations) == StringList(Get(doc, "recommendations"))
      && Some(r.value.medicinesSuggested) == StringList(Get(doc, "medicinesSuggested"))
      && Some(r.value.severity) == SeverityPath(Get(doc, "severity"))
  {
    if !doc.JObject? then Failure("analysis: Cast to Embedded failed")
    else
      var summary := RequiredString(Get(doc, "summary"));
      var reportType := RequiredString(Get(doc, "reportType"));
      var findings := StringList(Get(doc, "keyFindings"));
      var recommendations := StringList(Get(doc, "recommendations"));
      var medicines := StringList(Get(doc, "medicinesSuggested"));
      var severity := SeverityPath(Get(doc, "severity"));
      if summary.None? then Failure("analysis.summary: Path `summary` is required.")
      else if reportType.None? then Failure("analysis.reportType: Path `reportType` is required.")
      else if findings.None? then Failure("analysis.keyFindings: Cast to [string] failed")
      else if recommendations.None? then Failure("analysis.recommendations: Cast to [string] failed")
      else if medicines.None? then Failure("analysis.medicinesSuggested: Cast to [string] failed")
      else if severity.None? then Failure("analysis.severity: not a valid enum value")
      else Success(Analysis(summary.value, findings.value, recommendations.value,
                            medicines.value, reportType.value, severity.value))
  }

  /** How a stored analysis is serialised back to JSON. */
  function AnalysisDocument(a: Analysis): (d: JValue)
    ensures d.JObject? && d.fields.Keys == AnalysisKeys
  {
    JObject(map[
      "summary" := JString(a.summary),
      "reportType" := JString(a.reportType),
      "keyFindings" := Strings(a.keyFindings),
      "recommendations" := Strings(a.recommendations),
      "medicinesSuggested" := Strings(a.medicinesSuggested),
      "severity" := JString(SeverityName(a.severity))])
  }

  lemma {:induction false} CastAllStrings(ss: seq<string>)
    ensures CastAll(Strings(ss).items) == Some(ss)
  {
    if ss != [] {
      var items := Strings(ss).items;
      CastAllStrings(ss[1..]);
      assert items[1..] == Strings(ss[1..]).items;
      assert CastString(items[0]) == Some(ss[0]);
      assert CastAll(items) == Some([ss[0]] + ss[1..]);
      assert [ss[0]] + ss[1..] == ss;
    }
  }

  /** A valid analysis survives serialisation and re-validation unchanged. */
  lemma AnalysisDocumentRoundTrip(a: Analysis)
    requires ValidAnalysis(a)
    ensures CastAnalysis(AnalysisDocument(a)) == Success(a)
  {
    AnalysisDocumentFields(a);
    CastOfFields(AnalysisDocument(a), a);
  }

  lemma AnalysisDocumentFields(a: Analysis)
    ensures var d := AnalysisDocument(a);
      && Get(d, "summary") == Some(JString(a.summary))
      && Get(d, "reportType") == Some(JString(a.reportType))
      && Get(d, "keyFindings") == Some(Strings(a.keyFindings))
      && Get(d, "recommendations") == Some(Strings(a.recommendations))
      && Get(d, "medicinesSuggested") == Some(Strings(a.medicinesSuggested))
      && Get(d, "severity") == Some(JString(SeverityName(a.severity)))
  {
  }

  /** A document whose fields are exactly an analysis's values casts to that
      analysis. */
  lemma CastOfFields(doc: JValue, a: Analysis)
    requires ValidAnalysis(a)
    requires Get(doc, "summary") == Some(JString(a.summary))
    requires Get(doc, "reportType") == Some(JString(a.reportType))
    requires Get(doc, "keyFindings") == Some(Strings(a.keyFindings))
    requires Get(doc, "recommendations") == Some(Strings(a.recommendations))
    requires Get(doc, "medicinesSuggested") == Some(Strings(a.medicinesSuggested))
    requires Get(doc, "severity") == Some(JString(SeverityName(a.severity)))
    ensures CastAnalysis(doc) == Success(a)
  {
    CastAllStrings(a.keyFindings);
    CastAllStrings(a.recommendations);
    CastAllStrings(a.medicinesSuggested);
    SeverityRoundTrip(a.severity);
  }

  /** Saving a new report: the title is trimmed by the schema and must then be
      non-empty, the image URL is required, the analysis document must
      validate; both timestamps are the time of the save. */
  function NewReport(id: string, userId: string, title: string, imageUrl: string,
                     doc: JValue, now: int): (r: Result<Report>)
    ensures r.Success? <==> Trim(title) != "" && imageUrl != "" && CastAnalysis(doc).Success?
    ensures r.Success? ==> ValidReport(r.value)
    ensures r.Success? ==>
      && r.value.id == id && r.value.userId == userId
      && r.value.title == Trim(title) && r.value.imageUrl == imageUrl
      && Success(r.value.analysis) == CastAnalysis(doc)
      && r.value.createdAt == now && r.value.updatedAt == now
  {
    var t := Trim(title);
    TrimNoop(t);
    if t == "" then Failure("title: Path `title` is required.")
    else if imageUrl == "" then Failure("imageUrl: Path `imageUrl` is required.")
    else
      match CastAnalysis(doc)
      case Failure(e) => Failure(e)
      case Success(a) => Success(Report(id, userId, t, imageUrl, a, now, now))
  }
}
