/** The analyze handlers: from a request carrying an image URL and a title to
    a saved report or an error status. The outside world the handlers touch
    (the database connection, the files on disk, the text recognition engine,
    `JSON.parse`, the save, the new id and the clock) is a `World` value; the
    AI call is a parameter of each handler. The server handler reads the
    image from the caller's own upload folder; the Next.js handler reads
    whatever file the URL names under `public`. */
module Analyze {
  import opened Wrappers
  import opened JsText
  import opened Json
  import opened Paths
  import opened Auth
  import opened Ocr
  import opened Schema
  import opened ReplyParser
  import opened ReportStore
  import opened Upload

  /** How a request ends: an error status with its message, or the saved
      report. */
  datatype Outcome = Rejected(status: nat, error: string) | Saved(report: Report)

  /** Everything outside the handler's own logic. `files` holds the paths a
      read succeeds on. */
  datatype World = World(
    dbOk: bool,
    files: set<seq<string>>,
    engine: EngineResult,
    decode: string -> Option<JValue>,
    saveOk: bool,
    newId: string,
    now: int)

  const MissingFieldsMessage := "Image URL and title are required"
  const ImageMissingMessage := "Image file not found"
  const AnalyzeFailedMessage := "Failed to analyze image. Please try again."

  /** `imageUrl?.substring(0, 50)` throws when the value is there, is not
      `null` and is not a string. */
  predicate SubstringThrows(v: Option<JValue>)
  {
    v.Some? && !v.value.JNull? && !v.value.JString?
  }

  /** The `!imageUrl || !title` check. */
  predicate MissingFields(body: JValue)
  {
    !Truthy(Get(body, "imageUrl")) || !Truthy(Get(body, "title"))
  }

  /** The body passes the field check: both fields truthy, the URL a string. */
  predicate WellFormedBody(body: JValue)
  {
    && !body.JNull?
    && !SubstringThrows(Get(body, "imageUrl"))
    && !MissingFields(body)
  }

  /** The URL of a well-formed body. */
  function UrlOf(body: JValue): (u: string)
    requires WellFormedBody(body)
    ensures Get(body, "imageUrl") == Some(JString(u)) && u != ""
  {
    Get(body, "imageUrl").value.s
  }

  /** A save of the finished document: the schema validates it (title trimmed
      again, both timestamps set), then the write must succeed; either failure
      is the handler's 500. */
  function Persist(w: World, userId: string, title: string, imageUrl: string, doc: JValue, store: Store): (r: (Outcome, Store))
    ensures r.0.Saved? <==> NewReport(w.newId, userId, title, imageUrl, doc, w.now).Success? && w.saveOk
    ensures r.0.Saved? ==> r.0.report == NewReport(w.newId, userId, title, imageUrl, doc, w.now).value
    ensures r.0.Saved? ==> r.1 == store + [r.0.report]
    ensures r.0.Rejected? ==> r == (Rejected(500, AnalyzeFailedMessage), store)
  {
    match NewReport(w.newId, userId, title, imageUrl, doc, w.now)
    case Failure(_) => (Rejected(500, AnalyzeFailedMessage), store)
    case Success(report) =>
      if !w.saveOk then (Rejected(500, AnalyzeFailedMessage), store)
      else (Saved(report), store + [report])
  }

  // ---------------------------------------------------------------------------
  // Server handler
  // ---------------------------------------------------------------------------

  /** The caller's upload folder: `uploads/<userId>` beside the routes
      directory. */
  function UserUploadDir(routesDir: string, userId: string): seq<string>
  {
    PathJoin([routesDir, "..", "uploads", userId])
  }

  /** The file the server reads: the last segment of the URL inside the
      caller's upload folder. */
  function ServerImagePath(routesDir: string, userId: string, imageUrl: string): seq<string>
  {
    PathJoin([routesDir, "..", "uploads", userId, Basename(imageUrl)])
  }

  /** The end of both handlers: the title must be a string for its `trim`
      (a 500 otherwise), then the parsed document is saved. The handler's
      own `trim` is left to the schema's, which gives the same title since
      trimming twice is trimming once (`JsText.TrimIdempotent`). */
  function SaveDocument(userId: string, url: string, title: JValue, w: World, doc: JValue, store: Store): (r: (Outcome, Store))
    ensures r.0.Saved? <==>
      title.JString? && NewReport(w.newId, userId, title.s, url, doc, w.now).Success? && w.saveOk
    ensures r.0.Rejected? ==> r == (Rejected(500, AnalyzeFailedMessage), store)
    ensures r.0.Saved? ==>
      && r.0.report.userId == userId
      && r.0.report.imageUrl == url
      && r.0.report.title == Trim(title.s)
      && r.0.report.id == w.newId
      && Success(r.0.report.analysis) == CastAnalysis(doc)
      && ValidReport(r.0.report)
      && r.1 == store + [r.0.report]
  {
    if !title.JString? then (Rejected(500, AnalyzeFailedMessage), store)
    else Persist(w, userId, title.s, url, doc, store)
  }

  /** The server handler once the image has been read: the AI call and the
      reply parse both end in a 500 when they fail. */
  function ServerAfterRead(userId: string, url: string, title: JValue, w: World, ai: Option<string>, store: Store): (r: (Outcome, Store))
    ensures r.0.Rejected? ==> r == (Rejected(500, AnalyzeFailedMessage), store)
    ensures ai.None? ==> r == (Rejected(500, AnalyzeFailedMessage), store)
    ensures ai.Some? && ParseServer(ai.value, w.decode).Crashed? ==> r == (Rejected(500, AnalyzeFailedMessage), store)
    ensures ai.Some? && ParseServer(ai.value, w.decode).Parsed? ==>
      r == SaveDocument(userId, url, title, w, ParseServer(ai.value, w.decode).doc, store)
  {
    match ai
    case None => (Rejected(500, AnalyzeFailedMessage), store)
    case Some(reply) =>
      match ParseServer(reply, w.decode)
      case Crashed => (Rejected(500, AnalyzeFailedMessage), store)
      case Parsed(doc) => SaveDocument(userId, url, title, w, doc, store)
  }

  /** The server gets as far as the AI call: the caller is authenticated,
      the body passes the field checks, the database is connected and the
      image is on disk. */
  predicate ServerReadsImage(gate: Gate, body: JValue, routesDir: string, w: World)
  {
    && gate.Proceed? && WellFormedBody(body) && w.dbOk
    && ServerImagePath(routesDir, gate.user.userId, UrlOf(body)) in w.files
  }

  /** The server's `POST /api/analyze`. After the middleware, a `null` body
      or a non-string URL throws (500); missing fields are a 400; then the
      connection (500) and the image read (404) come before anything else
      happens. Only a save changes the store. */
  function ServerAnalyze(gate: Gate, body: JValue, routesDir: string, w: World, ai: Option<string>, store: Store): (r: (Outcome, Store))
    ensures gate.Reject401? ==> r == (Rejected(401, "Authentication required"), store)
    ensures gate.Proceed? && !body.JNull? && !SubstringThrows(Get(body, "imageUrl")) && MissingFields(body) ==>
      r == (Rejected(400, MissingFieldsMessage), store)
    ensures gate.Proceed? && (body.JNull? || SubstringThrows(Get(body, "imageUrl"))) ==>
      r == (Rejected(500, AnalyzeFailedMessage), store)
    ensures gate.Proceed? && WellFormedBody(body) && !w.dbOk ==> r == (Rejected(500, AnalyzeFailedMessage), store)
    ensures r.0.Rejected? && r.0.status == 400 ==> MissingFields(body)
    ensures r.0.Rejected? && r.0.status == 404 <==>
      gate.Proceed? && WellFormedBody(body) && w.dbOk
      && ServerImagePath(routesDir, gate.user.userId, UrlOf(body)) !in w.files
    ensures r.0.Rejected? ==> r.1 == store && r.0.status in {400, 401, 404, 500}
    ensures r.0.Saved? ==> ServerReadsImage(gate, body, routesDir, w)
    ensures ServerReadsImage(gate, body, routesDir, w) ==>
      r == ServerAfterRead(gate.user.userId, UrlOf(body), Get(body, "title").value, w, ai, store)
  {
    match gate
    case Reject401 => (Rejected(401, "Authentication required"), store)
    case Proceed(user) =>
      if body.JNull? || SubstringThrows(Get(body, "imageUrl")) then (Rejected(500, AnalyzeFailedMessage), store)
      else if MissingFields(body) then (Rejected(400, MissingFieldsMessage), store)
      else if !w.dbOk then (Rejected(500, AnalyzeFailedMessage), store)
      else
        var url := UrlOf(body);
        if ServerImagePath(routesDir, user.userId, url) !in w.files then (Rejected(404, ImageMissingMessage), store)
        else ServerAfterRead(user.userId, url, Get(body, "title").value, w, ai, store)
  }

  /** A report the server saves belongs to the caller and carries the URL
      and the trimmed title of the request. */
  lemma ServerSavedReport(gate: Gate, body: JValue, routesDir: string, w: World, ai: Option<string>, store: Store)
    requires ServerAnalyze(gate, body, routesDir, w, ai, store).0.Saved?
    ensures var r := ServerAnalyze(gate, body, routesDir, w, ai, store);
      && gate.Proceed? && WellFormedBody(body)
      && Get(body, "title").value.JString?
      && r.0.report.userId == gate.user.userId
      && r.0.report.imageUrl == UrlOf(body)
      && r.0.report.title == Trim(Get(body, "title").value.s)
      && ValidReport(r.0.report)
      && r.1 == store + [r.0.report]
  {
  }

  /** The server reads inside the caller's folder: the URL's last segment
      there, or the folder itself when that segment is empty or `.`, or the
      uploads root when it is `..` (a directory, which no read succeeds on).
      The folder is the uploads root plus the caller's id. */
  lemma ServerReadConfined(routesDir: string, userId: string, imageUrl: string)
    requires Plain(userId)
    ensures UserUploadDir(routesDir, userId) == PathJoin([routesDir, "..", "uploads"]) + [userId]
    ensures var dir := UserUploadDir(routesDir, userId);
      var b := Basename(imageUrl);
      ServerImagePath(routesDir, userId, imageUrl) ==
        if Plain(b) then dir + [b]
        else if b == ".." then PathJoin([routesDir, "..", "uploads"])
        else dir
  {
    UploadPathShape(routesDir, userId, Basename(imageUrl));
  }

  lemma UploadPathShape(routesDir: string, userId: string, b: string)
    requires Plain(userId) && '/' !in b
    ensures PathJoin([routesDir, "..", "uploads", userId]) == PathJoin([routesDir, "..", "uploads"]) + [userId]
    ensures PathJoin([routesDir, "..", "uploads", userId, b]) ==
      if Plain(b) then PathJoin([routesDir, "..", "uploads"]) + [userId] + [b]
      else if b == ".." then PathJoin([routesDir, "..", "uploads"])
      else PathJoin([routesDir, "..", "uploads"]) + [userId]
  {
    var base := [routesDir, "..", "uploads"];
    JoinTwoNames(base, userId, b);
    assert base + [userId] == [routesDir, "..", "uploads", userId];
    assert base + [userId] + [b] == [routesDir, "..", "uploads", userId, b];
  }

  /** Another user's upload URL never reaches that user's file: the server
      looks in the caller's own folder. */
  lemma ServerCannotReadOthersUploads(caller: string, owner: Payload, file: Option<FilePart>,
                                      storageError: Option<string>, routesDir: string,
                                      timestamp: nat, random: nat)
    requires Plain(caller) && Plain(owner.userId) && caller != owner.userId
    requires ServerUpload(Proceed(owner), file, storageError, routesDir, timestamp, random).Uploaded?
    ensures var u := ServerUpload(Proceed(owner), file, storageError, routesDir, timestamp, random);
      ServerImagePath(routesDir, caller, u.url) != u.written
  {
    var u := ServerUpload(Proceed(owner), file, storageError, routesDir, timestamp, random);
    var name := u.filename;
    var base := PathJoin([routesDir, "..", "uploads"]);
    ServerFilenamePlain(timestamp, random, file.value.originalName);
    ServerUploadRoundTrip(owner, file, storageError, routesDir, timestamp, random);
    assert ServerImagePath(routesDir, caller, u.url) == base + [caller] + [name] by {
      UploadPathShape(routesDir, caller, name);
    }
    assert u.written == base + [owner.userId] + [name] by {
      UploadPathShape(routesDir, owner.userId, name);
    }
    assert (base + [caller] + [name])[|base|] == caller;
    assert (base + [owner.userId] + [name])[|base|] == owner.userId;
  }

  /** Upload and analyze agree: the URL the upload returns leads the server's
      analyze handler, for the same caller, to exactly the path the upload
      wrote. */
  lemma ServerUploadRoundTrip(user: Payload, file: Option<FilePart>, storageError: Option<string>,
                              routesDir: string, timestamp: nat, random: nat)
    requires ServerUpload(Proceed(user), file, storageError, routesDir, timestamp, random).Uploaded?
    ensures var u := ServerUpload(Proceed(user), file, storageError, routesDir, timestamp, random);
      && Basename(u.url) == u.filename
      && ServerImagePath(routesDir, user.userId, u.url) == u.written
  {
    var u := ServerUpload(Proceed(user), file, storageError, routesDir, timestamp, random);
    ServerUrlRoundTrip(routesDir, user.userId, u.filename);
  }

  /** The server's URL for a stored name leads back to that name inside the
      folder it was written to. */
  lemma ServerUrlRoundTrip(routesDir: string, userId: string, name: string)
    requires name != "" && '/' !in name
    ensures Basename(UploadUrl(userId, name)) == name
    ensures ServerImagePath(routesDir, userId, UploadUrl(userId, name))
         == PathJoin([Render(UserUploadDir(routesDir, userId)), name])
  {
    BasenameOfJoin("/uploads/" + userId, name);
    UploadFolderJoin(routesDir, "..", userId, name);
  }

  /** Both handlers' upload folders are `<root>/<sub>/uploads/<userId>`:
      joining a name onto the printed folder is joining it with the folder's
      parts. */
  lemma UploadFolderJoin(root: string, sub: string, userId: string, name: string)
    ensures PathJoin([root, sub, "uploads", userId, name])
         == PathJoin([Render(PathJoin([root, sub, "uploads", userId])), name])
  {
    var parts := [root, sub, "uploads", userId];
    assert parts + [name] == [root, sub, "uploads", userId, name];
    JoinThenJoin(parts, name);
  }

  /** End to end on the server: after an upload, analyzing its URL as the same
      caller finds the file. */
  lemma ServerAnalyzeFindsUpload(user: Payload, file: Option<FilePart>, storageError: Option<string>,
                                 routesDir: string, timestamp: nat, random: nat,
                                 body: JValue, title: string, w: World, ai: Option<string>, store: Store)
    requires ServerUpload(Proceed(user), file, storageError, routesDir, timestamp, random).Uploaded?
    requires ServerUpload(Proceed(user), file, storageError, routesDir, timestamp, random).written in w.files
    requires Get(body, "imageUrl") == Some(JString(ServerUpload(Proceed(user), file, storageError, routesDir, timestamp, random).url))
    requires Get(body, "title") == Some(JString(title)) && title != "" && w.dbOk
    ensures var r := ServerAnalyze(Proceed(user), body, routesDir, w, ai, store).0;
      r.Rejected? ==> r.status != 404
  {
    var u := ServerUpload(Proceed(user), file, storageError, routesDir, timestamp, random);
    ServerUploadRoundTrip(user, file, storageError, routesDir, timestamp, random);
    ServerFindsFile(user, body, u.url, title, routesDir, w, ai, store);
  }

  /** A well-formed request whose file is in the caller's folder is never a
      404 on the server. */
  lemma ServerFindsFile(user: Payload, body: JValue, url: string, title: string, routesDir: string, w: World,
                        ai: Option<string>, store: Store)
    requires Get(body, "imageUrl") == Some(JString(url)) && url != ""
    requires Get(body, "title") == Some(JString(title)) && title != "" && w.dbOk
    requires ServerImagePath(routesDir, user.userId, url) in w.files
    ensures var r := ServerAnalyze(Proceed(user), body, routesDir, w, ai, store).0;
      r.Rejected? ==> r.status != 404
  {
    ServerBodyReadsImage(user, body, url, title, routesDir, w);
    ServerPastReadFailsWith500(Proceed(user), body, routesDir, w, ai, store);
  }

  lemma ServerBodyReadsImage(user: Payload, body: JValue, url: string, title: string, routesDir: string, w: World)
    requires Get(body, "imageUrl") == Some(JString(url)) && url != ""
    requires Get(body, "title") == Some(JString(title)) && title != "" && w.dbOk
    requires ServerImagePath(routesDir, user.userId, url) in w.files
    ensures ServerReadsImage(Proceed(user), body, routesDir, w)
  {
    BodyOfFields(body, url, title);
  }

  /** A body with a non-empty string URL and a non-empty string title passes
      the field checks. */
  lemma BodyOfFields(body: JValue, url: string, title: string)
    requires Get(body, "imageUrl") == Some(JString(url)) && url != ""
    requires Get(body, "title") == Some(JString(title)) && title != ""
    ensures WellFormedBody(body) && UrlOf(body) == url
  {
  }

  /** Once the image is read, the only failure left is a 500. */
  lemma ServerPastReadFailsWith500(gate: Gate, body: JValue, routesDir: string, w: World, ai: Option<string>, store: Store)
    requires ServerReadsImage(gate, body, routesDir, w)
    ensures var r := ServerAnalyze(gate, body, routesDir, w, ai, store);
      r.0.Rejected? ==> r == (Rejected(500, AnalyzeFailedMessage), store)
  {
    var r := ServerAnalyze(gate, body, routesDir, w, ai, store);
    assert r == ServerAfterRead(gate.user.userId, UrlOf(body), Get(body, "title").value, w, ai, store);
  }

  /** The server never looks at the text recognition result: the outcome is
      the same whatever the engine did. */
  lemma ServerIgnoresOcr(gate: Gate, body: JValue, routesDir: string, w: World, engine: EngineResult,
                         ai: Option<string>, store: Store)
    ensures ServerAnalyze(gate, body, routesDir, w, ai, store)
         == ServerAnalyze(gate, body, routesDir, w.(engine := engine), ai, store)
  {
    if ServerReadsImage(gate, body, routesDir, w) {
      assert ServerReadsImage(gate, body, routesDir, w.(engine := engine));
      AfterReadIgnoresEngine(gate.user.userId, UrlOf(body), Get(body, "title").value, w, engine, ai, store);
    }
  }

  lemma AfterReadIgnoresEngine(userId: string, url: string, title: JValue, w: World, engine: EngineResult,
                               ai: Option<string>, store: Store)
    ensures ServerAfterRead(userId, url, title, w, ai, store)
         == ServerAfterRead(userId, url, title, w.(engine := engine), ai, store)
  {
    var w' := w.(engine := engine);
    assert w'.decode == w.decode && w'.newId == w.newId && w'.now == w.now && w'.saveOk == w.saveOk;
  }

  /** A span that does not decode costs the whole request a 500 on the server,
      and nothing is saved. */
  lemma ServerDecodeFailureIs500(user: Payload, body: JValue, routesDir: string, w: World, reply: string, store: Store)
    requires WellFormedBody(body) && w.dbOk
    requires ServerImagePath(routesDir, user.userId, UrlOf(body)) in w.files
    requires JsonSpan(reply).Some? && w.decode(JsonSpan(reply).value).None?
    ensures ServerAnalyze(Proceed(user), body, routesDir, w, Some(reply), store) == (Rejected(500, AnalyzeFailedMessage), store)
  {
  }

  /** An empty AI reply has no span; its fallback summary is empty, so the
      schema rejects it and the request fails with 500. */
  lemma ServerEmptyReplyIs500(user: Payload, body: JValue, routesDir: string, w: World, store: Store)
    requires WellFormedBody(body) && w.dbOk
    requires ServerImagePath(routesDir, user.userId, UrlOf(body)) in w.files
    ensures ServerAnalyze(Proceed(user), body, routesDir, w, Some(""), store) == (Rejected(500, AnalyzeFailedMessage), store)
  {
    var title := Get(body, "title").value;
    assert ServerAfterRead(user.userId, UrlOf(body), title, w, Some(""), store) == (Rejected(500, AnalyzeFailedMessage), store) by {
      EmptyReplyFails(user.userId, UrlOf(body), title, w, store);
    }
  }

  lemma EmptyReplyFails(userId: string, url: string, title: JValue, w: World, store: Store)
    ensures ServerAfterRead(userId, url, title, w, Some(""), store) == (Rejected(500, AnalyzeFailedMessage), store)
  {
    assert JsonSpan("").None?;
    ServerNoSpanFallback("", w.decode);
  }

  /** A decoded severity outside `low`/`medium`/`high` passes normalisation
      unchanged and then fails the schema: 500, nothing saved. */
  lemma ServerSeverityConflictIs500(user: Payload, body: JValue, routesDir: string, w: World,
                                    reply: string, raw: JValue, s: string, store: Store)
    requires WellFormedBody(body) && w.dbOk
    requires ServerImagePath(routesDir, user.userId, UrlOf(body)) in w.files
    requires JsonSpan(reply).Some? && w.decode(JsonSpan(reply).value) == Some(raw) && raw.JObject?
    requires Get(raw, "severity") == Some(JString(s)) && s != "" && ParseSeverity(s).None?
    ensures ServerAnalyze(Proceed(user), body, routesDir, w, Some(reply), store) == (Rejected(500, AnalyzeFailedMessage), store)
  {
    ServerSeverityConflict(raw, s);
  }

  /** An empty title: a 400 before the database, the file or the AI is
      consulted, so the outcome does not depend on any of them. */
  lemma ServerEmptyTitleIs400(user: Payload, body: JValue, url: string, routesDir: string, w: World, ai: Option<string>, store: Store)
    requires Get(body, "imageUrl") == Some(JString(url)) && Get(body, "title") == Some(JString(""))
    ensures ServerAnalyze(Proceed(user), body, routesDir, w, ai, store) == (Rejected(400, MissingFieldsMessage), store)
  {
  }

  /** A bare-string `keyFindings` with a valid severity: the server saves
      the analysis with the string wrapped in a list and the severity kept. */
  lemma ServerSavesWrappedFindings(user: Payload, body: JValue, routesDir: string, w: World, reply: string,
                                   raw: JValue, summary: string, reportType: string, findings: string, store: Store)
    requires ServerReadsImage(Proceed(user), body, routesDir, w) && w.saveOk
    requires Get(body, "title").value.JString? && Trim(Get(body, "title").value.s) != ""
    requires JsonSpan(reply).Some? && w.decode(JsonSpan(reply).value) == Some(raw)
    requires Get(raw, "summary") == Some(JString(summary)) && summary != ""
    requires Get(raw, "reportType") == Some(JString(reportType)) && reportType != ""
    requires Get(raw, "keyFindings") == Some(JString(findings))
    requires Get(raw, "recommendations") == Some(JArray([]))
    requires Get(raw, "medicinesSuggested") == Some(JArray([]))
    requires Get(raw, "severity") == Some(JString("high"))
    ensures var r := ServerAnalyze(Proceed(user), body, routesDir, w, Some(reply), store).0;
      && r.Saved?
      && r.report.analysis.keyFindings == [findings]
      && r.report.analysis.severity == High
  {
    var doc := NormaliseServer(raw);
    assert ParseServer(reply, w.decode) == Parsed(doc);
    ServerWrapsBareFindings(raw, summary, reportType, findings);
    var a := CastAnalysis(doc).value;
    ServerReachesSave(user, body, routesDir, w, reply, store);
    SavesAnalysis(user.userId, UrlOf(body), Get(body, "title").value, w, doc, a, store);
  }

  /** Past the image read, a reply that parses goes straight to the save. */
  lemma ServerReachesSave(user: Payload, body: JValue, routesDir: string, w: World, reply: string, store: Store)
    requires ServerReadsImage(Proceed(user), body, routesDir, w)
    requires ParseServer(reply, w.decode).Parsed?
    ensures ServerAnalyze(Proceed(user), body, routesDir, w, Some(reply), store)
         == SaveDocument(user.userId, UrlOf(body), Get(body, "title").value, w, ParseServer(reply, w.decode).doc, store)
  {
  }

  /** A document that casts is saved, with its cast as the analysis, when
      the title is a string with some text and the write succeeds. */
  lemma SavesAnalysis(userId: string, url: string, title: JValue, w: World, doc: JValue, a: Analysis, store: Store)
    requires url != "" && title.JString? && Trim(title.s) != "" && w.saveOk
    requires CastAnalysis(doc) == Success(a)
    ensures var r := SaveDocument(userId, url, title, w, doc, store).0;
      r.Saved? && r.report.analysis == a
  {
  }

  /** A fresh id keeps report ids unique. */
  lemma ServerSaveKeepsIdsUnique(gate: Gate, body: JValue, routesDir: string, w: World, ai: Option<string>, store: Store)
    requires UniqueIds(store)
    requires forall k :: 0 <= k < |store| ==> store[k].id != w.newId
    ensures UniqueIds(ServerAnalyze(gate, body, routesDir, w, ai, store).1)
  {
    var (o, after) := ServerAnalyze(gate, body, routesDir, w, ai, store);
    if o.Saved? {
      assert o.report.id == w.newId;
      AppendFreshId(store, o.report);
    }
  }

  // ---------------------------------------------------------------------------
  // Next.js handler
  // ---------------------------------------------------------------------------

  /** The file the Next.js handler reads: `public` under the working
      directory, joined with the URL as given. */
  function NextImagePath(cwd: string, imageUrl: string): seq<string>
  {
    PathJoin([cwd, "public", imageUrl])
  }

  /** The text handed to the AI call: the cleaned recognition text when
      recognition succeeded with some text, otherwise empty. */
  function AiContext(ocr: OcrResult): (t: string)
    ensures !ocr.success || ocr.text == "" ==> t == ""
    ensures ocr.success && ocr.text != "" ==> t == CleanMedicalText(ocr.text)
    ensures IsCleanText(t)
  {
    if ocr.success && ocr.text != "" then
      CleanOutputIsClean(ocr.text);
      CleanMedicalText(ocr.text)
    else ""
  }

  /** The Next.js read succeeds: the URL does not end in a slash (the joined
      path would keep it, and a file cannot be opened through it) and the
      joined path is a file on disk. */
  predicate NextReadable(cwd: string, url: string, w: World)
  {
    !EndsInSlash(url) && NextImagePath(cwd, url) in w.files
  }

  /** The Next.js handler gets as far as text recognition: there is a user,
      the body parsed and passes the field checks, the database is connected
      and the image can be read. */
  predicate NextReadsImage(user: Option<Payload>, body: Option<JValue>, cwd: string, w: World)
  {
    && user.Some? && body.Some? && WellFormedBody(body.value) && w.dbOk
    && NextReadable(cwd, UrlOf(body.value), w)
  }

  /** The Next.js handler once the image has been read and the AI called:
      no reply is a 500; any reply parses (a fallback at worst) and goes to
      the save. */
  function NextAfterRead(userId: string, url: string, title: JValue, w: World, reply: Option<string>, store: Store): (r: (Outcome, Store))
    ensures r.0.Rejected? ==> r == (Rejected(500, AnalyzeFailedMessage), store)
    ensures reply.None? ==> r == (Rejected(500, AnalyzeFailedMessage), store)
    ensures reply.Some? ==> r == SaveDocument(userId, url, title, w, ParseNext(reply.value, w.decode), store)
  {
    match reply
    case None => (Rejected(500, AnalyzeFailedMessage), store)
    case Some(text) => SaveDocument(userId, url, title, w, ParseNext(text, w.decode), store)
  }

  /** The Next.js `POST /api/analyze`. The user check comes first (401);
      a body that is not JSON, or is `null`, throws (500); then the same
      field checks as the server; then the connection and the read under
      `public` (404). Text recognition then feeds the AI call. Only a save
      changes the store. */
  function NextAnalyze(user: Option<Payload>, body: Option<JValue>, cwd: string, w: World,
                       ai: string -> Option<string>, store: Store): (r: (Outcome, Store))
    ensures user.None? ==> r == (Rejected(401, "Unauthorized"), store)
    ensures (user.Some? && body.Some? && !body.value.JNull? && !SubstringThrows(Get(body.value, "imageUrl"))
      && MissingFields(body.value)) ==> r == (Rejected(400, MissingFieldsMessage), store)
    ensures user.Some? && body.None? ==> r == (Rejected(500, AnalyzeFailedMessage), store)
    ensures (user.Some? && body.Some? && (body.value.JNull? || SubstringThrows(Get(body.value, "imageUrl"))))
      ==> r == (Rejected(500, AnalyzeFailedMessage), store)
    ensures user.Some? && body.Some? && WellFormedBody(body.value) && !w.dbOk ==>
      r == (Rejected(500, AnalyzeFailedMessage), store)
    ensures r.0.Rejected? && r.0.status == 400 ==> body.Some? && MissingFields(body.value)
    ensures r.0.Rejected? && r.0.status == 404 <==>
      user.Some? && body.Some? && WellFormedBody(body.value) && w.dbOk
      && !NextReadable(cwd, UrlOf(body.value), w)
    ensures r.0.Rejected? ==> r.1 == store && r.0.status in {400, 401, 404, 500}
    ensures r.0.Saved? ==> NextReadsImage(user, body, cwd, w)
    ensures NextReadsImage(user, body, cwd, w) ==>
      r == NextAfterRead(user.value.userId, UrlOf(body.value), Get(body.value, "title").value, w,
                         ai(AiContext(ExtractTextFromImage(w.engine))), store)
  {
    match user
    case None => (Rejected(401, "Unauthorized"), store)
    case Some(u) =>
      match body
      case None => (Rejected(500, AnalyzeFailedMessage), store)
      case Some(b) =>
        if b.JNull? || SubstringThrows(Get(b, "imageUrl")) then (Rejected(500, AnalyzeFailedMessage), store)
        else if MissingFields(b) then (Rejected(400, MissingFieldsMessage), store)
        else if !w.dbOk then (Rejected(500, AnalyzeFailedMessage), store)
        else
          var url := UrlOf(b);
          if !NextReadable(cwd, url, w) then (Rejected(404, ImageMissingMessage), store)
          else NextAfterRead(u.userId, url, Get(b, "title").value, w, ai(AiContext(ExtractTextFromImage(w.engine))), store)
  }

  /** A report the Next.js handler saves belongs to the caller, carries the
      URL and the trimmed title of the request, and holds the cast of the
      parsed AI reply. */
  lemma NextSavedReport(user: Option<Payload>, body: Option<JValue>, cwd: string, w: World,
                        ai: string -> Option<string>, store: Store)
    requires NextAnalyze(user, body, cwd, w, ai, store).0.Saved?
    ensures var r := NextAnalyze(user, body, cwd, w, ai, store);
      var reply := ai(AiContext(ExtractTextFromImage(w.engine)));
      && NextReadsImage(user, body, cwd, w)
      && reply.Some?
      && Get(body.value, "title").value.JString?
      && r.0.report.userId == user.value.userId
      && r.0.report.imageUrl == UrlOf(body.value)
      && r.0.report.title == Trim(Get(body.value, "title").value.s)
      && Success(r.0.report.analysis) == CastAnalysis(ParseNext(reply.value, w.decode))
      && ValidReport(r.0.report)
      && r.1 == store + [r.0.report]
  {
  }

  /** Upload and analyze agree on Next.js: `public` joined with the returned
      URL is the path the upload wrote. The read does not involve the
      caller's id at all. */
  lemma NextUploadRoundTrip(owner: Option<Payload>, form: Option<FormEntry>, typesEnv: Option<string>,
                            sizeEnv: Option<string>, cwd: string, timestamp: nat, random36: string, writeOk: bool)
    requires NextUpload(owner, form, typesEnv, sizeEnv, cwd, timestamp, random36, writeOk).Uploaded?
    ensures var u := NextUpload(owner, form, typesEnv, sizeEnv, cwd, timestamp, random36, writeOk);
      NextImagePath(cwd, u.url) == u.written
  {
    var u := NextUpload(owner, form, typesEnv, sizeEnv, cwd, timestamp, random36, writeOk);
    NextUrlRoundTrip(cwd, owner.value.userId, u.filename);
  }

  /** `public` joined with the Next.js URL for a stored name is that name in
      the folder the upload writes to. */
  lemma NextUrlRoundTrip(cwd: string, userId: string, name: string)
    ensures NextImagePath(cwd, UploadUrl(userId, name))
         == PathJoin([Render(PathJoin([cwd, "public", "uploads", userId])), name])
  {
    assert UploadUrl(userId, name) == "/" + "uploads" + "/" + userId + "/" + name;
    JoinRootedUrl(cwd, "public", "uploads", userId, name);
    UploadFolderJoin(cwd, "public", userId, name);
  }

  /** The Next.js read is not confined to the caller: any signed-in caller who
      presents another user's upload URL gets that user's file analyzed. */
  lemma NextReadsAnyUsersUpload(caller: Payload, owner: Option<Payload>, form: Option<FormEntry>,
                                typesEnv: Option<string>, sizeEnv: Option<string>, cwd: string,
                                timestamp: nat, random36: string, writeOk: bool,
                                body: JValue, title: string, w: World, ai: string -> Option<string>, store: Store)
    requires NextUpload(owner, form, typesEnv, sizeEnv, cwd, timestamp, random36, writeOk).Uploaded?
    requires NextUpload(owner, form, typesEnv, sizeEnv, cwd, timestamp, random36, writeOk).written in w.files
    requires Get(body, "imageUrl") == Some(JString(NextUpload(owner, form, typesEnv, sizeEnv, cwd, timestamp, random36, writeOk).url))
    requires Get(body, "title") == Some(JString(title)) && title != "" && w.dbOk
    ensures var r := NextAnalyze(Some(caller), Some(body), cwd, w, ai, store).0;
      r.Rejected? ==> r.status != 404
  {
    var u := NextUpload(owner, form, typesEnv, sizeEnv, cwd, timestamp, random36, writeOk);
    NextUploadRoundTrip(owner, form, typesEnv, sizeEnv, cwd, timestamp, random36, writeOk);
    assert u.url != "" && !EndsInSlash(u.url) by {
      assert u.url == "/uploads/" + owner.value.userId + "/" + u.filename;
      assert u.filename != "" && u.url[|u.url| - 1] == u.filename[|u.filename| - 1];
    }
    NextFindsFile(caller, body, u.url, title, cwd, w, ai, store);
  }

  /** A well-formed request whose file is under `public`, with no trailing
      slash on the URL, is never a 404 on Next.js. */
  lemma NextFindsFile(caller: Payload, body: JValue, url: string, title: string, cwd: string, w: World,
                      ai: string -> Option<string>, store: Store)
    requires Get(body, "imageUrl") == Some(JString(url)) && url != "" && !EndsInSlash(url)
    requires Get(body, "title") == Some(JString(title)) && title != "" && w.dbOk
    requires NextImagePath(cwd, url) in w.files
    ensures var r := NextAnalyze(Some(caller), Some(body), cwd, w, ai, store).0;
      r.Rejected? ==> r.status != 404
  {
    assert NextReadsImage(Some(caller), Some(body), cwd, w) by {
      BodyOfFields(body, url, title);
    }
  }

  /** On Next.js a span that does not decode is not an error: the report is
      saved with the text fallback, whose summary is the whole reply. */
  lemma NextDecodeFailureSaves(user: Payload, body: JValue, cwd: string, w: World,
                               ai: string -> Option<string>, reply: string, store: Store)
    requires WellFormedBody(body) && w.dbOk && w.saveOk
    requires Get(body, "title").value.JString? && Trim(Get(body, "title").value.s) != ""
    requires NextReadable(cwd, UrlOf(body), w)
    requires ai(AiContext(ExtractTextFromImage(w.engine))) == Some(reply)
    requires JsonSpan(reply).Some? && w.decode(JsonSpan(reply).value).None?
    ensures var r := NextAnalyze(Some(user), Some(body), cwd, w, ai, store).0;
      && r.Saved?
      && r.report.analysis == Analysis(reply, TextFindings, RecommendationsPlaceholder, [], DefaultReportType, Medium)
  {
    var title := Get(body, "title").value;
    var doc := ParseNext(reply, w.decode);
    assert NextAnalyze(Some(user), Some(body), cwd, w, ai, store)
        == SaveDocument(user.userId, UrlOf(body), title, w, doc, store);
    NextFallbackValidates(reply, w.decode);
    SavesAnalysis(user.userId, UrlOf(body), title, w, doc, CastAnalysis(doc).value, store);
  }

  /** On Next.js the AI sees nothing of a failed recognition. */
  lemma NextFailedOcrGivesEmptyContext(engine: EngineResult)
    requires engine.EngineFailed?
    ensures AiContext(ExtractTextFromImage(engine)) == ""
  {
  }
}
