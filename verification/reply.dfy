/** Turning the AI model's free-text reply into an analysis document: the
    greedy JSON span, the server's field normaliser and fallback record, and
    the Next.js variant that stores the decoded value as it is. */
module ReplyParser {
  import opened Wrappers
  import opened JsText
  import opened Json
  import opened Schema

  /** Index of the first `c` in `s`. */
  function FirstIndex(s: string, c: char): (r: Option<nat>)
    ensures r.None? ==> forall k :: 0 <= k < |s| ==> s[k] != c
    ensures r.Some? ==> r.value < |s| && s[r.value] == c
    ensures r.Some? ==> forall k :: 0 <= k < r.value ==> s[k] != c
  {
    if s == [] then None
    else if s[0] == c then Some(0)
    else
      match FirstIndex(s[1..], c)
      case None => None
      case Some(k) => Some(k + 1)
  }

  /** Index of the last `c` in `s`. */
  function LastIndex(s: string, c: char): (r: Option<nat>)
    ensures r.None? ==> forall k :: 0 <= k < |s| ==> s[k] != c
    ensures r.Some? ==> r.value < |s| && s[r.value] == c
    ensures r.Some? ==> forall k :: r.value < k < |s| ==> s[k] != c
  {
    if s == [] then None
    else if s[|s| - 1] == c then Some(|s| - 1)
    else LastIndex(s[..|s| - 1], c)
  }

  /** `span` sits at index `i` of `reply`, with no `{` before it and no `}`
      after it. */
  predicate GreedySpanAt(reply: string, i: nat, span: string)
  {
    && i + |span| <= |reply|
    && span == reply[i..i + |span|]
    && (forall k :: 0 <= k < i ==> reply[k] != '{')
    && (forall k :: i + |span| <= k < |reply| ==> reply[k] != '}')
  }

  /** The match of `/\{[\s\S]*\}/` in a reply. The leftmost match starts at
      the first `{` and, being greedy, ends at the last `}`; there is none when
      no `}` follows the first `{`. */
  function JsonSpan(reply: string): (r: Option<string>)
    ensures r.Some? <==> exists i, j :: 0 <= i < j < |reply| && reply[i] == '{' && reply[j] == '}'
    ensures r.Some? ==> |r.value| >= 2 && r.value[0] == '{' && r.value[|r.value| - 1] == '}'
    ensures r.Some? ==> exists i :: GreedySpanAt(reply, i, r.value)
  {
    var first := FirstIndex(reply, '{');
    var last := LastIndex(reply, '}');
    if first.Some? && last.Some? && first.value < last.value then
      var i, j := first.value, last.value;
      var span := reply[i..j + 1];
      assert span[j - i] == reply[j];
      assert GreedySpanAt(reply, i, span);
      Some(span)
    else
      None
  }

  // ---------------------------------------------------------------------------
  // Server variant: field normalisation and the fallback record
  // ---------------------------------------------------------------------------

  const DefaultSummary := "Medical report analyzed"
  const DefaultReportType := "Medical Report"
  const DefaultSeverity := "medium"
  const FindingsPlaceholder: seq<string> := ["Key findings processed"]
  const RecommendationsPlaceholder: seq<string> := ["Consult with healthcare professional"]
  const MedicinesPlaceholder: seq<string> := []
  const TextFindings: seq<string> := ["Analysis provided as text"]
  const FallbackLength := 500

  /** `value || fallback`. */
  function OrDefault(v: Option<JValue>, fallback: string): (r: JValue)
    ensures Truthy(v) ==> v == Some(r)
    ensures !Truthy(v) ==> r == JString(fallback)
  {
    if Truthy(v) then v.value else JString(fallback)
  }

  /** `Array.isArray(v) ? v : typeof v === 'string' ? [v] : placeholder`. */
  function ListOr(v: Option<JValue>, placeholder: seq<string>): (r: JValue)
    ensures r.JArray?
    ensures v.Some? && v.value.JArray? ==> r == v.value
    ensures v.Some? && v.value.JString? ==> r == JArray([v.value])
    ensures v.None? || !(v.value.JArray? || v.value.JString?) ==> r == Strings(placeholder)
  {
    match v
    case Some(JArray(_)) => v.value
    case Some(JString(_)) => JArray([v.value])
    case _ => Strings(placeholder)
  }

  /** An analysis document in the shape the server normaliser produces: the
      six keys, truthy scalar fields, array-valued list fields. */
  predicate NormalShape(d: JValue)
  {
    && d.JObject?
    && d.fields.Keys == AnalysisKeys
    && Truthy(Get(d, "summary"))
    && Truthy(Get(d, "reportType"))
    && Truthy(Get(d, "severity"))
    && d.fields["keyFindings"].JArray?
    && d.fields["recommendations"].JArray?
    && d.fields["medicinesSuggested"].JArray?
  }

  /** The server's coercion of a decoded reply into an analysis document. A
      property read of a non-object finds nothing, so every field takes its
      default; reading a property of `null` throws, which `ParseServer`
      models. The severity is passed through unchecked. */
  function NormaliseServer(raw: JValue): (r: JValue)
    ensures NormalShape(r)
  {
    JObject(map[
      "summary" := OrDefault(Get(raw, "summary"), DefaultSummary),
      "reportType" := OrDefault(Get(raw, "reportType"), DefaultReportType),
      "keyFindings" := ListOr(Get(raw, "keyFindings"), FindingsPlaceholder),
      "recommendations" := ListOr(Get(raw, "recommendations"), RecommendationsPlaceholder),
      "medicinesSuggested" := ListOr(Get(raw, "medicinesSuggested"), MedicinesPlaceholder),
      "severity" := OrDefault(Get(raw, "severity"), DefaultSeverity)])
  }

  /** The normaliser leaves a document already in its shape unchanged. */
  lemma NormaliseFixesNormalShape(d: JValue)
    requires NormalShape(d)
    ensures NormaliseServer(d) == d
  {
    var r := NormaliseServer(d);
    assert r.fields.Keys == d.fields.Keys;
    forall k | k in d.fields
      ensures r.fields[k] == d.fields[k]
    {
    }
  }

  /** Normalising twice is normalising once. */
  lemma NormaliseIdempotent(raw: JValue)
    ensures NormaliseServer(NormaliseServer(raw)) == NormaliseServer(raw)
  {
    NormaliseFixesNormalShape(NormaliseServer(raw));
  }

  /** Field by field: truthy scalars are kept, others take their defaults;
      arrays are kept, strings wrapped, anything else replaced. */
  lemma NormaliseFields(raw: JValue)
    ensures var r := NormaliseServer(raw);
      && (Truthy(Get(raw, "summary")) ==> Get(r, "summary") == Get(raw, "summary"))
      && (!Truthy(Get(raw, "summary")) ==> Get(r, "summary") == Some(JString(DefaultSummary)))
      && (Truthy(Get(raw, "reportType")) ==> Get(r, "reportType") == Get(raw, "reportType"))
      && (!Truthy(Get(raw, "reportType")) ==> Get(r, "reportType") == Some(JString(DefaultReportType)))
      && (Truthy(Get(raw, "severity")) ==> Get(r, "severity") == Get(raw, "severity"))
      && (!Truthy(Get(raw, "severity")) ==> Get(r, "severity") == Some(JString(DefaultSeverity)))
  {
  }

  /** A bare string in a list field becomes a one-element list. */
  lemma NormaliseWrapsString(raw: JValue, key: string, s: string)
    requires key in {"keyFindings", "recommendations", "medicinesSuggested"}
    requires Get(raw, key) == Some(JString(s))
    ensures Get(NormaliseServer(raw), key) == Some(Strings([s]))
  {
    assert Strings([s]).items == [JString(s)];
  }

  /** A list field that is neither an array nor a string becomes its
      placeholder. */
  lemma NormalisePlaceholders(raw: JValue)
    ensures var r := NormaliseServer(raw);
      && (Get(raw, "keyFindings").None? || !(Get(raw, "keyFindings").value.JArray? || Get(raw, "keyFindings").value.JString?) ==>
          Get(r, "keyFindings") == Some(Strings(FindingsPlaceholder)))
      && (Get(raw, "recommendations").None? || !(Get(raw, "recommendations").value.JArray? || Get(raw, "recommendations").value.JString?) ==>
          Get(r, "recommendations") == Some(Strings(RecommendationsPlaceholder)))
      && (Get(raw, "medicinesSuggested").None? || !(Get(raw, "medicinesSuggested").value.JArray? || Get(raw, "medicinesSuggested").value.JString?) ==>
          Get(r, "medicinesSuggested") == Some(Strings(MedicinesPlaceholder)))
  {
  }

  /** The analysis document built when the reply has no usable JSON. */
  function Fallback(summary: string, findings: seq<string>): (d: JValue)
    ensures d.JObject? && d.fields.Keys == AnalysisKeys
  {
    JObject(map[
      "summary" := JString(summary),
      "reportType" := JString(DefaultReportType),
      "keyFindings" := Strings(findings),
      "recommendations" := Strings(RecommendationsPlaceholder),
      "medicinesSuggested" := Strings(MedicinesPlaceholder),
      "severity" := JString(DefaultSeverity)])
  }

  /** A fallback record validates exactly when its summary is non-empty, and
      then stores the summary, the given findings and `medium` severity. */
  lemma FallbackValidates(summary: string, findings: seq<string>)
    ensures CastAnalysis(Fallback(summary, findings)).Success? <==> summary != ""
    ensures summary != "" ==> (CastAnalysis(Fallback(summary, findings)) ==
      Success(Analysis(summary, findings, RecommendationsPlaceholder, [], DefaultReportType, Medium)))
  {
    var d := Fallback(summary, findings);
    FallbackFields(summary, findings);
    if summary != "" {
      CastOfFields(d, Analysis(summary, findings, RecommendationsPlaceholder, [], DefaultReportType, Medium));
    }
  }

  lemma FallbackFields(summary: string, findings: seq<string>)
    ensures var d := Fallback(summary, findings);
      && Get(d, "summary") == Some(JString(summary))
      && Get(d, "reportType") == Some(JString(DefaultReportType))
      && Get(d, "keyFindings") == Some(Strings(findings))
      && Get(d, "recommendations") == Some(Strings(RecommendationsPlaceholder))
      && Get(d, "medicinesSuggested") == Some(Strings([]))
      && Get(d, "severity") == Some(JString(SeverityName(Medium)))
  {
  }

  /** The server's parse step: the analysis document, or a throw that ends in
      the handler's 500. */
  datatype ParseResult = Parsed(doc: JValue) | Crashed

  /** The server's reply parsing. Without a span the fallback keeps the first
      500 characters of the reply. A span that does not decode throws: the
      catch block reads a variable scoped to the `try` block, so its own
      fallback record is never built. A span that decodes to `null` throws on
      the first property read. */
  function ParseServer(reply: string, decode: string -> Option<JValue>): (r: ParseResult)
    ensures JsonSpan(reply).None? ==>
      r == Parsed(Fallback(Substring(reply, 0, FallbackLength), TextFindings))
    ensures JsonSpan(reply).Some? ==>
      var d := decode(JsonSpan(reply).value);
      && (r.Crashed? <==> d.None? || d == Some(JNull))
      && (r.Parsed? ==> r.doc == NormaliseServer(d.value))
  {
    match JsonSpan(reply)
    case None => Parsed(Fallback(Substring(reply, 0, FallbackLength), TextFindings))
    case Some(span) =>
      match decode(span)
      case None => Crashed
      case Some(JNull) => Crashed
      case Some(raw) => Parsed(NormaliseServer(raw))
  }

  /** Without a span the stored summary is the reply's first 500 characters
      and the findings say the analysis came as text; the record validates iff
      the reply is non-empty. */
  lemma ServerNoSpanFallback(reply: string, decode: string -> Option<JValue>)
    requires JsonSpan(reply).None?
    ensures var summary := if |reply| <= 500 then reply else reply[..500];
      && ParseServer(reply, decode) == Parsed(Fallback(summary, TextFindings))
      && (CastAnalysis(ParseServer(reply, decode).doc).Success? <==> reply != "")
      && (reply != "" ==> CastAnalysis(ParseServer(reply, decode).doc).value.keyFindings == ["Analysis provided as text"])
  {
    var summary := Substring(reply, 0, FallbackLength);
    assert summary == if |reply| <= 500 then reply else reply[..500];
    FallbackValidates(summary, TextFindings);
  }

  /** Every parsed document is in normal shape, or is the no-span fallback of
      an empty reply. */
  lemma ServerParsedShape(reply: string, decode: string -> Option<JValue>)
    requires ParseServer(reply, decode).Parsed?
    ensures NormalShape(ParseServer(reply, decode).doc) || reply == ""
  {
    if JsonSpan(reply).None? && reply != "" {
      assert Substring(reply, 0, FallbackLength) != "";
    }
  }

  /** The unchecked severity: a decoded truthy severity outside the enum
      survives normalisation and then fails schema validation. */
  lemma ServerSeverityConflict(raw: JValue, s: string)
    requires Get(raw, "severity") == Some(JString(s))
    requires s != "" && ParseSeverity(s).None?
    ensures Get(NormaliseServer(raw), "severity") == Some(JString(s))
    ensures CastAnalysis(NormaliseServer(raw)).Failure?
  {
  }

  /** A bare-string `keyFindings` next to a valid severity: the normalised
      document casts, the string wrapped in a list and the severity kept. */
  lemma ServerWrapsBareFindings(raw: JValue, summary: string, reportType: string, findings: string)
    requires Get(raw, "summary") == Some(JString(summary)) && summary != ""
    requires Get(raw, "reportType") == Some(JString(reportType)) && reportType != ""
    requires Get(raw, "keyFindings") == Some(JString(findings))
    requires Get(raw, "recommendations") == Some(JArray([]))
    requires Get(raw, "medicinesSuggested") == Some(JArray([]))
    requires Get(raw, "severity") == Some(JString("high"))
    ensures CastAnalysis(NormaliseServer(raw)) == Success(Analysis(summary, [findings], [], [], reportType, High))
  {
    var d := NormaliseServer(raw);
    assert Get(d, "keyFindings") == Some(Strings([findings])) by {
      NormaliseWrapsString(raw, "keyFindings", findings);
    }
    assert Get(d, "summary") == Some(JString(summary)) && Get(d, "reportType") == Some(JString(reportType))
        && Get(d, "severity") == Some(JString(SeverityName(High))) by {
      NormaliseFields(raw);
    }
    assert Strings([]) == JArray([]);
    assert Get(d, "recommendations") == Some(Strings([])) && Get(d, "medicinesSuggested") == Some(Strings([]));
    CastOfFields(d, Analysis(summary, [findings], [], [], reportType, High));
  }

  // ---------------------------------------------------------------------------
  // Next.js variant: no coercion, one fallback
  // ---------------------------------------------------------------------------

  /** The Next.js reply parsing: a decoded span is the analysis as it is; no
      span and a failed decode give the same fallback, whose summary is the
      whole reply. */
  function ParseNext(reply: string, decode: string -> Option<JValue>): (d: JValue)
    ensures JsonSpan(reply).Some? && decode(JsonSpan(reply).value).Some? ==>
      d == decode(JsonSpan(reply).value).value
    ensures JsonSpan(reply).None? || decode(JsonSpan(reply).value).None? ==>
      d == Fallback(reply, TextFindings)
  {
    match JsonSpan(reply)
    case None => Fallback(reply, TextFindings)
    case Some(span) =>
      match decode(span)
      case None => Fallback(reply, TextFindings)
      case Some(v) => v
  }

  /** The Next.js fallback keeps the whole reply and validates whenever the
      reply is non-empty; a failed decode always has a non-empty reply. */
  lemma NextFallbackValidates(reply: string, decode: string -> Option<JValue>)
    requires JsonSpan(reply).None? || decode(JsonSpan(reply).value).None?
    requires JsonSpan(reply).Some? || reply != ""
    ensures CastAnalysis(ParseNext(reply, decode)) ==
      Success(Analysis(reply, TextFindings, RecommendationsPlaceholder, [], DefaultReportType, Medium))
  {
    FallbackValidates(reply, TextFindings);
  }
}
