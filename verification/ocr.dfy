/** Text recognition post-processing: the result shape of the recognition
    call, the cleaning transducer applied to recognised text, and the
    keyword heuristic that says whether text looks medical. */
module Ocr {
  import opened Wrappers
  import opened JsText
  import Seqs

  // ---------------------------------------------------------------------------
  // Recognition result
  // ---------------------------------------------------------------------------

  /** What the recognition engine did: produced text with a confidence, or failed
      with a message. The engine itself is outside the model. */
  datatype EngineResult = Recognized(text: string, confidence: real) | EngineFailed(message: string)

  /** The record the extraction step hands back to the handlers. */
  datatype OcrResult = OcrResult(text: string, confidence: real, success: bool, error: Option<string>)

  /** Extraction never fails outright: an engine failure becomes an unsuccessful
      result with empty text and zero confidence that carries the message; a
      recognition becomes a successful result with the text trimmed. */
  function ExtractTextFromImage(engine: EngineResult): (r: OcrResult)
    ensures r.success <==> engine.Recognized?
    ensures r.success ==> r.error == None && r.confidence == engine.confidence
    ensures r.success ==> r.text == Trim(engine.text)
    ensures r.text == [] || (!IsSpace(r.text[0]) && !IsSpace(r.text[|r.text| - 1]))
    ensures !r.success ==> r.text == "" && r.confidence == 0.0 && r.error == Some(engine.message)
  {
    match engine
    case Recognized(text, confidence) => OcrResult(Trim(text), confidence, true, None)
    case EngineFailed(message) => OcrResult("", 0.0, false, Some(message))
  }

  // ---------------------------------------------------------------------------
  // Cleaning
  // ---------------------------------------------------------------------------

  /** The regular-expression class `\w` (no Unicode flag): ASCII letters, digits
      and underscore. */
  predicate IsWordChar(c: char)
  {
    ('a' <= c <= 'z') || ('A' <= c <= 'Z') || ('0' <= c <= '9') || c == '_'
  }

  /** The punctuation the cleaner lets through. */
  predicate IsPunct(c: char)
  {
    c == '-' || c == '.' || c == ',' || c == ':' || c == ';' || c == '/' || c == '(' || c == ')' || c == '%'
  }

  /** A character that survives cleaning: a word character or allowed punctuation.
      None of them is white space. */
  predicate IsAllowed(c: char)
  {
    IsWordChar(c) || IsPunct(c)
  }

  predicate NotSpace(c: char)
  {
    !IsSpace(c)
  }

  predicate NotBlank(c: char)
  {
    c != ' '
  }

  /** Every white-space character is a plain space and no two are adjacent. */
  predicate SingleSpaced(t: string)
  {
    && (forall i :: 0 <= i < |t| ==> IsSpace(t[i]) ==> t[i] == ' ')
    && (forall i :: 0 <= i < |t| - 1 ==> !(IsSpace(t[i]) && IsSpace(t[i + 1])))
  }

  /** `replace(/\s+/g, ' ')`: every maximal run of white space becomes one space. */
  function CollapseSpaces(s: string): (r: string)
    ensures |r| <= |s|
    ensures SingleSpaced(r)
    ensures forall i :: 0 <= i < |r| ==> r[i] == ' ' || r[i] in s
    ensures |s| > 0 ==> |r| > 0 && (if IsSpace(s[0]) then r[0] == ' ' else r[0] == s[0])
    decreases |s|
  {
    if s == [] then []
    else if IsSpace(s[0]) then [' '] + CollapseSpaces(TrimStart(s))
    else [s[0]] + CollapseSpaces(s[1..])
  }

  /** `replace(/[^\w\s\-\.\,\:\;\/\(\)\%]/g, ' ')` on one character. */
  function BlankChar(c: char): char
  {
    if IsAllowed(c) || IsSpace(c) then c else ' '
  }

  /** `replace(/[^\w\s\-\.\,\:\;\/\(\)\%]/g, ' ')`: every character that is
      neither allowed nor white space becomes a space. */
  function BlankDisallowed(s: string): (r: string)
    ensures |r| == |s|
    ensures forall i :: 0 <= i < |r| ==> IsAllowed(r[i]) || IsSpace(r[i])
  {
    if s == [] then [] else [BlankChar(s[0])] + BlankDisallowed(s[1..])
  }

  /** `cleanMedicalText`: collapse white space, blank out disallowed characters,
      collapse again, trim. */
  function CleanMedicalText(s: string): (r: string)
    ensures |r| <= |s|
  {
    Trim(CollapseSpaces(BlankDisallowed(CollapseSpaces(s))))
  }

  /** The shape every cleaned text has: only allowed characters and plain spaces,
      no space at either end, never two spaces in a row. */
  predicate IsCleanText(t: string)
  {
    && (forall i :: 0 <= i < |t| ==> IsAllowed(t[i]) || t[i] == ' ')
    && (t == [] || (t[0] != ' ' && t[|t| - 1] != ' '))
    && (forall i :: 0 <= i < |t| - 1 ==> !(t[i] == ' ' && t[i + 1] == ' '))
  }

  /** Only allowed characters and plain spaces occur. */
  predicate AllowedOrBlank(t: string)
  {
    forall i :: 0 <= i < |t| ==> IsAllowed(t[i]) || t[i] == ' '
  }

  /** Collapsing text made of allowed characters and white space leaves only
      allowed characters and plain spaces. */
  lemma CollapseCharset(b: string)
    requires forall i :: 0 <= i < |b| ==> IsAllowed(b[i]) || IsSpace(b[i])
    ensures AllowedOrBlank(CollapseSpaces(b))
  {
    var c := CollapseSpaces(b);
    forall i | 0 <= i < |c|
      ensures IsAllowed(c[i]) || c[i] == ' '
    {
      if c[i] != ' ' {
        var j :| 0 <= j < |b| && b[j] == c[i];
      }
    }
  }

  /** A contiguous piece of single-spaced text of allowed characters is again so. */
  lemma SliceShape(c: string, k: nat, r: string)
    requires k + |r| <= |c| && r == c[k..k + |r|]
    requires AllowedOrBlank(c) && SingleSpaced(c)
    ensures AllowedOrBlank(r) && SingleSpaced(r)
  {
    forall i | 0 <= i < |r|
      ensures r[i] == c[k + i]
    {
    }
  }

  /** Trimming single-spaced text of allowed characters gives clean text. */
  lemma TrimCleans(c: string)
    requires AllowedOrBlank(c) && SingleSpaced(c)
    ensures IsCleanText(Trim(c))
  {
    var r := Trim(c);
    SliceShape(c, |c| - |TrimStart(c)|, r);
    assert IsSpace(' ');
  }

  /** Cleaned text has the clean shape. */
  lemma CleanOutputIsClean(s: string)
    ensures IsCleanText(CleanMedicalText(s))
  {
    var b := BlankDisallowed(CollapseSpaces(s));
    CollapseCharset(b);
    TrimCleans(CollapseSpaces(b));
  }

  lemma MiddleIndex(a: string, m: string, b: string)
    ensures forall i :: 0 <= i < |m| ==> m[i] == (a + m + b)[|a| + i]
  {
  }

  /** Collapsing keeps every visible character, in order. */
  lemma {:induction false} CollapseKeepsVisible(s: string)
    ensures Seqs.Filter(CollapseSpaces(s), NotSpace) == Seqs.Filter(s, NotSpace)
    decreases |s|
  {
    if s != [] {
      if IsSpace(s[0]) {
        var t := TrimStart(s);
        var k := |s| - |t|;
        CollapseKeepsVisible(t);
        Seqs.FilterConcat([' '], CollapseSpaces(t), NotSpace);
        assert s == s[..k] + t;
        Seqs.FilterConcat(s[..k], t, NotSpace);
        Seqs.FilterNone(s[..k], NotSpace);
      } else {
        CollapseKeepsVisible(s[1..]);
        Seqs.FilterConcat([s[0]], CollapseSpaces(s[1..]), NotSpace);
      }
    }
  }

  /** Blanking keeps every allowed character, in order. */
  lemma {:induction false} BlankKeepsAllowed(s: string)
    ensures Seqs.Filter(BlankDisallowed(s), IsAllowed) == Seqs.Filter(s, IsAllowed)
  {
    if s != [] {
      BlankKeepsAllowed(s[1..]);
    }
  }

  /** Collapsing keeps every allowed character, in order. */
  lemma CollapseKeepsAllowed(s: string)
    ensures Seqs.Filter(CollapseSpaces(s), IsAllowed) == Seqs.Filter(s, IsAllowed)
  {
    CollapseKeepsVisible(s);
    Seqs.FilterFilter(CollapseSpaces(s), NotSpace, IsAllowed);
    Seqs.FilterFilter(s, NotSpace, IsAllowed);
  }

  /** No white space is an allowed character. */
  lemma SpaceIsNotAllowed(c: char)
    requires IsSpace(c)
    ensures !IsAllowed(c)
  {
  }

  lemma SpacesAreNotAllowed(t: string)
    requires AllSpace(t)
    ensures forall i :: 0 <= i < |t| ==> !IsAllowed(t[i])
  {
    forall i | 0 <= i < |t|
      ensures !IsAllowed(t[i])
    {
      SpaceIsNotAllowed(t[i]);
    }
  }

  /** Trimming keeps every allowed character, in order. */
  lemma TrimKeepsAllowed(s: string)
    ensures Seqs.Filter(Trim(s), IsAllowed) == Seqs.Filter(s, IsAllowed)
  {
    var lead, trail := TrimParts(s);
    SpacesAreNotAllowed(lead);
    SpacesAreNotAllowed(trail);
    Seqs.FilterNone(lead, IsAllowed);
    Seqs.FilterNone(trail, IsAllowed);
    Seqs.FilterConcat(lead, Trim(s), IsAllowed);
    Seqs.FilterConcat(lead + Trim(s), trail, IsAllowed);
  }

  /** In text of allowed characters and plain spaces, dropping the spaces and
      keeping the allowed characters are the same. */
  lemma DropBlanksKeepsAllowed(t: string)
    requires AllowedOrBlank(t)
    ensures Seqs.Filter(t, NotBlank) == Seqs.Filter(t, IsAllowed)
  {
    Seqs.FilterAgree(t, NotBlank, IsAllowed);
  }

  /** Removing the spaces from the cleaned text gives exactly the allowed
      characters of the input, in their original order. */
  lemma CleanKeepsAllowedInOrder(s: string)
    ensures Seqs.Filter(CleanMedicalText(s), NotBlank) == Seqs.Filter(s, IsAllowed)
  {
    var a := CollapseSpaces(s);
    var b := BlankDisallowed(a);
    var c := CollapseSpaces(b);
    var r := Trim(c);
    CleanOutputIsClean(s);
    calc {
      Seqs.Filter(r, NotBlank);
      { DropBlanksKeepsAllowed(r); }
      Seqs.Filter(r, IsAllowed);
      { TrimKeepsAllowed(c); }
      Seqs.Filter(c, IsAllowed);
      { CollapseKeepsAllowed(b); }
      Seqs.Filter(b, IsAllowed);
      { BlankKeepsAllowed(a); }
      Seqs.Filter(a, IsAllowed);
      { CollapseKeepsAllowed(s); }
      Seqs.Filter(s, IsAllowed);
    }
  }

  /** After a lone space, trimming the start removes exactly that space. */
  lemma TrimStartLoneSpace(t: string)
    requires SingleSpaced(t) && |t| > 0 && IsSpace(t[0])
    ensures TrimStart(t) == t[1..]
  {
    assert t[1..] == [] || !IsSpace(t[1..][0]);
  }

  /** Collapsing text that is already single-spaced changes nothing. */
  lemma {:induction false} CollapseFixesSingleSpaced(t: string)
    requires SingleSpaced(t)
    ensures CollapseSpaces(t) == t
  {
    if t != [] {
      assert SingleSpaced(t[1..]);
      CollapseFixesSingleSpaced(t[1..]);
      if IsSpace(t[0]) {
        TrimStartLoneSpace(t);
      }
      assert [t[0]] + t[1..] == t;
    }
  }

  /** Text in the clean shape is left alone by cleaning. */
  lemma {:induction false} CleanFixesCleanText(t: string)
    requires IsCleanText(t)
    ensures CleanMedicalText(t) == t
  {
    assert forall i :: 0 <= i < |t| ==> (IsSpace(t[i]) <==> t[i] == ' ');
    CollapseFixesSingleSpaced(t);
    BlankFixesAllowed(t);
    TrimNoop(t);
  }

  lemma {:induction false} BlankFixesAllowed(t: string)
    requires forall i :: 0 <= i < |t| ==> IsAllowed(t[i]) || t[i] == ' '
    ensures BlankDisallowed(t) == t
  {
    if t != [] {
      BlankFixesAllowed(t[1..]);
      assert [t[0]] + t[1..] == t;
    }
  }

  /** Cleaning twice is cleaning once. */
  lemma CleanIdempotent(s: string)
    ensures CleanMedicalText(CleanMedicalText(s)) == CleanMedicalText(s)
  {
    CleanOutputIsClean(s);
    CleanFixesCleanText(CleanMedicalText(s));
  }

  // ---------------------------------------------------------------------------
  // Medical-content heuristic
  // ---------------------------------------------------------------------------

  /** The 26 keywords the heuristic looks for, in the source's order. */
  const MedicalKeywords: seq<string> := [
    "test", "result", "normal", "abnormal", "level", "mg", "ml", "mmol",
    "blood", "urine", "glucose", "cholesterol", "hemoglobin", "patient",
    "doctor", "hospital", "clinic", "laboratory", "report", "date",
    "reference", "range", "high", "low", "positive", "negative"
  ]

  /** How many of the keywords `ks` occur in `text`. */
  function CountFound(text: string, ks: seq<string>): (n: nat)
    ensures n <= |ks|
  {
    if ks == [] then 0 else (if Contains(text, ks[0]) then 1 else 0) + CountFound(text, ks[1..])
  }

  /** `validateMedicalText`: at least two keywords occur in the lower-cased text. */
  predicate ValidateMedicalText(text: string)
  {
    CountFound(ToLower(text), MedicalKeywords) >= 2
  }

  lemma {:induction false} CountAtLeastOne(t: string, ks: seq<string>)
    ensures CountFound(t, ks) >= 1 <==> exists i :: 0 <= i < |ks| && Contains(t, ks[i])
  {
    if ks != [] {
      CountAtLeastOne(t, ks[1..]);
      if exists i :: 0 <= i < |ks| && Contains(t, ks[i]) {
        var i :| 0 <= i < |ks| && Contains(t, ks[i]);
        if i > 0 {
          assert ks[1..][i - 1] == ks[i];
        }
      }
      if CountFound(t, ks[1..]) >= 1 {
        var i :| 0 <= i < |ks[1..]| && Contains(t, ks[1..][i]);
        assert ks[i + 1] == ks[1..][i];
      }
    }
  }

  /** The count reaches two exactly when two different keywords occur. */
  lemma {:induction false} CountAtLeastTwo(t: string, ks: seq<string>)
    ensures CountFound(t, ks) >= 2 <==>
            exists i, j :: 0 <= i < j < |ks| && Contains(t, ks[i]) && Contains(t, ks[j])
  {
    if ks != [] {
      var rest := ks[1..];
      CountAtLeastTwo(t, rest);
      CountAtLeastOne(t, rest);
      if CountFound(t, ks) >= 2 {
        if Contains(t, ks[0]) {
          var j :| 0 <= j < |rest| && Contains(t, rest[j]);
          assert Contains(t, ks[0]) && Contains(t, ks[j + 1]);
        } else {
          var i, j :| 0 <= i < j < |rest| && Contains(t, rest[i]) && Contains(t, rest[j]);
          assert Contains(t, ks[i + 1]) && Contains(t, ks[j + 1]);
        }
      }
      if exists i, j :: 0 <= i < j < |ks| && Contains(t, ks[i]) && Contains(t, ks[j]) {
        var i, j :| 0 <= i < j < |ks| && Contains(t, ks[i]) && Contains(t, ks[j]);
        assert rest[j - 1] == ks[j];
        if i > 0 {
          assert rest[i - 1] == ks[i];
        }
      }
    }
  }

  /** The heuristic holds exactly when two different listed keywords occur in
      the lower-cased text. */
  lemma ValidateIffTwoKeywords(text: string)
    ensures ValidateMedicalText(text) <==>
            exists i, j :: 0 <= i < j < |MedicalKeywords| &&
              Contains(ToLower(text), MedicalKeywords[i]) && Contains(ToLower(text), MedicalKeywords[j])
  {
    CountAtLeastTwo(ToLower(text), MedicalKeywords);
  }

  /** Any text containing "abnormal" passes, even with no other keyword,
      because "abnormal" also contains "normal". */
  lemma AbnormalAlonePasses(text: string)
    requires Contains(ToLower(text), "abnormal")
    ensures ValidateMedicalText(text)
  {
    var t := ToLower(text);
    assert Contains(t, "normal") by {
      var i :| 0 <= i <= |t| && OccursAt(t, "abnormal", i);
      assert t[i + 2..i + 8] == t[i..i + 8][2..8];
      assert OccursAt(t, "normal", i + 2);
    }
    assert MedicalKeywords[2] == "normal" && MedicalKeywords[3] == "abnormal";
    TwoKeywordsValidate(text, 2, 3);
  }

  /** Two distinct keywords in the text are enough. */
  lemma TwoKeywordsValidate(text: string, i: nat, j: nat)
    requires i < j < |MedicalKeywords|
    requires Contains(ToLower(text), MedicalKeywords[i]) && Contains(ToLower(text), MedicalKeywords[j])
    ensures ValidateMedicalText(text)
  {
    ValidateIffTwoKeywords(text);
  }

  /** Only the lower-cased text matters. */
  lemma ValidateIgnoresCase(text: string)
    ensures ValidateMedicalText(ToLower(text)) == ValidateMedicalText(text)
  {
    ToLowerIdempotent(text);
  }

  lemma {:induction false} CountMonotone(t: string, u: string, ks: seq<string>)
    ensures CountFound(t + u, ks) >= CountFound(t, ks)
  {
    if ks != [] {
      CountMonotone(t, u, ks[1..]);
      if Contains(t, ks[0]) {
        ContainsAppend(t, u, ks[0]);
      }
    }
  }

  /** Appending more text never turns a pass into a failure. */
  lemma ValidateAppend(text: string, more: string)
    requires ValidateMedicalText(text)
    ensures ValidateMedicalText(text + more)
  {
    ToLowerAppend(text, more);
    CountMonotone(ToLower(text), ToLower(more), MedicalKeywords);
  }
}
