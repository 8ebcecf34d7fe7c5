/** Cleaning of the model's text output before it is decoded (clean_ai_response) and
    the check that the decoded value is an object (parse_ai_json). */
module AiUtils {
  import opened JsonValues
  import opened PyStrings

  const Fence := "```"
  const JsonTag := "json"

  /** str.split(sep) for a non-empty separator: the pieces between non-overlapping
      occurrences, found from left to right. */
  function SplitOn(s: string, sep: string): (r: seq<string>)
    requires sep != []
    ensures |r| >= 1
    ensures Find(s, sep).None? ==> r == [s]
    ensures Find(s, sep).Some? ==> |r| >= 2 && r[0] == s[..Find(s, sep).value]
    decreases |s|
  {
    match Find(s, sep)
    case None => [s]
    case Some(j) => [s[..j]] + SplitOn(s[j + |sep|..], sep)
  }

  /** str.replace(pat, repl, 1): the first occurrence replaced. */
  function ReplaceFirst(s: string, pat: string, repl: string): (r: string)
    ensures Find(s, pat).None? ==> r == s
    ensures Find(s, pat).Some? ==> r == s[..Find(s, pat).value] + repl + s[Find(s, pat).value + |pat|..]
  {
    match Find(s, pat)
    case None => s
    case Some(j) => s[..j] + repl + s[j + |pat|..]
  }

  const CleaningError := HttpError(500, "Error cleaning AI response.")

  /** clean_ai_response(text): strip; after a leading fence keep the text up to the next
      fence, stripped; then drop one leading "json" tag and strip again. The error branch
      stands for the IndexError the split could raise; CleanNeverFails shows it is never
      taken. */
  function CleanAiResponse(text: string): (r: Result<string>)
    ensures r.Ok? ==> NoEdgeSpace(r.value)
  {
    var t := Strip(text);
    var fenced :=
      if StartsWith(t, Fence) then
        var pieces := SplitOn(t, Fence);
        if |pieces| > 1 then Ok(Strip(pieces[1])) else Err(CleaningError)
      else Ok(t);
    match fenced
    case Err(f) => Err(f)
    case Ok(u) => if StartsWith(u, JsonTag) then Ok(Strip(ReplaceFirst(u, JsonTag, ""))) else Ok(u)
  }

  /** The text between a leading fence and the next fence, or the end of the text. */
  function FenceBody(t: string): (r: string)
    requires StartsWith(t, Fence)
  {
    var u := t[|Fence|..];
    match Find(u, Fence)
    case None => u
    case Some(j) => u[..j]
  }

  /** The split after a leading fence always has a second piece, and that piece is the
      text up to the next fence. */
  lemma FenceSplit(t: string)
    requires StartsWith(t, Fence)
    ensures |SplitOn(t, Fence)| >= 2 && SplitOn(t, Fence)[1] == FenceBody(t)
  {
    assert Find(t, Fence) == Some(0);
    assert SplitOn(t, Fence) == [t[..0]] + SplitOn(t[|Fence|..], Fence);
  }

  /** On a string, clean_ai_response never raises. */
  lemma CleanNeverFails(text: string)
    ensures CleanAiResponse(text).Ok?
  {
    var t := Strip(text);
    if StartsWith(t, Fence) {
      FenceSplit(t);
    }
  }

  /** A leading "json" is the first occurrence, so replacing it drops the first four
      characters. */
  lemma ReplaceLeadingTag(u: string)
    requires StartsWith(u, JsonTag)
    ensures ReplaceFirst(u, JsonTag, "") == u[|JsonTag|..]
  {
    assert Find(u, JsonTag) == Some(0);
    assert u[..0] + "" + u[|JsonTag|..] == u[|JsonTag|..];
  }

  /** Text without a leading fence or "json" tag comes back just stripped; in particular
      a stripped text that starts with "{". */
  lemma CleanPlainText(text: string)
    requires !StartsWith(Strip(text), Fence) && !StartsWith(Strip(text), JsonTag)
    ensures CleanAiResponse(text) == Ok(Strip(text))
  {
    var t := Strip(text);
    assert CleanAiResponse(text).Ok? && CleanAiResponse(text).value == t;
  }

  lemma CleanObjectText(text: string)
    requires Strip(text) != [] && Strip(text)[0] == '{'
    ensures CleanAiResponse(text) == Ok(Strip(text))
  {
    var t := Strip(text);
    assert !StartsWith(t, Fence) by {
      if |t| >= |Fence| { assert t[..|Fence|][0] == '{' != Fence[0]; }
    }
    assert !StartsWith(t, JsonTag) by {
      if |t| >= |JsonTag| { assert t[..|JsonTag|][0] == '{' != JsonTag[0]; }
    }
    CleanPlainText(text);
  }

  /** After a leading fence the result is the stripped text up to the next fence, with a
      "json" tag removed once. */
  lemma CleanFencedText(text: string)
    requires StartsWith(Strip(text), Fence)
    ensures var body := Strip(FenceBody(Strip(text)));
      CleanAiResponse(text) == Ok(if StartsWith(body, JsonTag) then Strip(body[|JsonTag|..]) else body)
  {
    var body := Strip(FenceBody(Strip(text)));
    FenceSplit(Strip(text));
    if StartsWith(body, JsonTag) {
      ReplaceLeadingTag(body);
    }
  }

  /** Without a fence, a leading "json" tag is removed exactly once. */
  lemma CleanTaggedText(text: string)
    requires !StartsWith(Strip(text), Fence) && StartsWith(Strip(text), JsonTag)
    ensures CleanAiResponse(text) == Ok(Strip(Strip(text)[|JsonTag|..]))
  {
    ReplaceLeadingTag(Strip(text));
  }

  /** "json json x" becomes "json x": only the first tag goes. */
  lemma TagRemovedOnce()
    ensures CleanAiResponse("json json x") == Ok("json x")
  {
    assert "json json x" == JsonTag + " " + "json x";
    TaggedText("json x");
  }

  /** A "json" tag, a space, and a text: the text is what remains. */
  lemma TaggedText(rest: string)
    requires rest != [] && NoEdgeSpace(rest)
    ensures CleanAiResponse(JsonTag + " " + rest) == Ok(rest)
  {
    var t := JsonTag + " " + rest;
    assert NoEdgeSpace(t) by { assert t[0] == 'j' && t[|t| - 1] == rest[|rest| - 1]; }
    assert StartsWith(t, JsonTag) by { assert t[..4] == JsonTag; }
    assert !StartsWith(t, Fence) by { assert t[..3][0] == 'j'; }
    assert Strip(t[|JsonTag|..]) == rest by {
      assert t[|JsonTag|..] == " " + rest + [];
      StripPadded(" ", rest, []);
    }
    CleanTaggedRest(t, rest);
  }

  /** A stripped text that starts with the tag loses the tag and the whitespace after it. */
  lemma CleanTaggedRest(t: string, rest: string)
    requires NoEdgeSpace(t) && !StartsWith(t, Fence) && StartsWith(t, JsonTag)
    requires Strip(t[|JsonTag|..]) == rest
    ensures CleanAiResponse(t) == Ok(rest)
  {
    assert Strip(t) == t;
    CleanTaggedText(t);
  }

  /** A fenced, tagged object: "```json\n{}\n```" becomes "{}". */
  lemma FencedExample()
    ensures CleanAiResponse("```json\n{}\n```") == Ok("{}")
  {
    assert "```json\n{}\n```" == Fence + (JsonTag + "\n" + "{}" + "\n") + Fence;
    FencedObject("{}");
  }

  /** Between two fences, a text without backquotes is the fence body. */
  lemma FenceBodyOf(inner: string)
    requires '`' !in inner
    ensures StartsWith(Fence + inner + Fence, Fence) && FenceBody(Fence + inner + Fence) == inner
  {
    var t := Fence + inner + Fence;
    assert t[..3] == Fence;
    var u := t[|Fence|..];
    assert u == inner + Fence;
    forall j | 0 <= j < |inner| ensures !OccursAt(u, Fence, j) {
      assert u[j] == inner[j];
    }
    assert OccursAt(u, Fence, |inner|);
    FirstOccurrence(u, Fence, |inner|);
  }

  lemma TagLineHasNoBackquote(body: string)
    requires '`' !in body
    ensures '`' !in JsonTag + "\n" + body + "\n"
  {
    var inner := JsonTag + "\n" + body + "\n";
    forall j | 0 <= j < |inner| ensures inner[j] != '`' {
      if 5 <= j < 5 + |body| {
        assert inner[j] == body[j - 5];
      }
    }
  }

  /** A fence, a "json" tag and a line break, a text without backquotes, a line break and
      a closing fence: the text is what remains. */
  lemma FencedObject(body: string)
    requires body != [] && NoEdgeSpace(body) && '`' !in body
    ensures CleanAiResponse(Fence + (JsonTag + "\n" + body + "\n") + Fence) == Ok(body)
  {
    var stripped := JsonTag + "\n" + body;
    var inner := stripped + "\n";
    assert stripped[..4] == JsonTag;
    assert stripped[|JsonTag|..] == "\n" + body + [];
    assert [] + stripped + "\n" == inner;
    assert NoEdgeSpace(stripped) by {
      assert stripped[0] == 'j' && stripped[|stripped| - 1] == body[|body| - 1];
    }
    assert AllSpace("\n");
    TagLineHasNoBackquote(body);
    StripPadded([], stripped, "\n");
    StripPadded("\n", body, []);
    FencedClean(inner);
  }

  /** Between two fences, a text without backquotes: the result is that text stripped,
      with a "json" tag removed once. */
  lemma FencedClean(inner: string)
    requires '`' !in inner
    ensures var body := Strip(inner);
      CleanAiResponse(Fence + inner + Fence) == Ok(if StartsWith(body, JsonTag) then Strip(body[|JsonTag|..]) else body)
  {
    var t := Fence + inner + Fence;
    assert [] + t + [] == t;
    assert NoEdgeSpace(t) by { assert t[0] == '`' && t[|t| - 1] == '`'; }
    StripPadded([], t, []);
    FenceBodyOf(inner);
    CleanFencedText(t);
  }

  /** Find returns a position where the pattern occurs and before which it does not. */
  lemma FirstOccurrence(s: string, pat: string, j: nat)
    requires OccursAt(s, pat, j)
    requires forall i :: 0 <= i < j ==> !OccursAt(s, pat, i)
    ensures Find(s, pat) == Some(j)
  {
  }

  const InvalidJsonError := HttpError(500, "AI returned invalid JSON output.")
  const ParsingError := HttpError(500, "Error parsing AI JSON.")
  const NotObjectError := HttpError(500, "AI returned JSON, but it must be an object.")

  /** Lines 28-41 of parse_ai_json on the cleaned text, as written: decode, and accept only
      an object. The HTTPException raised for a non-object is caught by the handler for any
      exception and replaced, so its own detail never reaches the caller. */
  function DecodeObject(cleaned: string, decode: string -> Option<Json>): (r: Result<Dict>)
    ensures r.Ok? <==> decode(cleaned).Some? && decode(cleaned).value.JObject?
    ensures r.Ok? ==> decode(cleaned) == Some(JObject(r.value))
    ensures decode(cleaned).None? ==> r == Err(InvalidJsonError)
    ensures r.Err? ==> r.failure.HttpError? && r.failure.status == 500
  {
    match decode(cleaned)
    case None => Err(InvalidJsonError)
    case Some(JObject(m)) => Ok(m)
    case Some(_) => Err(ParsingError)
  }

  /** The same lines as evidently intended: a non-object is reported with its own detail. */
  function DecodeObjectIntended(cleaned: string, decode: string -> Option<Json>): (r: Result<Dict>)
    ensures r.Ok? <==> decode(cleaned).Some? && decode(cleaned).value.JObject?
    ensures r.Ok? ==> decode(cleaned) == Some(JObject(r.value))
    ensures decode(cleaned).None? ==> r == Err(InvalidJsonError)
    ensures r == Err(NotObjectError) <==> decode(cleaned).Some? && !decode(cleaned).value.JObject?
    ensures r.Err? ==> r.failure.HttpError? && r.failure.status == 500
  {
    match decode(cleaned)
    case None => Err(InvalidJsonError)
    case Some(JObject(m)) => Ok(m)
    case Some(_) => Err(NotObjectError)
  }

  /** parse_ai_json(text) as written: clean, then decode and accept only an object. */
  function ParseAiJson(text: string, decode: string -> Option<Json>): (r: Result<Dict>)
    ensures r.Ok? ==> CleanAiResponse(text).Ok? && decode(CleanAiResponse(text).value) == Some(JObject(r.value))
    ensures r.Err? ==> r.failure.HttpError? && r.failure.status == 500
  {
    match CleanAiResponse(text)
    case Err(_) => Err(ParsingError)
    case Ok(cleaned) => DecodeObject(cleaned, decode)
  }

  /** The evidently intended parse_ai_json. */
  function ParseAiJsonIntended(text: string, decode: string -> Option<Json>): (r: Result<Dict>)
    ensures r.Ok? ==> CleanAiResponse(text).Ok? && decode(CleanAiResponse(text).value) == Some(JObject(r.value))
    ensures r.Err? ==> r.failure.HttpError? && r.failure.status == 500
  {
    match CleanAiResponse(text)
    case Err(_) => Err(ParsingError)
    case Ok(cleaned) => DecodeObjectIntended(cleaned, decode)
  }

  /** Both versions decode the cleaned text, since cleaning never fails. */
  lemma ParsesCleanedText(text: string, decode: string -> Option<Json>)
    ensures CleanAiResponse(text).Ok?
    ensures ParseAiJson(text, decode) == DecodeObject(CleanAiResponse(text).value, decode)
    ensures ParseAiJsonIntended(text, decode) == DecodeObjectIntended(CleanAiResponse(text).value, decode)
  {
    CleanNeverFails(text);
  }

  /** The two versions of the decoding step accept the same objects; as written, every
      decoded non-object is reported with the generic detail. */
  lemma DecodeObjectOutcomes(cleaned: string, decode: string -> Option<Json>)
    ensures DecodeObjectIntended(cleaned, decode).Ok? <==> DecodeObject(cleaned, decode).Ok?
    ensures DecodeObjectIntended(cleaned, decode).Ok? ==> DecodeObjectIntended(cleaned, decode).value == DecodeObject(cleaned, decode).value
    ensures DecodeObject(cleaned, decode).Err? && decode(cleaned).Some? ==> DecodeObject(cleaned, decode).failure == ParsingError
  {
  }

  /** parse_ai_json returns exactly the decoded objects; undecodable text and any other
      decoded value are rejected with status 500. */
  lemma ParseAiJsonOutcomes(text: string, decode: string -> Option<Json>)
    ensures CleanAiResponse(text).Ok?
    ensures var cleaned := CleanAiResponse(text).value;
      && (ParseAiJson(text, decode).Ok? <==> decode(cleaned).Some? && decode(cleaned).value.JObject?)
      && (ParseAiJson(text, decode).Ok? ==> decode(cleaned) == Some(JObject(ParseAiJson(text, decode).value)))
      && (decode(cleaned).None? ==> ParseAiJson(text, decode).Err? && ParseAiJson(text, decode).failure == InvalidJsonError)
      && (ParseAiJson(text, decode).Err? ==> ParseAiJson(text, decode).failure.status == 500)
  {
    ParsesCleanedText(text, decode);
    DecodeObjectOutcomes(CleanAiResponse(text).value, decode);
  }

  /** As written, a decoded non-object is reported as "Error parsing AI JSON.", not
      with the detail raised for it. */
  lemma NonObjectDetailLost(text: string, decode: string -> Option<Json>)
    requires CleanAiResponse(text).Ok? && decode(CleanAiResponse(text).value) == Some(JArray([]))
    ensures ParseAiJson(text, decode).Err? && ParseAiJson(text, decode).failure == ParsingError
    ensures ParseAiJsonIntended(text, decode).Err? && ParseAiJsonIntended(text, decode).failure == NotObjectError
    ensures ParsingError != NotObjectError
  {
    ParsesCleanedText(text, decode);
  }

  /** The intended version differs from the written one only in that detail. */
  lemma IntendedAgreesOtherwise(text: string, decode: string -> Option<Json>)
    ensures CleanAiResponse(text).Ok?
    ensures ParseAiJsonIntended(text, decode).Ok? <==> ParseAiJson(text, decode).Ok?
    ensures ParseAiJsonIntended(text, decode).Ok? ==> ParseAiJsonIntended(text, decode).value == ParseAiJson(text, decode).value
    ensures ParseAiJsonIntended(text, decode).Err? ==> ParseAiJsonIntended(text, decode).failure.status == 500
    ensures ParseAiJsonIntended(text, decode).Err? && ParseAiJsonIntended(text, decode).failure == NotObjectError <==>
      decode(CleanAiResponse(text).value).Some? && !decode(CleanAiResponse(text).value).value.JObject?
  {
    ParsesCleanedText(text, decode);
    DecodeObjectOutcomes(CleanAiResponse(text).value, decode);
  }
}
