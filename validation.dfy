/** Request-payload checks and the in-place clean-up of a decoded work-item tree:
    project type, JSON shape, the tech-stack list, priorities, and release/sprint names. */
module ValidationUtils {
  import opened JsonValues
  import opened PyStrings
  import Models

  // ---- project type ----

  const ProjectTypeError := HttpError(400, "project_type must be 'Scrum' or 'Kanban'.")

  /** Accepts exactly the two supported methodologies. */
  function ValidateProjectType(projectType: string): (r: Result<()>)
    ensures r.Ok? <==> projectType in {"Scrum", "Kanban"}
    ensures r.Err? ==> r.failure == ProjectTypeError
  {
    if projectType == "Scrum" || projectType == "Kanban" then Ok(()) else Err(ProjectTypeError)
  }

  // ---- JSON shape ----

  const InvalidJsonError := HttpError(400, "Invalid JSON. Must be a valid JSON string.")
  const ShapeError := HttpError(400, "JSON must be an object (dictionary) or array.")

  /** The shape normalisation: a list becomes `{"tasks": list}`, an object stays as it
      is, anything else is rejected. */
  function NormalizeShape(data: Json): (r: Result<Dict>)
    ensures data.JArray? ==> r == Ok(map["tasks" := data])
    ensures data.JObject? ==> r == Ok(data.fields)
    ensures !data.JArray? && !data.JObject? ==> r == Err(ShapeError)
  {
    match data
    case JArray(_) => Ok(map["tasks" := data])
    case JObject(m) => Ok(m)
    case _ => Err(ShapeError)
  }

  /** validate_json_string, with json.loads given as `decode` (None where it raises). */
  function ValidateJsonString(jsonStr: string, decode: string -> Option<Json>): (r: Result<Dict>)
    ensures decode(jsonStr).None? ==> r == Err(InvalidJsonError)
    ensures decode(jsonStr).Some? ==> r == NormalizeShape(decode(jsonStr).value)
  {
    match decode(jsonStr)
    case None => Err(InvalidJsonError)
    case Some(data) => NormalizeShape(data)
  }

  /** Normalising an already normalised payload changes nothing. */
  lemma NormalizeShapeIdempotent(data: Json)
    requires NormalizeShape(data).Ok?
    ensures NormalizeShape(JObject(NormalizeShape(data).value)) == NormalizeShape(data)
  {
  }

  /** Every accepted payload is a dict; the only rejections are undecodable text and a
      decoded scalar, both with status 400. */
  lemma ValidateJsonStringOutcomes(jsonStr: string, decode: string -> Option<Json>)
    ensures ValidateJsonString(jsonStr, decode).Err? <==>
      (decode(jsonStr).None? || !(decode(jsonStr).value.JArray? || decode(jsonStr).value.JObject?))
    ensures ValidateJsonString(jsonStr, decode).Err? ==> ValidateJsonString(jsonStr, decode).failure.status == 400
  {
  }

  // ---- tech stack ----

  const TechStackError := HttpError(400, "tech_stack must be comma-separated string.")

  /** `[t.strip() for t in pieces if t.strip()]` */
  function StrippedNonEmpty(pieces: seq<string>): (r: seq<string>)
    ensures forall k :: 0 <= k < |r| ==> r[k] != [] && NoEdgeSpace(r[k])
    ensures |r| <= |pieces|
  {
    if pieces == [] then []
    else
      var t := Strip(pieces[0]);
      var rest := StrippedNonEmpty(pieces[1..]);
      if t != [] then
        CleanCons(t, rest);
        [t] + rest
      else rest
  }

  lemma CleanCons(t: string, rest: seq<string>)
    requires t != [] && NoEdgeSpace(t)
    requires forall k :: 0 <= k < |rest| ==> rest[k] != [] && NoEdgeSpace(rest[k])
    ensures forall k :: 0 <= k < |[t] + rest| ==> ([t] + rest)[k] != [] && NoEdgeSpace(([t] + rest)[k])
  {
    forall k | 0 <= k < |[t] + rest| ensures ([t] + rest)[k] != [] && NoEdgeSpace(([t] + rest)[k]) {
      if k > 0 { assert ([t] + rest)[k] == rest[k - 1]; }
    }
  }

  /** parse_tech_stack: a falsy value (None, "") gives [], another non-string is
      rejected, and a string gives its comma-separated pieces, stripped, without the
      empty ones. */
  function ParseTechStack(techStack: Json): (r: Result<seq<string>>)
    ensures !Truthy(techStack) ==> r == Ok([])
    ensures Truthy(techStack) && !techStack.JString? ==> r == Err(TechStackError)
    ensures r.Ok? ==> forall k :: 0 <= k < |r.value| ==> r.value[k] != [] && NoEdgeSpace(r.value[k]) && ',' !in r.value[k]
  {
    if !Truthy(techStack) then Ok([])
    else if !techStack.JString? then Err(TechStackError)
    else
      var r := StrippedNonEmpty(Split(techStack.s, ','));
      StrippedNonEmptyFrom(Split(techStack.s, ','));
      Ok(r)
  }

  /** Each kept element is the strip of a piece, so it holds no comma when no piece does. */
  lemma {:induction false} StrippedNonEmptyFrom(pieces: seq<string>)
    requires forall k :: 0 <= k < |pieces| ==> ',' !in pieces[k]
    ensures forall k :: 0 <= k < |StrippedNonEmpty(pieces)| ==> ',' !in StrippedNonEmpty(pieces)[k]
  {
    if pieces != [] {
      var t := Strip(pieces[0]);
      var rest := StrippedNonEmpty(pieces[1..]);
      StrippedNonEmptyFrom(pieces[1..]);
      StripKeepsOut(pieces[0], ',');
      if t != [] {
        assert StrippedNonEmpty(pieces) == [t] + rest;
        CommaFreeCons(t, rest);
      } else {
        assert StrippedNonEmpty(pieces) == rest;
      }
    }
  }

  lemma CommaFreeCons(t: string, rest: seq<string>)
    requires ',' !in t && forall k :: 0 <= k < |rest| ==> ',' !in rest[k]
    ensures forall k :: 0 <= k < |[t] + rest| ==> ',' !in ([t] + rest)[k]
  {
    forall k | 0 <= k < |[t] + rest| ensures ',' !in ([t] + rest)[k] {
      if k > 0 { assert ([t] + rest)[k] == rest[k - 1]; }
    }
  }

  /** Strip introduces no character. */
  lemma StripKeepsOut(s: string, c: char)
    requires c !in s
    ensures c !in Strip(s)
  {
    var l := LStrip(s);
    assert forall x :: x in l ==> x in s;
    assert forall x :: x in RStrip(l) ==> x in l;
  }

  /** The comprehension keeps the order of the pieces: it distributes over concatenation. */
  lemma {:induction false} StrippedNonEmptyAppend(a: seq<string>, b: seq<string>)
    ensures StrippedNonEmpty(a + b) == StrippedNonEmpty(a) + StrippedNonEmpty(b)
  {
    if a == [] {
      assert a + b == b;
    } else {
      var x, a' := a[0], a[1..];
      var h := Kept(Strip(x));
      assert a == [x] + a';
      assert a + b == [x] + (a' + b);
      StrippedNonEmptyCons(x, a' + b);
      StrippedNonEmptyCons(x, a');
      StrippedNonEmptyAppend(a', b);
      ConsAppend(h, StrippedNonEmpty(a'), StrippedNonEmpty(b), StrippedNonEmpty(a' + b),
                 StrippedNonEmpty(a + b), StrippedNonEmpty(a));
    }
  }

  /** Associativity of concatenation, with every sequence held abstract. */
  lemma ConsAppend<T>(h: seq<T>, x: seq<T>, y: seq<T>, xy: seq<T>, hxy: seq<T>, hx: seq<T>)
    requires xy == x + y && hxy == h + xy && hx == h + x
    ensures hxy == hx + y
  {
  }

  lemma StrippedNonEmptyCons(x: string, rest: seq<string>)
    ensures StrippedNonEmpty([x] + rest) == Kept(Strip(x)) + StrippedNonEmpty(rest)
  {
    assert ([x] + rest)[0] == x && ([x] + rest)[1..] == rest;
  }

  /** The piece a stripped string contributes to the comprehension. */
  function Kept(t: string): seq<string>
  {
    if t != [] then [t] else []
  }

  /** Round trip: joining clean names with commas and parsing gives the names back. */
  lemma TechStackRoundTrip(names: seq<string>)
    requires forall k :: 0 <= k < |names| ==> names[k] != [] && NoEdgeSpace(names[k]) && ',' !in names[k]
    ensures ParseTechStack(JString(Join(names, ','))) == Ok(names)
  {
    if names == [] {
    } else {
      SplitJoin(names, ',');
      JoinNonEmpty(names, ',');
      StrippedNonEmptyKeepsClean(names);
    }
  }

  lemma JoinNonEmpty(parts: seq<string>, sep: char)
    requires parts != [] && parts[0] != []
    ensures Join(parts, sep) != []
  {
  }

  lemma {:induction false} StrippedNonEmptyKeepsClean(names: seq<string>)
    requires forall k :: 0 <= k < |names| ==> names[k] != [] && NoEdgeSpace(names[k])
    ensures StrippedNonEmpty(names) == names
  {
    if names != [] {
      StrippedNonEmptyKeepsClean(names[1..]);
    }
  }

  // ---- priorities ----

  /** normalize(value) inside sanitize_priorities. */
  function Normalize(value: Json): (r: string)
    ensures r in Models.Priorities
    ensures !value.JString? ==> r == "None"
  {
    if value.JString? then Accepted(Capitalize(Strip(value.s))) else "None"
  }

  /** `v if v in valid_values else "None"` */
  function Accepted(v: string): (r: string)
    ensures r in Models.Priorities
  {
    if v in Models.Priorities then v else "None"
  }

  /** The four spellings of the priority pattern, matched ignoring case: an independent
      definition of what normalize accepts. */
  function PriorityIgnoringCase(t: string): string
  {
    var l := LowerAll(t);
    if l == "none" then "None"
    else if l == "low" then "Low"
    else if l == "medium" then "Medium"
    else if l == "high" then "High"
    else "None"
  }

  lemma PrioritiesAreWords()
    ensures CapitalizedWord("None") && LowerAll("None") == "none"
    ensures CapitalizedWord("Low") && LowerAll("Low") == "low"
    ensures CapitalizedWord("Medium") && LowerAll("Medium") == "medium"
    ensures CapitalizedWord("High") && LowerAll("High") == "high"
  {
  }

  /** normalize matches the stripped text against the four priorities ignoring case, and
      maps everything else to "None". */
  lemma NormalizeIgnoresCase(s: string)
    ensures Normalize(JString(s)) == PriorityIgnoringCase(Strip(s))
  {
    var t := Strip(s);
    var c := Capitalize(t);
    var l := LowerAll(t);
    PrioritiesAreWords();
    CapitalizeMatchesIgnoringCase(t, "None");
    CapitalizeMatchesIgnoringCase(t, "Low");
    CapitalizeMatchesIgnoringCase(t, "Medium");
    CapitalizeMatchesIgnoringCase(t, "High");
    ChoiceByLowerCase(l, c, "None", "Low", "Medium", "High", "none", "low", "medium", "high");
    assert Normalize(JString(s)) == Accepted(c);
    AcceptedUnfolds(c);
    PriorityIgnoringCaseUnfolds(t);
  }

  lemma AcceptedUnfolds(c: string)
    ensures Accepted(c) == if c in {"None", "Low", "Medium", "High"} then c else "None"
  {
  }

  lemma PriorityIgnoringCaseUnfolds(t: string)
    ensures var l := LowerAll(t);
      PriorityIgnoringCase(t)
      == if l == "none" then "None" else if l == "low" then "Low" else if l == "medium" then "Medium" else if l == "high" then "High" else "None"
  {
  }

  /** The choice among four words that differ ignoring case: picking `c` when it is one of
      them is picking the word whose lower case is `l`. */
  lemma ChoiceByLowerCase(l: string, c: string, w1: string, w2: string, w3: string, w4: string,
                          l1: string, l2: string, l3: string, l4: string)
    requires (c == w1 <==> l == l1) && (c == w2 <==> l == l2) && (c == w3 <==> l == l3) && (c == w4 <==> l == l4)
    requires l1 != l2 && l1 != l3 && l1 != l4 && l2 != l3 && l2 != l4 && l3 != l4
    ensures (if c in {w1, w2, w3, w4} then c else w1)
         == (if l == l1 then w1 else if l == l2 then w2 else if l == l3 then w3 else if l == l4 then w4 else w1)
  {
  }

  /** Each of the four values is its own normalisation, so normalising twice is normalising once. */
  lemma NormalizeFixesPriorities(p: string)
    requires p in Models.Priorities
    ensures Normalize(JString(p)) == p
  {
    PrioritiesAreWords();
    CapitalizeFixesWord(p);
  }

  lemma NormalizeIdempotent(v: Json)
    ensures Normalize(JString(Normalize(v))) == Normalize(v)
  {
    NormalizeFixesPriorities(Normalize(v));
  }

  /** "HIGH" becomes "High"; a number becomes "None". */
  lemma NormalizeUpperCaseExample()
    ensures Normalize(JString("HIGH")) == "High"
    ensures Normalize(JInt(3)) == "None"
  {
    NormalizeOfWord("HIGH", "High");
  }

  /** "urgent" becomes "None". */
  lemma NormalizeUnknownExample()
    ensures Normalize(JString("urgent")) == "None"
  {
    NormalizeOfWord("urgent", "Urgent");
  }

  /** A word without surrounding whitespace normalises to its capitalization when that
      is one of the four priorities, and to "None" otherwise. */
  lemma NormalizeOfWord(s: string, c: string)
    requires s != [] && NoEdgeSpace(s) && Capitalize(s) == c
    ensures Normalize(JString(s)) == if c in Models.Priorities then c else "None"
  {
  }

  /** `d["priority"] = normalize(d.get("priority"))` */
  function WithNormalizedPriority(d: Dict): (r: Dict)
    ensures r.Keys == d.Keys + {"priority"}
    ensures r["priority"].JString? && r["priority"].s in Models.Priorities
    ensures forall k :: k in d && k != "priority" ==> r[k] == d[k]
  {
    d["priority" := JString(Normalize(Get(d, "priority", JNull)))]
  }

  predicate AllObjects(items: seq<Json>)
  {
    forall k :: 0 <= k < |items| ==> items[k].JObject?
  }

  /** The inner loop runs without error: a list-valued `subTasks` holds only dicts. */
  predicate SubTasksSanitizable(task: Dict)
  {
    "subTasks" in task && task["subTasks"].JArray? ==> AllObjects(task["subTasks"].items)
  }

  predicate TaskSanitizable(t: Json)
  {
    t.JObject? && SubTasksSanitizable(t.fields)
  }

  function NormalizedSubTasks(subs: seq<Json>): (r: seq<Json>)
    requires AllObjects(subs)
    ensures |r| == |subs|
  {
    seq(|subs|, k requires 0 <= k < |subs| => JObject(WithNormalizedPriority(subs[k].fields)))
  }

  /** One task after the loop body: its priority normalised, and so is each sub-task's
      when `subTasks` is a list. */
  function SanitizedTask(task: Dict): (r: Dict)
    requires SubTasksSanitizable(task)
  {
    var t := WithNormalizedPriority(task);
    if "subTasks" in t && t["subTasks"].JArray? then t["subTasks" := JArray(NormalizedSubTasks(t["subTasks"].items))]
    else t
  }

  /** sanitize_priorities as a function of the dict: None where the Python code raises
      (a task or listed sub-task that is not a dict). */
  function PrioritiesSanitized(data: Dict): (r: Result<Dict>)
    ensures !("tasks" in data && data["tasks"].JArray?) ==> r == Ok(data)
    ensures r.Err? ==> r.failure == RuntimeError
  {
    if "tasks" in data && data["tasks"].JArray? then
      var ts := data["tasks"].items;
      if forall k :: 0 <= k < |ts| ==> TaskSanitizable(ts[k]) then Ok(data["tasks" := JArray(SanitizedTasks(ts))])
      else Err(RuntimeError)
    else Ok(data)
  }

  /** The task list after the outer loop. */
  function SanitizedTasks(ts: seq<Json>): (r: seq<Json>)
    requires forall k :: 0 <= k < |ts| ==> TaskSanitizable(ts[k])
    ensures |r| == |ts|
  {
    seq(|ts|, k requires 0 <= k < |ts| && TaskSanitizable(ts[k]) => JObject(SanitizedTask(ts[k].fields)))
  }

  /** Every task of a list-valued `tasks`, and every sub-task of its list-valued
      `subTasks`, holds a priority the schema accepts. */
  predicate PrioritiesConform(data: Dict)
  {
    "tasks" in data && data["tasks"].JArray? ==>
      forall k :: 0 <= k < |data["tasks"].items| ==>
        data["tasks"].items[k].JObject? && TaskConforms(data["tasks"].items[k].fields)
  }

  predicate HasSchemaPriority(d: Dict)
  {
    "priority" in d && d["priority"].JString? && d["priority"].s in Models.Priorities
  }

  /** `b` is `a` with at most its `priority` written (added when missing). */
  predicate OnlyPriorityWritten(a: Dict, b: Dict)
  {
    && b.Keys == a.Keys + {"priority"}
    && forall k :: k in a && k != "priority" ==> b[k] == a[k]
  }

  /** `b` is task `a` with its own priority and its sub-tasks' priorities written, nothing
      else: same keys, same values, same sub-task list length and order. */
  predicate TaskOnlyPrioritiesWritten(a: Dict, b: Dict)
  {
    && b.Keys == a.Keys + {"priority"}
    && (forall k :: k in a && k != "priority" && k != "subTasks" ==> b[k] == a[k])
    && ("subTasks" in a ==>
          if a["subTasks"].JArray? then
            && b["subTasks"].JArray?
            && |b["subTasks"].items| == |a["subTasks"].items|
            && forall j :: 0 <= j < |a["subTasks"].items| ==>
                 a["subTasks"].items[j].JObject? && b["subTasks"].items[j].JObject? &&
                 OnlyPriorityWritten(a["subTasks"].items[j].fields, b["subTasks"].items[j].fields)
          else b["subTasks"] == a["subTasks"])
  }

  /** After sanitize_priorities every priority conforms to the schema's pattern. */
  lemma PrioritiesSanitizedConform(data: Dict)
    requires PrioritiesSanitized(data).Ok?
    ensures PrioritiesConform(PrioritiesSanitized(data).value)
  {
    if "tasks" in data && data["tasks"].JArray? {
      var ts := data["tasks"].items;
      var us := SanitizedTasks(ts);
      assert PrioritiesSanitized(data).value == data["tasks" := JArray(us)];
      forall k | 0 <= k < |us|
        ensures us[k].JObject? && TaskConforms(us[k].fields)
      {
        assert us[k] == JObject(SanitizedTask(ts[k].fields));
        SanitizedTaskConforms(ts[k].fields);
      }
    }
  }

  /** A task, and every sub-task of its list-valued `subTasks`, holds a schema priority. */
  predicate TaskConforms(t: Dict)
  {
    HasSchemaPriority(t) &&
    ("subTasks" in t && t["subTasks"].JArray? ==>
      forall j :: 0 <= j < |t["subTasks"].items| ==>
        t["subTasks"].items[j].JObject? && HasSchemaPriority(t["subTasks"].items[j].fields))
  }

  /** The loop body for one task leaves it conforming. */
  lemma SanitizedTaskConforms(task: Dict)
    requires SubTasksSanitizable(task)
    ensures TaskConforms(SanitizedTask(task))
  {
  }

  /** sanitize_priorities writes only `priority` keys: every other top-level key, the
      number and order of tasks and sub-tasks, and every other field stay as they were. */
  lemma PrioritiesSanitizedFrame(data: Dict)
    requires PrioritiesSanitized(data).Ok?
    ensures var out := PrioritiesSanitized(data).value;
      && out.Keys == data.Keys
      && (forall k :: k in data && k != "tasks" ==> out[k] == data[k])
      && ("tasks" in data && data["tasks"].JArray? ==>
            && out["tasks"].JArray?
            && |out["tasks"].items| == |data["tasks"].items|
            && forall k :: 0 <= k < |data["tasks"].items| ==>
                 data["tasks"].items[k].JObject? && out["tasks"].items[k].JObject? &&
                 TaskOnlyPrioritiesWritten(data["tasks"].items[k].fields, out["tasks"].items[k].fields))
  {
    if "tasks" in data && data["tasks"].JArray? {
      var ts := data["tasks"].items;
      assert forall k :: 0 <= k < |ts| ==> TaskSanitizable(ts[k]);
      var out := data["tasks" := JArray(SanitizedTasks(ts))];
      assert PrioritiesSanitized(data).value == out;
      forall k | 0 <= k < |ts|
        ensures ts[k].JObject? && SanitizedTasks(ts)[k] == JObject(SanitizedTask(ts[k].fields))
        ensures TaskOnlyPrioritiesWritten(ts[k].fields, SanitizedTask(ts[k].fields))
      {
        SanitizedTaskFrame(ts[k].fields);
      }
    }
  }

  /** The loop body for one task writes only priorities. */
  lemma SanitizedTaskFrame(task: Dict)
    requires SubTasksSanitizable(task)
    ensures TaskOnlyPrioritiesWritten(task, SanitizedTask(task))
  {
    if "subTasks" in task && task["subTasks"].JArray? {
      SanitizedTaskFrameListed(task);
    } else {
      var t := WithNormalizedPriority(task);
      assert SanitizedTask(task) == t by {
        assert ("subTasks" in t) == ("subTasks" in task);
      }
      assert "subTasks" in task ==> t["subTasks"] == task["subTasks"];
    }
  }

  /** The loop body for a task whose `subTasks` is a list. */
  lemma SanitizedTaskFrameListed(task: Dict)
    requires "subTasks" in task && task["subTasks"].JArray? && AllObjects(task["subTasks"].items)
    ensures TaskOnlyPrioritiesWritten(task, SanitizedTask(task))
  {
    var t := WithNormalizedPriority(task);
    var r := SanitizedTask(task);
    var subs := task["subTasks"].items;
    var ns := NormalizedSubTasks(subs);
    assert r == t["subTasks" := JArray(ns)] by {
      assert t["subTasks"] == task["subTasks"];
    }
    NormalizedSubTasksFrame(subs);
    assert r.Keys == task.Keys + {"priority"};
    assert forall k :: k in task && k != "priority" && k != "subTasks" ==> r[k] == task[k];
    assert r["subTasks"] == JArray(ns);
  }

  /** The inner loop writes only the sub-tasks' priorities. */
  lemma NormalizedSubTasksFrame(subs: seq<Json>)
    requires AllObjects(subs)
    ensures forall j :: 0 <= j < |subs| ==>
      NormalizedSubTasks(subs)[j].JObject? && OnlyPriorityWritten(subs[j].fields, NormalizedSubTasks(subs)[j].fields)
  {
    var ns := NormalizedSubTasks(subs);
    forall j | 0 <= j < |subs|
      ensures ns[j].JObject? && OnlyPriorityWritten(subs[j].fields, ns[j].fields)
    {
      assert ns[j] == JObject(WithNormalizedPriority(subs[j].fields));
    }
  }

  /** sanitize_priorities fails exactly when a task, or a sub-task in a list-valued
      `subTasks`, is not a dict. */
  lemma PrioritiesSanitizedFails(data: Dict)
    ensures PrioritiesSanitized(data).Err? <==>
      "tasks" in data && data["tasks"].JArray? &&
      exists k :: 0 <= k < |data["tasks"].items| && !TaskSanitizable(data["tasks"].items[k])
  {
  }

  lemma NormalizedSubTasksIdempotent(subs: seq<Json>)
    requires AllObjects(subs)
    ensures AllObjects(NormalizedSubTasks(subs))
    ensures NormalizedSubTasks(NormalizedSubTasks(subs)) == NormalizedSubTasks(subs)
  {
    var once := NormalizedSubTasks(subs);
    forall k | 0 <= k < |subs|
      ensures WithNormalizedPriority(once[k].fields) == once[k].fields
    {
      NormalizeIdempotent(Get(subs[k].fields, "priority", JNull));
    }
  }

  /** A dict whose priority already conforms is left as it is by the normalisation. */
  lemma NormalizedPriorityFixed(d: Dict)
    requires HasSchemaPriority(d)
    ensures WithNormalizedPriority(d) == d
  {
    NormalizeFixesPriorities(d["priority"].s);
    assert d["priority" := d["priority"]] == d;
  }

  lemma SanitizedTaskIdempotent(task: Dict)
    requires SubTasksSanitizable(task)
    ensures SubTasksSanitizable(SanitizedTask(task))
    ensures SanitizedTask(SanitizedTask(task)) == SanitizedTask(task)
  {
    var t := WithNormalizedPriority(task);
    assert HasSchemaPriority(t);
    if "subTasks" in t && t["subTasks"].JArray? {
      assert SubTasksSanitizable(t);
      ListedSubTasksFixed(t);
    } else {
      NormalizedPriorityFixed(t);
    }
  }

  /** A task whose priority conforms, once its listed sub-tasks are normalised, is left
      as it is by a second pass. */
  lemma ListedSubTasksFixed(t: Dict)
    requires HasSchemaPriority(t) && "subTasks" in t && t["subTasks"].JArray? && AllObjects(t["subTasks"].items)
    ensures var once := t["subTasks" := JArray(NormalizedSubTasks(t["subTasks"].items))];
      SubTasksSanitizable(once) && SanitizedTask(once) == once
  {
    var ns := NormalizedSubTasks(t["subTasks"].items);
    var once := t["subTasks" := JArray(ns)];
    NormalizedSubTasksIdempotent(t["subTasks"].items);
    assert once["subTasks"] == JArray(ns);
    assert HasSchemaPriority(once) by { assert once["priority"] == t["priority"]; }
    SanitizedTaskListed(once);
    assert once["subTasks" := JArray(ns)] == once;
  }

  /** With a conforming priority, the loop body only rewrites the listed sub-tasks. */
  lemma SanitizedTaskListed(d: Dict)
    requires HasSchemaPriority(d) && "subTasks" in d && d["subTasks"].JArray? && AllObjects(d["subTasks"].items)
    ensures SubTasksSanitizable(d)
    ensures SanitizedTask(d) == d["subTasks" := JArray(NormalizedSubTasks(d["subTasks"].items))]
  {
    NormalizedPriorityFixed(d);
  }

  lemma SanitizedTasksIdempotent(ts: seq<Json>)
    requires forall k :: 0 <= k < |ts| ==> TaskSanitizable(ts[k])
    ensures forall k :: 0 <= k < |ts| ==> TaskSanitizable(SanitizedTasks(ts)[k])
    ensures SanitizedTasks(SanitizedTasks(ts)) == SanitizedTasks(ts)
  {
    var us := SanitizedTasks(ts);
    forall k | 0 <= k < |ts|
      ensures TaskSanitizable(us[k]) && JObject(SanitizedTask(us[k].fields)) == us[k]
    {
      SanitizedTaskIdempotent(ts[k].fields);
    }
  }

  /** sanitize_priorities is idempotent. */
  lemma PrioritiesSanitizedIdempotent(data: Dict)
    requires PrioritiesSanitized(data).Ok?
    ensures PrioritiesSanitized(PrioritiesSanitized(data).value) == PrioritiesSanitized(data)
  {
    if "tasks" in data && data["tasks"].JArray? {
      var ts := data["tasks"].items;
      var once := PrioritiesSanitized(data).value;
      SanitizedTasksIdempotent(ts);
      assert once["tasks"] == JArray(SanitizedTasks(ts));
      assert once["tasks" := JArray(SanitizedTasks(SanitizedTasks(ts)))] == once;
    }
  }

  /** The inner loop of sanitize_priorities: writes a normalised priority into each
      sub-task dict of the list, in order. */
  method NormalizeSubTaskPriorities(subs: seq<Json>) returns (r: Result<seq<Json>>)
    ensures r.Ok? <==> AllObjects(subs)
    ensures r.Ok? ==> r.value == NormalizedSubTasks(subs)
  {
    var out := subs;
    var j := 0;
    while j < |subs|
      invariant 0 <= j <= |subs| && |out| == |subs|
      invariant forall i :: 0 <= i < j ==> subs[i].JObject? && out[i] == JObject(WithNormalizedPriority(subs[i].fields))
    {
      if !subs[j].JObject? {
        return Err(RuntimeError);
      }
      out := out[j := JObject(WithNormalizedPriority(subs[j].fields))];
      j := j + 1;
    }
    assert AllObjects(subs);
    assert out == NormalizedSubTasks(subs);
    return Ok(out);
  }

  /** The body of the outer loop for one task dict: its priority, then the priorities of
      the dicts in a list-valued `subTasks`. */
  method SanitizeTask(task: Dict) returns (r: Result<Dict>)
    ensures r.Ok? <==> SubTasksSanitizable(task)
    ensures r.Ok? ==> r.value == SanitizedTask(task)
  {
    var t := WithNormalizedPriority(task);
    if "subTasks" in task && task["subTasks"].JArray? {
      SanitizedTaskOfList(task);
      var subs := NormalizeSubTaskPriorities(t["subTasks"].items);
      if subs.Err? {
        return Err(RuntimeError);
      }
      return Ok(t["subTasks" := JArray(subs.value)]);
    }
    SanitizedTaskOfOther(task);
    return Ok(t);
  }

  /** The loop body on a task whose `subTasks` is a list: it normalises that list, and
      fails when one of its elements is not a dict. */
  lemma SanitizedTaskOfList(task: Dict)
    requires "subTasks" in task && task["subTasks"].JArray?
    ensures var t := WithNormalizedPriority(task);
      && "subTasks" in t && t["subTasks"] == task["subTasks"]
      && (SubTasksSanitizable(task) <==> AllObjects(task["subTasks"].items))
      && (SubTasksSanitizable(task) ==> SanitizedTask(task) == t["subTasks" := JArray(NormalizedSubTasks(task["subTasks"].items))])
  {
  }

  /** The loop body on any other task only normalises its own priority. */
  lemma SanitizedTaskOfOther(task: Dict)
    requires !("subTasks" in task && task["subTasks"].JArray?)
    ensures var t := WithNormalizedPriority(task);
      && !("subTasks" in t && t["subTasks"].JArray?)
      && SubTasksSanitizable(task) && SanitizedTask(task) == t
  {
    var t := WithNormalizedPriority(task);
    assert ("subTasks" in t) == ("subTasks" in task);
    if "subTasks" in task {
      assert t["subTasks"] == task["subTasks"];
    }
  }

  /** sanitize_priorities(data): rewrites the priorities of `data` in place and returns
      the same dict. On failure the dict may be partly rewritten, as in the Python code. */
  method SanitizePriorities(data: JsonDict) returns (r: Result<JsonDict>)
    modifies data
    ensures r.Ok? <==> PrioritiesSanitized(old(data.fields)).Ok?
    ensures r.Ok? ==> r.value == data && data.fields == PrioritiesSanitized(old(data.fields)).value
  {
    if "tasks" in data.fields && data.fields["tasks"].JArray? {
      ghost var ts := data.fields["tasks"].items;
      var tasks := data.fields["tasks"].items;
      var i := 0;
      while i < |tasks|
        invariant 0 <= i <= |tasks| == |ts|
        invariant forall k :: 0 <= k < i ==> TaskSanitizable(ts[k]) && tasks[k] == JObject(SanitizedTask(ts[k].fields))
        invariant tasks[i..] == ts[i..]
        invariant data.fields == old(data.fields)["tasks" := JArray(tasks)]
      {
        if !tasks[i].JObject? {
          return Err(RuntimeError);
        }
        var task := SanitizeTask(tasks[i].fields);
        if task.Err? {
          return Err(RuntimeError);
        }
        tasks := tasks[i := JObject(task.value)];
        data.fields := data.fields["tasks" := JArray(tasks)];
        i := i + 1;
      }
      assert tasks == SanitizedTasks(ts);
    }
    return Ok(data);
  }

  // ---- release versions and sprint names ----

  /** Only characters `re.sub(r"[^A-Za-z0-9 .-]", "", s)` keeps: the same class as the
      Release version pattern. */
  predicate AllKept(s: string)
  {
    forall i :: 0 <= i < |s| ==> Models.VersionChar(s[i])
  }

  /** `re.sub(r"[^A-Za-z0-9 .-]", "", s)` */
  function RemoveDisallowed(s: string): (r: string)
    ensures AllKept(r) && |r| <= |s|
    ensures AllKept(s) ==> r == s
  {
    if s == [] then []
    else (if Models.VersionChar(s[0]) then [s[0]] else []) + RemoveDisallowed(s[1..])
  }

  /** The substitution works character by character: it distributes over concatenation. */
  lemma {:induction false} RemoveDisallowedAppend(a: string, b: string)
    ensures RemoveDisallowed(a + b) == RemoveDisallowed(a) + RemoveDisallowed(b)
  {
    if a == [] {
      assert a + b == b;
    } else {
      var c := if Models.VersionChar(a[0]) then [a[0]] else [];
      assert (a + b)[0] == a[0] && (a + b)[1..] == a[1..] + b;
      RemoveDisallowedAppend(a[1..], b);
      assert RemoveDisallowed(a + b) == c + RemoveDisallowed(a[1..] + b);
      assert RemoveDisallowed(a) == c + RemoveDisallowed(a[1..]);
      assert c + (RemoveDisallowed(a[1..]) + RemoveDisallowed(b)) == c + RemoveDisallowed(a[1..]) + RemoveDisallowed(b);
    }
  }

  /** The cleaning of one version or name: drop disallowed characters, strip, cut to `limit`. */
  function CleanName(s: string, limit: nat): (r: string)
    ensures AllKept(r) && |r| <= limit
    ensures AllKept(s) && NoEdgeSpace(s) && |s| <= limit ==> r == s
  {
    var t := Strip(RemoveDisallowed(s));
    StripKeepsKept(RemoveDisallowed(s));
    if |t| > limit then t[..limit] else t
  }

  /** Strip only removes characters, so it keeps a text made of allowed characters so. */
  lemma StripKeepsKept(s: string)
    requires AllKept(s)
    ensures AllKept(Strip(s))
  {
    var l := LStrip(s);
    forall i | 0 <= i < |l|
      ensures Models.VersionChar(l[i])
    {
      assert l[i] == s[|s| - |l| + i];
    }
    var r := RStrip(l);
    forall i | 0 <= i < |r|
      ensures Models.VersionChar(r[i])
    {
      assert r[i] == l[i];
    }
  }

  /** Cleaning is not idempotent: the cut can leave a trailing space, which a second
      cleaning strips. */
  lemma CleanNameNotIdempotent()
    ensures var s := seq(49, _ => 'a') + " b";
      CleanName(s, 50) == seq(49, _ => 'a') + " " && CleanName(CleanName(s, 50), 50) == seq(49, _ => 'a')
  {
    var a49 := seq(49, _ => 'a');
    assert a49 + " b" == a49 + [' ', 'b'];
    CutLeavesSpace(a49, 'b');
  }

  /** A clean name one character short of the limit, followed by a space and one more
      character, is cut just after the space. */
  lemma CutLeavesSpace(a: string, b: char)
    requires a != [] && AllKept(a) && NoEdgeSpace(a) && Models.VersionChar(b) && !IsSpace(b)
    ensures CleanName(a + [' ', b], |a| + 1) == a + " "
    ensures CleanName(a + " ", |a| + 1) == a
  {
    CutOnce(a, b);
    CutTwice(a);
  }

  lemma CutOnce(a: string, b: char)
    requires a != [] && AllKept(a) && NoEdgeSpace(a) && Models.VersionChar(b) && !IsSpace(b)
    ensures CleanName(a + [' ', b], |a| + 1) == a + " "
  {
    var s := a + [' ', b];
    forall i | 0 <= i < |s| ensures Models.VersionChar(s[i]) {
      if i < |a| {
        assert s[i] == a[i];
      }
    }
    assert s[0] == a[0] && s[|s| - 1] == b;
    assert RemoveDisallowed(s) == s;
    assert Strip(s) == s;
    assert s[..|a| + 1] == a + " ";
  }

  lemma CutTwice(a: string)
    requires a != [] && AllKept(a) && NoEdgeSpace(a)
    ensures CleanName(a + " ", |a| + 1) == a
  {
    var once := a + " ";
    assert AllKept(once);
    assert LStrip(once) == once;
    assert RStrip(once) == RStrip(a) by { assert once[..|once| - 1] == a; }
    assert Strip(RemoveDisallowed(once)) == a;
  }

  /** A name made only of disallowed characters cleans to the empty string. */
  lemma CleanNameCanBeEmpty()
    ensures CleanName("!!!", 50) == []
  {
    assert RemoveDisallowed("!!!") == [];
  }

  /** One element of the releases (or sprints) loop: `field in c`, then a string
      `c[field]` is cleaned in place. As in Python, `in` on a string tests for a
      substring and on a list for an equal element, and indexing either with a string
      raises; `in` on a number, a bool or None raises. */
  function CleanedContainer(c: Json, field: string, limit: nat): (r: Result<Json>)
    ensures c.JObject? ==> r.Ok?
    ensures c.JNull? || c.JBool? || c.JInt? || c.JFloat? ==> r == Err(RuntimeError)
    ensures r.Ok? ==> OnlyFieldCleaned(c, r.value, field, limit)
    ensures r.Ok? && r.value.JObject? && field in r.value.fields && r.value.fields[field].JString? ==>
      AllKept(r.value.fields[field].s) && |r.value.fields[field].s| <= limit
  {
    match c
    case JObject(m) =>
      if field in m && m[field].JString? then Ok(JObject(m[field := JString(CleanName(m[field].s, limit))]))
      else Ok(c)
    case JString(s) => if Contains(s, field) then Err(RuntimeError) else Ok(c)
    case JArray(xs) => if JString(field) in xs then Err(RuntimeError) else Ok(c)
    case _ => Err(RuntimeError)
  }

  /** The loop over one list-valued entry of `data`. */
  function CleanedList(data: Dict, key: string, field: string, limit: nat): (r: Result<Dict>)
  {
    if key in data && data[key].JArray? then
      var xs := data[key].items;
      if forall k :: 0 <= k < |xs| ==> CleanedContainer(xs[k], field, limit).Ok? then Ok(data[key := JArray(CleanedItems(xs, field, limit))])
      else Err(RuntimeError)
    else Ok(data)
  }

  /** The list after a loop that ran to its end. */
  function CleanedItems(xs: seq<Json>, field: string, limit: nat): (r: seq<Json>)
    requires forall k :: 0 <= k < |xs| ==> CleanedContainer(xs[k], field, limit).Ok?
    ensures |r| == |xs|
  {
    seq(|xs|, k requires 0 <= k < |xs| => CleanedContainer(xs[k], field, limit).value)
  }

  const VersionLimit := 50
  const SprintNameLimit := 45

  /** sanitize_release_and_sprint_names as a function of the dict: releases first, then sprints. */
  function NamesSanitized(data: Dict): (r: Result<Dict>)
    ensures !("releases" in data && data["releases"].JArray?) && !("sprints" in data && data["sprints"].JArray?) ==> r == Ok(data)
    ensures r.Err? ==> r.failure == RuntimeError
  {
    match CleanedList(data, "releases", "version", VersionLimit)
    case Err(f) => Err(f)
    case Ok(d) => CleanedList(d, "sprints", "name", SprintNameLimit)
  }

  /** Every string `field` of a dict in the list `key` is clean and within `limit`. */
  predicate FieldsClean(data: Dict, key: string, field: string, limit: nat)
  {
    key in data && data[key].JArray? ==>
      forall k :: 0 <= k < |data[key].items| ==>
        var c := data[key].items[k];
        c.JObject? && field in c.fields && c.fields[field].JString? ==>
          AllKept(c.fields[field].s) && |c.fields[field].s| <= limit
  }

  /** `b` is list element `a` with at most a string `field` replaced by its cleaning. */
  predicate OnlyFieldCleaned(a: Json, b: Json, field: string, limit: nat)
  {
    if a.JObject? && field in a.fields && a.fields[field].JString? then
      b == JObject(a.fields[field := JString(CleanName(a.fields[field].s, limit))])
    else b == a
  }

  lemma CleanedListFacts(data: Dict, key: string, field: string, limit: nat)
    requires key != "tasks"
    requires CleanedList(data, key, field, limit).Ok?
    ensures var out := CleanedList(data, key, field, limit).value;
      && FieldsClean(out, key, field, limit)
      && out.Keys == data.Keys
      && (forall k :: k in data && k != key ==> out[k] == data[k])
      && (key in data && data[key].JArray? ==>
            && out[key].JArray? && |out[key].items| == |data[key].items|
            && forall k :: 0 <= k < |data[key].items| ==>
                 OnlyFieldCleaned(data[key].items[k], out[key].items[k], field, limit))
  {
    if key in data && data[key].JArray? {
      var xs := data[key].items;
      var ys := CleanedItems(xs, field, limit);
      var out := data[key := JArray(ys)];
      assert CleanedList(data, key, field, limit).value == out;
      forall k | 0 <= k < |xs|
        ensures OnlyFieldCleaned(xs[k], ys[k], field, limit)
        ensures ys[k].JObject? && field in ys[k].fields && ys[k].fields[field].JString? ==>
          AllKept(ys[k].fields[field].s) && |ys[k].fields[field].s| <= limit
      {
      }
    }
  }


  /** After sanitize_release_and_sprint_names every string release version has only the
      allowed characters and at most 50 of them, every string sprint name at most 45;
      a missing or non-string field and every other key are left alone. */
  lemma NamesSanitizedFacts(data: Dict)
    requires NamesSanitized(data).Ok?
    ensures var out := NamesSanitized(data).value;
      && FieldsClean(out, "releases", "version", VersionLimit)
      && FieldsClean(out, "sprints", "name", SprintNameLimit)
      && out.Keys == data.Keys
      && (forall k :: k in data && k != "releases" && k != "sprints" ==> out[k] == data[k])
      && ("releases" in data && data["releases"].JArray? ==>
            && out["releases"].JArray? && |out["releases"].items| == |data["releases"].items|
            && forall k :: 0 <= k < |data["releases"].items| ==>
                 OnlyFieldCleaned(data["releases"].items[k], out["releases"].items[k], "version", VersionLimit))
      && ("sprints" in data && data["sprints"].JArray? ==>
            && out["sprints"].JArray? && |out["sprints"].items| == |data["sprints"].items|
            && forall k :: 0 <= k < |data["sprints"].items| ==>
                 OnlyFieldCleaned(data["sprints"].items[k], out["sprints"].items[k], "name", SprintNameLimit))
  {
    var mid := CleanedList(data, "releases", "version", VersionLimit).value;
    CleanedListFacts(data, "releases", "version", VersionLimit);
    CleanedListFacts(mid, "sprints", "name", SprintNameLimit);
  }

  /** A cleaned version passes the Release.version constraint exactly when it is not empty;
      a cleaned sprint name always passes the Sprint.name length constraint. */
  lemma CleanedNamesAgainstSchema(s: string)
    ensures Models.IsVersion(CleanName(s, VersionLimit)) <==> CleanName(s, VersionLimit) != []
    ensures |CleanName(s, SprintNameLimit)| <= Models.MaxSprintName
  {
  }

  /** sanitize_release_and_sprint_names(data): cleans release versions, then sprint
      names, in place, and returns the same dict. */
  method SanitizeReleaseAndSprintNames(data: JsonDict) returns (r: Result<JsonDict>)
    modifies data
    ensures r.Ok? <==> NamesSanitized(old(data.fields)).Ok?
    ensures r.Ok? ==> r.value == data && data.fields == NamesSanitized(old(data.fields)).value
  {
    var ok := CleanListInPlace(data, "releases", "version", VersionLimit);
    if !ok {
      return Err(RuntimeError);
    }
    ok := CleanListInPlace(data, "sprints", "name", SprintNameLimit);
    if !ok {
      return Err(RuntimeError);
    }
    return Ok(data);
  }

  /** One of the two loops of sanitize_release_and_sprint_names. */
  method CleanListInPlace(data: JsonDict, key: string, field: string, limit: nat) returns (ok: bool)
    modifies data
    ensures ok <==> CleanedList(old(data.fields), key, field, limit).Ok?
    ensures ok ==> data.fields == CleanedList(old(data.fields), key, field, limit).value
  {
    if key in data.fields && data.fields[key].JArray? {
      ghost var xs := data.fields[key].items;
      var items := data.fields[key].items;
      var i := 0;
      while i < |items|
        invariant 0 <= i <= |items| == |xs|
        invariant forall k :: 0 <= k < i ==> CleanedContainer(xs[k], field, limit).Ok? && items[k] == CleanedContainer(xs[k], field, limit).value
        invariant items[i..] == xs[i..]
        invariant data.fields == old(data.fields)[key := JArray(items)]
      {
        var c := CleanedContainer(items[i], field, limit);
        if c.Err? {
          return false;
        }
        items := items[i := c.value];
        data.fields := data.fields[key := JArray(items)];
        i := i + 1;
      }
      assert items == CleanedItems(xs, field, limit);
    }
    return true;
  }
}
