/** The response schema: the Pydantic models SubTask, Task, Sprint, ScrumProject, Release,
    KanbanProject and Project, their field constraints, how a decoded dict is validated
    into them, and how model_dump() turns them back into JSON. */
module Models {
  import opened JsonValues

  const Priorities: set<string> := {"None", "Low", "Medium", "High"}
  const IssueTypes: set<string> := {"Task", "Story", "Bug"}
  const MaxStoryPoint := 2147483647
  const MaxSummary := 255
  const MaxDescription := 1000
  const MaxEstimate := 45
  const MaxSprintName := 45
  const MaxReleaseVersion := 50

  datatype SubTask = SubTask(
    summary: string,
    description: string,
    issueType: string,
    priority: string,
    startDate: Option<string>,
    dueDate: Option<string>,
    originalEstimate: string,
    storyPoint: int)

  /** A Task declares the fields of a SubTask (kept here as `item`) plus its list of
      sub-tasks; a SubTask has no such list, so a validated tree is at most two levels deep. */
  datatype Task = Task(item: SubTask, subTasks: seq<SubTask>)

  datatype Sprint = Sprint(
    name: string,
    description: string,
    startDate: Option<string>,
    endDate: Option<string>,
    tasks: seq<Task>)

  datatype ScrumProject = ScrumProject(projectName: string, sprints: seq<Sprint>)

  datatype Release = Release(
    version: string,
    description: string,
    startDate: Option<string>,
    releaseDate: Option<string>,
    tasks: seq<Task>)

  datatype KanbanProject = KanbanProject(projectName: string, releases: seq<Release>)

  datatype Project = Project(projectName: string, tasks: seq<Task>)

  /** The character class of the Release.version pattern `^[A-Za-z0-9 .-]+$`. */
  predicate VersionChar(c: char)
  {
    'A' <= c <= 'Z' || 'a' <= c <= 'z' || '0' <= c <= '9' || c == ' ' || c == '.' || c == '-'
  }

  predicate IsVersion(v: string)
  {
    && 0 < |v| <= MaxReleaseVersion
    && forall i :: 0 <= i < |v| ==> VersionChar(v[i])
  }

  predicate ValidSubTask(s: SubTask)
  {
    && |s.summary| <= MaxSummary
    && |s.description| <= MaxDescription
    && s.issueType in IssueTypes
    && s.priority in Priorities
    && |s.originalEstimate| <= MaxEstimate
    && 0 <= s.storyPoint <= MaxStoryPoint
  }

  predicate ValidTask(t: Task)
  {
    && ValidSubTask(t.item)
    && forall k :: 0 <= k < |t.subTasks| ==> ValidSubTask(t.subTasks[k])
  }

  predicate ValidTasks(ts: seq<Task>)
  {
    forall k :: 0 <= k < |ts| ==> ValidTask(ts[k])
  }

  predicate ValidSprint(s: Sprint)
  {
    |s.name| <= MaxSprintName && |s.description| <= MaxDescription && ValidTasks(s.tasks)
  }

  predicate ValidRelease(r: Release)
  {
    IsVersion(r.version) && |r.description| <= MaxDescription && ValidTasks(r.tasks)
  }

  predicate ValidScrumProject(p: ScrumProject)
  {
    forall k :: 0 <= k < |p.sprints| ==> ValidSprint(p.sprints[k])
  }

  predicate ValidKanbanProject(p: KanbanProject)
  {
    forall k :: 0 <= k < |p.releases| ==> ValidRelease(p.releases[k])
  }

  predicate ValidProject(p: Project)
  {
    ValidTasks(p.tasks)
  }

  // ---- validation of decoded dicts (Pydantic's constructor, strict types) ----

  /** A required `str` field whose length is at most `maxLength`. */
  function StringField(d: Dict, key: string, maxLength: nat): Option<string>
  {
    if key in d && d[key].JString? && |d[key].s| <= maxLength then Some(d[key].s) else None
  }

  /** A required `str` field with no length limit. */
  function TextField(d: Dict, key: string): Option<string>
  {
    if key in d && d[key].JString? then Some(d[key].s) else None
  }

  /** A required `str` field restricted to a set of spellings (an anchored alternation pattern). */
  function EnumField(d: Dict, key: string, allowed: set<string>): Option<string>
  {
    if key in d && d[key].JString? && d[key].s in allowed then Some(d[key].s) else None
  }

  /** An `Optional[str] = None` field: absent or null gives None. */
  function OptionalStringField(d: Dict, key: string): Option<Option<string>>
  {
    if key !in d || d[key] == JNull then Some(None)
    else if d[key].JString? then Some(Some(d[key].s))
    else None
  }

  /** A required `int` field with inclusive bounds. */
  function IntField(d: Dict, key: string, lo: int, hi: int): Option<int>
  {
    if key in d && d[key].JInt? && lo <= d[key].i <= hi then Some(d[key].i) else None
  }

  function ParseSubTask(v: Json): (r: Option<SubTask>)
    ensures r.Some? ==> v.JObject? && ValidSubTask(r.value)
  {
    if !v.JObject? then None
    else
      var d := v.fields;
      var summary :- StringField(d, "summary", MaxSummary);
      var description :- StringField(d, "description", MaxDescription);
      var issueType :- EnumField(d, "issueType", IssueTypes);
      var priority :- EnumField(d, "priority", Priorities);
      var startDate :- OptionalStringField(d, "startDate");
      var dueDate :- OptionalStringField(d, "dueDate");
      var originalEstimate :- StringField(d, "originalEstimate", MaxEstimate);
      var storyPoint :- IntField(d, "storyPoint", 0, MaxStoryPoint);
      Some(SubTask(summary, description, issueType, priority, startDate, dueDate, originalEstimate, storyPoint))
  }

  function ParseSubTasks(items: seq<Json>): (r: Option<seq<SubTask>>)
    ensures r.Some? ==> |r.value| == |items|
    ensures r.Some? ==> forall k :: 0 <= k < |items| ==> ParseSubTask(items[k]) == Some(r.value[k])
  {
    if items == [] then Some([])
    else
      var first :- ParseSubTask(items[0]);
      var rest :- ParseSubTasks(items[1..]);
      Some([first] + rest)
  }

  /** `subTasks: List[SubTask] = Field(default_factory=list)` */
  function SubTasksField(d: Dict): Option<seq<SubTask>>
  {
    if "subTasks" !in d then Some([])
    else if d["subTasks"].JArray? then ParseSubTasks(d["subTasks"].items)
    else None
  }

  function ParseTask(v: Json): (r: Option<Task>)
    ensures r.Some? ==> ValidTask(r.value)
    ensures r.Some? ==> v.JObject? && ("subTasks" in v.fields ==> v.fields["subTasks"].JArray? && |r.value.subTasks| == |v.fields["subTasks"].items|)
    ensures v.JObject? && "subTasks" !in v.fields ==> (r.Some? <==> ParseSubTask(v).Some?)
    ensures r.Some? && "subTasks" !in v.fields ==> r.value.subTasks == []
  {
    var item :- ParseSubTask(v);
    var subTasks :- SubTasksField(v.fields);
    Some(Task(item, subTasks))
  }

  function ParseTasks(items: seq<Json>): (r: Option<seq<Task>>)
    ensures r.Some? ==> |r.value| == |items| && ValidTasks(r.value)
  {
    if items == [] then Some([])
    else
      var first :- ParseTask(items[0]);
      var rest :- ParseTasks(items[1..]);
      Some([first] + rest)
  }

  /** A required `List[Task]` field. */
  function TasksField(d: Dict): Option<seq<Task>>
  {
    if "tasks" in d && d["tasks"].JArray? then ParseTasks(d["tasks"].items) else None
  }

  function ParseSprint(v: Json): (r: Option<Sprint>)
    ensures r.Some? ==> ValidSprint(r.value)
  {
    if !v.JObject? then None
    else
      var d := v.fields;
      var name :- StringField(d, "name", MaxSprintName);
      var description :- StringField(d, "description", MaxDescription);
      var startDate :- OptionalStringField(d, "startDate");
      var endDate :- OptionalStringField(d, "endDate");
      var tasks :- TasksField(d);
      Some(Sprint(name, description, startDate, endDate, tasks))
  }

  function ParseRelease(v: Json): (r: Option<Release>)
    ensures r.Some? ==> ValidRelease(r.value)
  {
    if !v.JObject? then None
    else
      var d := v.fields;
      var version :- if "version" in d && d["version"].JString? && IsVersion(d["version"].s) then Some(d["version"].s) else None;
      var description :- StringField(d, "description", MaxDescription);
      var startDate :- OptionalStringField(d, "startDate");
      var releaseDate :- OptionalStringField(d, "releaseDate");
      var tasks :- TasksField(d);
      Some(Release(version, description, startDate, releaseDate, tasks))
  }

  function ParseSprints(items: seq<Json>): (r: Option<seq<Sprint>>)
    ensures r.Some? ==> |r.value| == |items| && forall k :: 0 <= k < |r.value| ==> ValidSprint(r.value[k])
  {
    if items == [] then Some([])
    else
      var first :- ParseSprint(items[0]);
      var rest :- ParseSprints(items[1..]);
      Some([first] + rest)
  }

  function ParseReleases(items: seq<Json>): (r: Option<seq<Release>>)
    ensures r.Some? ==> |r.value| == |items| && forall k :: 0 <= k < |r.value| ==> ValidRelease(r.value[k])
  {
    if items == [] then Some([])
    else
      var first :- ParseRelease(items[0]);
      var rest :- ParseReleases(items[1..]);
      Some([first] + rest)
  }

  /** `ScrumProject(**d)` */
  function ParseScrumProject(d: Dict): (r: Option<ScrumProject>)
    ensures r.Some? ==> ValidScrumProject(r.value)
    ensures r.Some? ==> "project_name" in d && "sprints" in d
  {
    var name :- TextField(d, "project_name");
    var sprints :- if "sprints" in d && d["sprints"].JArray? then ParseSprints(d["sprints"].items) else None;
    Some(ScrumProject(name, sprints))
  }

  /** `KanbanProject(**d)` */
  function ParseKanbanProject(d: Dict): (r: Option<KanbanProject>)
    ensures r.Some? ==> ValidKanbanProject(r.value)
    ensures r.Some? ==> "project_name" in d && "releases" in d
  {
    var name :- TextField(d, "project_name");
    var releases :- if "releases" in d && d["releases"].JArray? then ParseReleases(d["releases"].items) else None;
    Some(KanbanProject(name, releases))
  }

  /** `Project(**d)`: the model the service validates generated output against. */
  function ParseProject(d: Dict): (r: Option<Project>)
    ensures r.Some? ==> ValidProject(r.value)
    ensures r.Some? ==> "project_name" in d && "tasks" in d && d["tasks"].JArray? && |r.value.tasks| == |d["tasks"].items|
  {
    var name :- TextField(d, "project_name");
    var tasks :- TasksField(d);
    Some(Project(name, tasks))
  }

  // ---- model_dump() ----

  const DateKeys: set<string> := {"startDate", "dueDate"}
  const SubTaskKeys: set<string> :=
    {"summary", "description", "issueType", "priority", "startDate", "dueDate", "originalEstimate", "storyPoint"}

  function OptionalString(o: Option<string>): Json
  {
    match o
    case None => JNull
    case Some(s) => JString(s)
  }

  function DumpSubTask(s: SubTask): (r: Json)
    ensures r.JObject? && r.fields.Keys == SubTaskKeys
  {
    JObject(map[
      "summary" := JString(s.summary),
      "description" := JString(s.description),
      "issueType" := JString(s.issueType),
      "priority" := JString(s.priority),
      "startDate" := OptionalString(s.startDate),
      "dueDate" := OptionalString(s.dueDate),
      "originalEstimate" := JString(s.originalEstimate),
      "storyPoint" := JInt(s.storyPoint)])
  }

  function DumpTask(t: Task): (r: Json)
    ensures r.JObject? && r.fields.Keys == SubTaskKeys + {"subTasks"}
  {
    JObject(DumpSubTask(t.item).fields[
      "subTasks" := JArray(DumpSubTasks(t.subTasks))])
  }

  function DumpSubTasks(ss: seq<SubTask>): (r: seq<Json>)
    ensures |r| == |ss| && forall k :: 0 <= k < |ss| ==> r[k] == DumpSubTask(ss[k])
  {
    seq(|ss|, k requires 0 <= k < |ss| => DumpSubTask(ss[k]))
  }

  function DumpTasks(ts: seq<Task>): (r: seq<Json>)
    ensures |r| == |ts| && forall k :: 0 <= k < |ts| ==> r[k] == DumpTask(ts[k])
  {
    seq(|ts|, k requires 0 <= k < |ts| => DumpTask(ts[k]))
  }

  function DumpProject(p: Project): Dict
  {
    map[
      "project_name" := JString(p.projectName),
      "tasks" := JArray(DumpTasks(p.tasks))]
  }

  // ---- properties ----

  /** Sub-task validation only reads the declared fields: an extra key changes nothing. */
  lemma SubTaskIgnoresOtherKeys(d: Dict, key: string, x: Json)
    requires key !in SubTaskKeys
    ensures ParseSubTask(JObject(d[key := x])) == ParseSubTask(JObject(d))
  {
    var e := d[key := x];
    assert StringField(e, "summary", MaxSummary) == StringField(d, "summary", MaxSummary);
    assert StringField(e, "description", MaxDescription) == StringField(d, "description", MaxDescription);
    assert EnumField(e, "issueType", IssueTypes) == EnumField(d, "issueType", IssueTypes);
    assert EnumField(e, "priority", Priorities) == EnumField(d, "priority", Priorities);
    assert OptionalStringField(e, "startDate") == OptionalStringField(d, "startDate");
    assert OptionalStringField(e, "dueDate") == OptionalStringField(d, "dueDate");
    assert StringField(e, "originalEstimate", MaxEstimate) == StringField(d, "originalEstimate", MaxEstimate);
    assert IntField(e, "storyPoint", 0, MaxStoryPoint) == IntField(d, "storyPoint", 0, MaxStoryPoint);
  }

  /** Validation keeps the values it reads: each declared field of the validated sub-task
      dumps back to the value the dict held, and only the two dates may be absent. */
  lemma ParseSubTaskKeepsFields(v: Json, s: SubTask)
    requires ParseSubTask(v) == Some(s)
    ensures v.JObject? && SubTaskKeys - DateKeys <= v.fields.Keys
    ensures forall k :: k in SubTaskKeys && k in v.fields ==> DumpSubTask(s).fields[k] == v.fields[k]
  {
    var d := v.fields;
    var out := DumpSubTask(s).fields;
    assert StringField(d, "summary", MaxSummary) == Some(s.summary);
    assert StringField(d, "description", MaxDescription) == Some(s.description);
    assert EnumField(d, "issueType", IssueTypes) == Some(s.issueType);
    assert EnumField(d, "priority", Priorities) == Some(s.priority);
    assert OptionalStringField(d, "startDate") == Some(s.startDate);
    assert OptionalStringField(d, "dueDate") == Some(s.dueDate);
    assert StringField(d, "originalEstimate", MaxEstimate) == Some(s.originalEstimate);
    assert IntField(d, "storyPoint", 0, MaxStoryPoint) == Some(s.storyPoint);
    forall k | k in SubTaskKeys && k in d ensures out[k] == d[k] {
      if k == "startDate" || k == "dueDate" {
        var o := OptionalStringField(d, k).value;
        assert d[k] == OptionalString(o);
      }
    }
  }

  /** Validating the dump of a valid sub-task gives the sub-task back. */
  lemma SubTaskRoundTrip(s: SubTask)
    requires ValidSubTask(s)
    ensures ParseSubTask(DumpSubTask(s)) == Some(s)
  {
  }

  lemma {:induction false} SubTasksRoundTrip(ss: seq<SubTask>)
    requires forall k :: 0 <= k < |ss| ==> ValidSubTask(ss[k])
    ensures ParseSubTasks(DumpSubTasks(ss)) == Some(ss)
  {
    var items := DumpSubTasks(ss);
    if ss != [] {
      SubTaskRoundTrip(ss[0]);
      SubTasksRoundTrip(ss[1..]);
      assert items[1..] == DumpSubTasks(ss[1..]);
      assert [ss[0]] + ss[1..] == ss;
    }
  }

  /** Validating the dump of a valid task gives the task back. */
  lemma TaskRoundTrip(t: Task)
    requires ValidTask(t)
    ensures ParseTask(DumpTask(t)) == Some(t)
  {
    var sd := DumpSubTask(t.item).fields;
    var subs := DumpSubTasks(t.subTasks);
    var d := sd["subTasks" := JArray(subs)];
    assert DumpTask(t) == JObject(d);
    SubTaskIgnoresOtherKeys(sd, "subTasks", JArray(subs));
    SubTaskRoundTrip(t.item);
    assert ParseSubTask(JObject(d)) == Some(t.item);
    SubTasksRoundTrip(t.subTasks);
    assert SubTasksField(d) == Some(t.subTasks);
  }

  lemma TasksRoundTrip(ts: seq<Task>)
    requires ValidTasks(ts)
    ensures ParseTasks(DumpTasks(ts)) == Some(ts)
  {
    var items := DumpTasks(ts);
    forall k | 0 <= k < |ts|
      ensures ParseTask(items[k]) == Some(ts[k])
    {
      TaskRoundTrip(ts[k]);
    }
    ParseTasksEach(items, ts);
  }

  /** A list validates to the tasks each of its elements validates to. */
  lemma {:induction false} ParseTasksEach(items: seq<Json>, ts: seq<Task>)
    requires |items| == |ts|
    requires forall k :: 0 <= k < |items| ==> ParseTask(items[k]) == Some(ts[k])
    ensures ParseTasks(items) == Some(ts)
  {
    if items != [] {
      ParseTasksEach(items[1..], ts[1..]);
      assert [ts[0]] + ts[1..] == ts;
    }
  }

  /** Validating the dump of a valid project gives the project back. */
  lemma ProjectRoundTrip(p: Project)
    requires ValidProject(p)
    ensures ParseProject(DumpProject(p)) == Some(p)
  {
    var d := DumpProject(p);
    assert TextField(d, "project_name") == Some(p.projectName);
    TasksRoundTrip(p.tasks);
    assert TasksField(d) == Some(p.tasks);
  }

  /** The dump of a validated project is at most two levels deep: every task carries a
      list of sub-tasks, and no sub-task carries a `subTasks` key of its own, whatever
      the validated dict held. */
  lemma ValidatedProjectDepthTwo(d: Dict, p: Project)
    requires ParseProject(d) == Some(p)
    ensures DumpProject(p)["tasks"].JArray?
    ensures forall k :: 0 <= k < |p.tasks| ==>
      var task := DumpProject(p)["tasks"].items[k];
      task.JObject? && "subTasks" in task.fields && task.fields["subTasks"].JArray? &&
      forall j :: 0 <= j < |task.fields["subTasks"].items| ==>
        task.fields["subTasks"].items[j].JObject? && "subTasks" !in task.fields["subTasks"].items[j].fields
  {
  }

  /** An empty release version is rejected, whatever else the release holds. */
  lemma EmptyVersionRejected(v: Json)
    requires v.JObject? && "version" in v.fields && v.fields["version"] == JString([])
    ensures ParseRelease(v) == None
  {
  }

  /** The estimate is only length-checked: any text of at most 45 characters passes, and any
      story point in the 32-bit range, not only the mapped ones. */
  lemma EstimateAndPointsUnconstrained()
    ensures ParseSubTask(DumpSubTask(SubTask("s", "d", "Bug", "Low", None, None, "two days", 7)))
         == Some(SubTask("s", "d", "Bug", "Low", None, None, "two days", 7))
  {
  }
}
