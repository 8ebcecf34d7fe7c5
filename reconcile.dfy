/** validate_and_preserve_ids: carries the ids of a previous work-item tree over to an
    updated one. Tasks are matched on (issueType, summary), sub-tasks on
    ("subtask", parent summary, summary); an item without a match gets id None. */
module IdentityReconciler {
  import opened JsonValues

  /** A hashable JSON scalar as a Python dict key sees it. Python's == makes True, 1
      and 1.0 one key, so booleans and numbers become their numeric value. */
  datatype Atom = ANull | ANum(n: real) | AStr(s: string)

  predicate IsNumber(v: Json)
  {
    v.JBool? || v.JInt? || v.JFloat?
  }

  function NumberValue(v: Json): real
    requires IsNumber(v)
  {
    match v
    case JBool(b) => if b then 1.0 else 0.0
    case JInt(i) => i as real
    case JFloat(r) => r
  }

  /** Python's == between two decoded scalars. */
  predicate PyEquals(a: Json, b: Json)
  {
    if IsNumber(a) && IsNumber(b) then NumberValue(a) == NumberValue(b)
    else if a.JString? && b.JString? then a.s == b.s
    else a.JNull? && b.JNull?
  }

  /** The key component for a value, or None for a list or dict, whose hashing raises
      TypeError. */
  function Hashed(v: Json): (r: Option<Atom>)
    ensures r.None? <==> v.JArray? || v.JObject?
  {
    match v
    case JNull => Some(ANull)
    case JString(s) => Some(AStr(s))
    case JArray(_) => None
    case JObject(_) => None
    case _ => Some(ANum(NumberValue(v)))
  }

  /** Two hashable values are the same key exactly when Python's == holds between them. */
  lemma HashedMatchesEquality(a: Json, b: Json)
    requires Hashed(a).Some? && Hashed(b).Some?
    ensures Hashed(a) == Hashed(b) <==> PyEquals(a, b)
  {
    if IsNumber(a) && IsNumber(b) {
      assert Hashed(a) == Some(ANum(NumberValue(a))) && Hashed(b) == Some(ANum(NumberValue(b)));
    }
  }

  /** A key of existing_map: a Python tuple of key components. */
  type Key = seq<Atom>

  /** `(task.get("issueType", ""), task.get("summary", ""))` */
  function TaskKey(task: Dict): (r: Option<Key>)
    ensures r.Some? ==> |r.value| == 2
    ensures r.None? <==> Hashed(Get(task, "issueType", JString([]))).None? || Hashed(Get(task, "summary", JString([]))).None?
  {
    var issueType :- Hashed(Get(task, "issueType", JString([])));
    var summary :- Hashed(Get(task, "summary", JString([])));
    Some([issueType, summary])
  }

  /** `("subtask", task.get("summary", ""), subtask.get("summary", ""))` */
  function SubTaskKey(parentSummary: Json, sub: Dict): (r: Option<Key>)
    ensures r.Some? ==> |r.value| == 3 && r.value[0] == AStr("subtask")
    ensures r.None? <==> Hashed(parentSummary).None? || Hashed(Get(sub, "summary", JString([]))).None?
  {
    var parent :- Hashed(parentSummary);
    var summary :- Hashed(Get(sub, "summary", JString([])));
    Some([AStr("subtask"), parent, summary])
  }

  /** A task key (a pair) never equals a sub-task key (a triple), so a sub-task never
      takes a task's id and a task never takes a sub-task's. */
  lemma KeysNeverCollide(task: Dict, parentSummary: Json, sub: Dict)
    requires TaskKey(task).Some? && SubTaskKey(parentSummary, sub).Some?
    ensures TaskKey(task).value != SubTaskKey(parentSummary, sub).value
  {
  }

  function ParentSummary(task: Dict): Json
  {
    Get(task, "summary", JString([]))
  }

  // ---- the map built from the previous tree ----

  /** One assignment `existing_map[key] = id`. */
  datatype Entry = Entry(key: Key, id: Json)

  /** The assignments of the inner loop over a task's sub-tasks, in order; None when a
      key is unhashable. */
  function SubTaskEntries(parentSummary: Json, subs: seq<Dict>): (r: Option<seq<Entry>>)
    ensures r.Some? ==> |r.value| == |subs|
    ensures r.Some? ==> forall j :: 0 <= j < |subs| ==>
      SubTaskKey(parentSummary, subs[j]) == Some(r.value[j].key) && r.value[j].id == Get(subs[j], "id", JNull)
  {
    if subs == [] then Some([])
    else
      var front :- SubTaskEntries(parentSummary, subs[..|subs| - 1]);
      var key :- SubTaskKey(parentSummary, subs[|subs| - 1]);
      Some(front + [Entry(key, Get(subs[|subs| - 1], "id", JNull))])
  }

  /** The assignments for one previous task: its own, then its sub-tasks'. None when a
      key is unhashable or `subTasks` cannot be iterated as dicts. */
  function TaskEntries(task: Dict): (r: Option<seq<Entry>>)
  {
    var key :- TaskKey(task);
    var subs :- DictItems(Get(task, "subTasks", JArray([])));
    var subEntries :- SubTaskEntries(ParentSummary(task), subs);
    Some([Entry(key, Get(task, "id", JNull))] + subEntries)
  }

  /** All assignments of the first loop, in execution order. */
  function PreviousEntries(tasks: seq<Dict>): (r: Option<seq<Entry>>)
  {
    if tasks == [] then Some([])
    else
      var front :- PreviousEntries(tasks[..|tasks| - 1]);
      var last :- TaskEntries(tasks[|tasks| - 1]);
      Some(front + last)
  }

  /** `m` after the assignments `es`, in order. */
  function Inserted(m: map<Key, Json>, es: seq<Entry>): map<Key, Json>
  {
    if es == [] then m
    else Inserted(m, es[..|es| - 1])[es[|es| - 1].key := es[|es| - 1].id]
  }

  function MapOf(es: seq<Entry>): map<Key, Json>
  {
    Inserted(map[], es)
  }

  /** existing_map after the first loop, or None when that loop raises. */
  function ExistingMap(previous: Dict): (r: Option<map<Key, Json>>)
    ensures "tasks" !in previous ==> r == Some(map[])
    ensures r.Some? ==> forall k :: k in r.value ==> |k| == 2 || (|k| == 3 && k[0] == AStr("subtask"))
  {
    var tasks :- DictItems(Get(previous, "tasks", JArray([])));
    var es :- PreviousEntries(tasks);
    PreviousEntriesKeys(tasks);
    forall k | k in MapOf(es) ensures |k| == 2 || (|k| == 3 && k[0] == AStr("subtask")) {
      MapOfLastWins(es, k);
    }
    Some(MapOf(es))
  }

  /** Every assignment of the first loop writes a task key (a pair) or a sub-task key (a
      triple tagged "subtask"). */
  lemma {:induction false} PreviousEntriesKeys(tasks: seq<Dict>)
    requires PreviousEntries(tasks).Some?
    ensures forall i :: 0 <= i < |PreviousEntries(tasks).value| ==>
      var k := PreviousEntries(tasks).value[i].key;
      |k| == 2 || (|k| == 3 && k[0] == AStr("subtask"))
  {
    if tasks != [] {
      var front, last := tasks[..|tasks| - 1], tasks[|tasks| - 1];
      PreviousEntriesKeys(front);
      TaskEntriesAt(last);
      var ef, el := PreviousEntries(front).value, TaskEntries(last).value;
      assert PreviousEntries(tasks).value == ef + el;
      forall i | 0 <= i < |el| ensures |el[i].key| == 2 || (|el[i].key| == 3 && el[i].key[0] == AStr("subtask")) {
        if i > 0 {
          assert SubTaskKey(ParentSummary(last), PreviousSubTasks(last)[i - 1]) == Some(el[1 + (i - 1)].key);
        }
      }
    }
  }

  lemma {:induction false} InsertedAppend(m: map<Key, Json>, a: seq<Entry>, b: seq<Entry>)
    ensures Inserted(m, a + b) == Inserted(Inserted(m, a), b)
    decreases |b|
  {
    if b == [] {
      assert a + b == a;
    } else {
      assert (a + b)[..|a + b| - 1] == a + b[..|b| - 1];
      InsertedAppend(m, a, b[..|b| - 1]);
    }
  }

  /** Later assignments overwrite earlier ones: a key is in the map exactly when some
      assignment wrote it, and then it holds the id of the last such assignment. */
  lemma MapOfLastWins(es: seq<Entry>, k: Key)
    ensures k in MapOf(es) <==> exists i :: 0 <= i < |es| && es[i].key == k
    ensures forall i :: 0 <= i < |es| && es[i].key == k && (forall j :: i < j < |es| ==> es[j].key != k) ==>
      k in MapOf(es) && MapOf(es)[k] == es[i].id
  {
    InsertedLastWins(map[], es, k);
  }

  /** The same on top of any map: a key no assignment writes keeps its old value. */
  lemma {:induction false} InsertedLastWins(m: map<Key, Json>, es: seq<Entry>, k: Key)
    ensures k in Inserted(m, es) <==> k in m || exists i :: 0 <= i < |es| && es[i].key == k
    ensures (forall i :: 0 <= i < |es| ==> es[i].key != k) && k in m ==> Inserted(m, es)[k] == m[k]
    ensures forall i :: 0 <= i < |es| && es[i].key == k && (forall j :: i < j < |es| ==> es[j].key != k) ==>
      k in Inserted(m, es) && Inserted(m, es)[k] == es[i].id
  {
    if es != [] {
      var front, e := es[..|es| - 1], es[|es| - 1];
      InsertedLastWins(m, front, k);
      assert es == front + [e];
      LastWinsStep(m, front, e, k, Inserted(m, front), Inserted(m, es));
    }
  }

  /** One step of the induction above, with the map before the last assignment (`mf`)
      and after it (`mm`) held abstract. */
  lemma LastWinsStep(m: map<Key, Json>, front: seq<Entry>, e: Entry, k: Key, mf: map<Key, Json>, mm: map<Key, Json>)
    requires mm == mf[e.key := e.id]
    requires k in mf <==> k in m || exists i :: 0 <= i < |front| && front[i].key == k
    requires (forall i :: 0 <= i < |front| ==> front[i].key != k) && k in m ==> mf[k] == m[k]
    requires forall i :: 0 <= i < |front| && front[i].key == k && (forall j :: i < j < |front| ==> front[j].key != k) ==>
      k in mf && mf[k] == front[i].id
    ensures var es := front + [e];
      && (k in mm <==> k in m || exists i :: 0 <= i < |es| && es[i].key == k)
      && ((forall i :: 0 <= i < |es| ==> es[i].key != k) && k in m ==> mm[k] == m[k])
      && forall i :: 0 <= i < |es| && es[i].key == k && (forall j :: i < j < |es| ==> es[j].key != k) ==>
           k in mm && mm[k] == es[i].id
  {
    var es := front + [e];
    var n := |es|;
    assert es[n - 1] == e;
    if e.key == k {
      forall i | 0 <= i < n && es[i].key == k && (forall j :: i < j < n ==> es[j].key != k)
        ensures k in mm && mm[k] == es[i].id
      {
        assert i == n - 1;
      }
    } else {
      if exists i :: 0 <= i < n && es[i].key == k {
        var i :| 0 <= i < n && es[i].key == k;
        assert i < n - 1 && front[i] == es[i];
      }
      if exists i :: 0 <= i < |front| && front[i].key == k {
        var i :| 0 <= i < |front| && front[i].key == k;
        assert es[i] == front[i];
      }
      if (forall i :: 0 <= i < n ==> es[i].key != k) && k in m {
        forall i | 0 <= i < |front| ensures front[i].key != k {
          assert front[i] == es[i];
        }
      }
      forall i | 0 <= i < n && es[i].key == k && (forall j :: i < j < n ==> es[j].key != k)
        ensures k in mm && mm[k] == es[i].id
      {
        assert i < n - 1 && front[i] == es[i];
        forall j | i < j < |front| ensures front[j].key != k {
          assert front[j] == es[j];
        }
      }
    }
  }

  /** The first loop fails exactly when one of its tasks fails. */
  lemma {:induction false} PreviousEntriesSome(tasks: seq<Dict>)
    ensures PreviousEntries(tasks).Some? <==> forall k :: 0 <= k < |tasks| ==> TaskEntries(tasks[k]).Some?
  {
    if tasks != [] {
      var front := tasks[..|tasks| - 1];
      PreviousEntriesSome(front);
      assert forall k :: 0 <= k < |front| ==> front[k] == tasks[k];
    }
  }

  /** The inner loop fails exactly when one of its keys is unhashable. */
  lemma {:induction false} SubTaskEntriesSome(parentSummary: Json, subs: seq<Dict>)
    ensures SubTaskEntries(parentSummary, subs).Some? <==> forall k :: 0 <= k < |subs| ==> SubTaskKey(parentSummary, subs[k]).Some?
  {
    if subs != [] {
      var front := subs[..|subs| - 1];
      SubTaskEntriesSome(parentSummary, front);
      assert forall k :: 0 <= k < |front| ==> front[k] == subs[k];
    }
  }

  /** Every assignment of the first loop writes a task key or a sub-task key. */
  predicate TaskEntriesOnly(es: seq<Entry>)
  {
    forall i :: 0 <= i < |es| ==> |es[i].key| == 2
  }

  /** When no previous task has sub-tasks, every assignment is for a task key. */
  lemma {:induction false} NoPreviousSubTasks(tasks: seq<Dict>)
    requires forall k :: 0 <= k < |tasks| ==> DictItems(Get(tasks[k], "subTasks", JArray([]))) == Some([])
    requires PreviousEntries(tasks).Some?
    ensures TaskEntriesOnly(PreviousEntries(tasks).value)
  {
    if tasks != [] {
      var front := tasks[..|tasks| - 1];
      assert forall k :: 0 <= k < |front| ==> front[k] == tasks[k];
      NoPreviousSubTasks(front);
      var last := tasks[|tasks| - 1];
      assert SubTaskEntries(ParentSummary(last), []) == Some([]);
    }
  }

  /** So in that case every sub-task of the new tree gets id None, whatever its summary. */
  lemma SubTasksNeverTakeTaskIds(es: seq<Entry>, k: Key)
    requires TaskEntriesOnly(es) && |k| == 3
    ensures IdFor(MapOf(es), k) == JNull
  {
    MapOfLastWins(es, k);
  }

  /** One more assignment is one more map update. */
  lemma InsertedSnoc(m: map<Key, Json>, es: seq<Entry>, e: Entry)
    ensures Inserted(m, es + [e]) == Inserted(m, es)[e.key := e.id]
  {
    assert (es + [e])[..|es|] == es;
  }

  /** One more sub-task with a hashable key is one more assignment. */
  lemma SubTaskEntriesSnoc(parentSummary: Json, subs: seq<Dict>, j: nat)
    requires j < |subs| && SubTaskEntries(parentSummary, subs[..j]).Some?
    requires SubTaskKey(parentSummary, subs[j]).Some?
    ensures SubTaskEntries(parentSummary, subs[..j + 1]) ==
      Some(SubTaskEntries(parentSummary, subs[..j]).value + [Entry(SubTaskKey(parentSummary, subs[j]).value, Get(subs[j], "id", JNull))])
  {
    assert subs[..j + 1][..j] == subs[..j];
    assert subs[..j + 1][j] == subs[j];
  }

  /** The first loop, building existing_map. */
  method BuildExistingMap(previous: Dict) returns (r: Option<map<Key, Json>>)
    ensures r == ExistingMap(previous)
  {
    var items := DictItems(Get(previous, "tasks", JArray([])));
    if items.None? {
      return None;
    }
    var tasks := items.value;
    var m := map[];
    var i := 0;
    while i < |tasks|
      invariant 0 <= i <= |tasks|
      invariant PreviousEntries(tasks[..i]).Some? && m == MapOf(PreviousEntries(tasks[..i]).value)
    {
      var next := InsertTask(m, tasks[i]);
      assert tasks[..i + 1][..i] == tasks[..i];
      if next.None? {
        PreviousEntriesSome(tasks);
        return None;
      }
      InsertedAppend(map[], PreviousEntries(tasks[..i]).value, TaskEntries(tasks[i]).value);
      m := next.value;
      i := i + 1;
    }
    assert tasks[..i] == tasks;
    return Some(m);
  }

  /** One pass of the first loop's body: the task's key, then its sub-tasks' keys. */
  method InsertTask(m: map<Key, Json>, task: Dict) returns (r: Option<map<Key, Json>>)
    ensures r.Some? <==> TaskEntries(task).Some?
    ensures r.Some? ==> r.value == Inserted(m, TaskEntries(task).value)
  {
    var key := TaskKey(task);
    if key.None? {
      return None;
    }
    var first := Entry(key.value, Get(task, "id", JNull));
    var acc := m[first.key := first.id];
    assert acc == Inserted(m, [first]) by { assert [first][..0] == []; }
    var items := DictItems(Get(task, "subTasks", JArray([])));
    if items.None? {
      return None;
    }
    var subs := items.value;
    var parentSummary := ParentSummary(task);
    var j := 0;
    while j < |subs|
      invariant 0 <= j <= |subs|
      invariant SubTaskEntries(parentSummary, subs[..j]).Some?
      invariant acc == Inserted(m, [first] + SubTaskEntries(parentSummary, subs[..j]).value)
    {
      var subKey := SubTaskKey(parentSummary, subs[j]);
      if subKey.None? {
        SubTaskEntriesSome(parentSummary, subs);
        return None;
      }
      InsertSubTaskStep(m, first, parentSummary, subs, j);
      acc := acc[subKey.value := Get(subs[j], "id", JNull)];
      j := j + 1;
    }
    assert subs[..j] == subs;
    return Some(acc);
  }

  /** One pass of the inner loop's body: one more assignment after the task's own. */
  lemma InsertSubTaskStep(m: map<Key, Json>, first: Entry, parentSummary: Json, subs: seq<Dict>, j: nat)
    requires j < |subs| && SubTaskEntries(parentSummary, subs[..j]).Some?
    requires SubTaskKey(parentSummary, subs[j]).Some?
    ensures SubTaskEntries(parentSummary, subs[..j + 1]).Some?
    ensures Inserted(m, [first] + SubTaskEntries(parentSummary, subs[..j + 1]).value) ==
      Inserted(m, [first] + SubTaskEntries(parentSummary, subs[..j]).value)[SubTaskKey(parentSummary, subs[j]).value := Get(subs[j], "id", JNull)]
  {
    var done := SubTaskEntries(parentSummary, subs[..j]).value;
    var e := Entry(SubTaskKey(parentSummary, subs[j]).value, Get(subs[j], "id", JNull));
    SubTaskEntriesSnoc(parentSummary, subs, j);
    InsertedSnoc(m, [first] + done, e);
    assert [first] + done + [e] == [first] + (done + [e]);
  }

  // ---- writing ids onto the updated tree ----

  /** The id written for a key: the stored id when the key is present, None otherwise. */
  function IdFor(m: map<Key, Json>, key: Key): (r: Json)
    ensures key !in m ==> r == JNull
    ensures key in m ==> r == m[key]
  {
    if key in m then m[key] else JNull
  }

  /** One pass of the inner loop of the second phase: `subtask["id"] = ...`. */
  function ReconciledSubTask(m: map<Key, Json>, parentSummary: Json, sub: Json): Option<Json>
  {
    if !sub.JObject? then None
    else
      var key :- SubTaskKey(parentSummary, sub.fields);
      Some(JObject(sub.fields["id" := IdFor(m, key)]))
  }

  /** A list-valued `subTasks` after the inner loop. */
  function ReconciledSubTasks(m: map<Key, Json>, parentSummary: Json, subs: seq<Json>): (r: Option<seq<Json>>)
    ensures r.Some? <==> forall k :: 0 <= k < |subs| ==> ReconciledSubTask(m, parentSummary, subs[k]).Some?
    ensures r.Some? ==> |r.value| == |subs|
    ensures r.Some? ==> forall k :: 0 <= k < |subs| ==> r.value[k] == ReconciledSubTask(m, parentSummary, subs[k]).value
  {
    if forall k :: 0 <= k < |subs| ==> ReconciledSubTask(m, parentSummary, subs[k]).Some? then
      Some(seq(|subs|, k requires 0 <= k < |subs| && ReconciledSubTask(m, parentSummary, subs[k]).Some? =>
                          ReconciledSubTask(m, parentSummary, subs[k]).value))
    else None
  }

  /** One pass of the outer loop of the second phase, on a task dict. */
  function ReconciledTask(m: map<Key, Json>, task: Dict): Option<Dict>
  {
    var key :- TaskKey(task);
    var t := task["id" := IdFor(m, key)];
    if "subTasks" in t && t["subTasks"].JArray? then
      var subs :- ReconciledSubTasks(m, ParentSummary(t), t["subTasks"].items);
      Some(t["subTasks" := JArray(subs)])
    else if DictItems(Get(t, "subTasks", JArray([]))).Some? then Some(t)
    else None
  }

  predicate TaskReconcilable(m: map<Key, Json>, task: Json)
  {
    task.JObject? && ReconciledTask(m, task.fields).Some?
  }

  /** A list-valued `tasks` after the outer loop. */
  function ReconciledTasks(m: map<Key, Json>, ts: seq<Json>): (r: seq<Json>)
    requires forall k :: 0 <= k < |ts| ==> TaskReconcilable(m, ts[k])
    ensures |r| == |ts|
  {
    seq(|ts|, k requires 0 <= k < |ts| && TaskReconcilable(m, ts[k]) => JObject(ReconciledTask(m, ts[k].fields).value))
  }

  /** The second phase on the updated dict, or an error where it raises. */
  function Reconciled(m: map<Key, Json>, data: Dict): Result<Dict>
  {
    if "tasks" in data && data["tasks"].JArray? then
      var ts := data["tasks"].items;
      if forall k :: 0 <= k < |ts| ==> TaskReconcilable(m, ts[k]) then Ok(data["tasks" := JArray(ReconciledTasks(m, ts))])
      else Err(RuntimeError)
    else if DictItems(Get(data, "tasks", JArray([]))).Some? then Ok(data)
    else Err(RuntimeError)
  }

  /** validate_and_preserve_ids(previous_data, updated_data) as a function of the two dicts. */
  function Reconciliation(previous: Dict, updated: Dict): (r: Result<Dict>)
    ensures ExistingMap(previous).None? ==> r == Err(RuntimeError)
    ensures ExistingMap(previous).Some? && "tasks" !in updated ==> r == Ok(updated)
    ensures r.Err? ==> r.failure == RuntimeError
  {
    match ExistingMap(previous)
    case None => Err(RuntimeError)
    case Some(m) => Reconciled(m, updated)
  }

  /** `b` is dict `a` with its `id` written and nothing else. */
  predicate OnlyIdWritten(a: Dict, b: Dict)
  {
    "id" in b && b == a["id" := b["id"]]
  }

  /** A reconciled task: its id is the one stored for its key (None without a match),
      each sub-task of a list-valued `subTasks` gets the id stored for its own key, and
      nothing else changes. */
  lemma ReconciledTaskFacts(m: map<Key, Json>, task: Dict)
    requires ReconciledTask(m, task).Some?
    ensures var out := ReconciledTask(m, task).value;
      && TaskKey(task).Some?
      && out["id"] == IdFor(m, TaskKey(task).value)
      && out.Keys == task.Keys + {"id"}
      && (forall k :: k in task && k != "id" && k != "subTasks" ==> out[k] == task[k])
      && ("subTasks" in task ==>
            if task["subTasks"].JArray? then
              var subs := task["subTasks"].items;
              && out["subTasks"].JArray? && |out["subTasks"].items| == |subs|
              && forall j :: 0 <= j < |subs| ==>
                   && subs[j].JObject? && out["subTasks"].items[j].JObject?
                   && SubTaskKey(ParentSummary(task), subs[j].fields).Some?
                   && OnlyIdWritten(subs[j].fields, out["subTasks"].items[j].fields)
                   && out["subTasks"].items[j].fields["id"] == IdFor(m, SubTaskKey(ParentSummary(task), subs[j].fields).value)
            else out["subTasks"] == task["subTasks"])
  {
    var t := task["id" := IdFor(m, TaskKey(task).value)];
    assert ParentSummary(t) == ParentSummary(task);
  }

  /** The second phase writes only ids: every other top-level key, the number and order
      of tasks, and (by ReconciledTaskFacts) every other field stay as they were. */
  lemma ReconciledFacts(m: map<Key, Json>, data: Dict)
    requires Reconciled(m, data).Ok?
    ensures var out := Reconciled(m, data).value;
      && out.Keys == data.Keys
      && (forall k :: k in data && k != "tasks" ==> out[k] == data[k])
      && ("tasks" in data ==>
            if data["tasks"].JArray? then
              var ts := data["tasks"].items;
              && out["tasks"].JArray? && |out["tasks"].items| == |ts|
              && forall k :: 0 <= k < |ts| ==>
                   ts[k].JObject? && out["tasks"].items[k].JObject? &&
                   ReconciledTask(m, ts[k].fields) == Some(out["tasks"].items[k].fields)
            else out["tasks"] == data["tasks"])
  {
  }

  /** Every task of a list-valued `tasks`, and every sub-task of its list-valued
      `subTasks`, has an `id` key. */
  predicate EveryItemHasId(data: Dict)
  {
    "tasks" in data && data["tasks"].JArray? ==>
      forall k :: 0 <= k < |data["tasks"].items| ==>
        var t := data["tasks"].items[k];
        t.JObject? && "id" in t.fields &&
        ("subTasks" in t.fields && t.fields["subTasks"].JArray? ==>
          forall j :: 0 <= j < |t.fields["subTasks"].items| ==>
            t.fields["subTasks"].items[j].JObject? && "id" in t.fields["subTasks"].items[j].fields)
  }

  lemma ReconciledHasIds(m: map<Key, Json>, data: Dict)
    requires Reconciled(m, data).Ok?
    ensures EveryItemHasId(Reconciled(m, data).value)
  {
    if "tasks" in data && data["tasks"].JArray? {
      var ts := data["tasks"].items;
      var out := Reconciled(m, data).value["tasks"].items;
      forall k | 0 <= k < |ts|
        ensures out[k].JObject? && "id" in out[k].fields
        ensures "subTasks" in out[k].fields && out[k].fields["subTasks"].JArray? ==>
          forall j :: 0 <= j < |out[k].fields["subTasks"].items| ==>
            out[k].fields["subTasks"].items[j].JObject? && "id" in out[k].fields["subTasks"].items[j].fields
      {
        ReconciledTaskFacts(m, ts[k].fields);
      }
    }
  }

  lemma ReconciledTaskIdempotent(m: map<Key, Json>, task: Dict)
    requires ReconciledTask(m, task).Some?
    ensures ReconciledTask(m, ReconciledTask(m, task).value) == ReconciledTask(m, task)
  {
    var key := TaskKey(task).value;
    var t := task["id" := IdFor(m, key)];
    var once := ReconciledTask(m, task).value;
    assert TaskKey(once) == Some(key) by {
      assert Get(once, "issueType", JString([])) == Get(task, "issueType", JString([]));
      assert Get(once, "summary", JString([])) == Get(task, "summary", JString([]));
    }
    var t2 := once["id" := IdFor(m, key)];
    assert t2 == once;
    assert ParentSummary(once) == ParentSummary(t);
    if "subTasks" in t && t["subTasks"].JArray? {
      var p := ParentSummary(t);
      var subs := t["subTasks"].items;
      var outs := ReconciledSubTasks(m, p, subs).value;
      ReconciledSubTasksFixed(m, p, subs);
      assert t2["subTasks" := JArray(outs)] == once;
    }
  }

  /** The inner loop of the second phase, run again on its own output, changes nothing. */
  lemma ReconciledSubTasksFixed(m: map<Key, Json>, p: Json, subs: seq<Json>)
    requires ReconciledSubTasks(m, p, subs).Some?
    ensures var outs := ReconciledSubTasks(m, p, subs).value;
      ReconciledSubTasks(m, p, outs).Some? && ReconciledSubTasks(m, p, outs).value == outs
  {
    var outs := ReconciledSubTasks(m, p, subs).value;
    forall j | 0 <= j < |subs|
      ensures ReconciledSubTask(m, p, outs[j]) == Some(outs[j])
    {
      var s := subs[j].fields;
      var sk := SubTaskKey(p, s).value;
      var s2 := s["id" := IdFor(m, sk)];
      assert Get(s2, "summary", JString([])) == Get(s, "summary", JString([]));
      assert SubTaskKey(p, s2) == Some(sk);
      assert s2["id" := IdFor(m, sk)] == s2;
    }
  }

  /** Reconciling twice against the same previous tree changes nothing more: the keys do
      not read `id`. */
  lemma ReconciledIdempotent(m: map<Key, Json>, data: Dict)
    requires Reconciled(m, data).Ok?
    ensures Reconciled(m, Reconciled(m, data).value) == Reconciled(m, data)
  {
    if "tasks" in data && data["tasks"].JArray? {
      var ts := data["tasks"].items;
      var once := Reconciled(m, data).value;
      var us := ReconciledTasks(m, ts);
      forall k | 0 <= k < |ts|
        ensures TaskReconcilable(m, us[k]) && JObject(ReconciledTask(m, us[k].fields).value) == us[k]
      {
        ReconciledTaskIdempotent(m, ts[k].fields);
      }
      assert ReconciledTasks(m, us) == us;
      assert once["tasks" := JArray(us)] == once;
    }
  }

  /** The second phase on one task dict, with the inner loop over its sub-tasks. */
  method ReconcileTask(m: map<Key, Json>, task: Dict) returns (r: Option<Dict>)
    ensures r == ReconciledTask(m, task)
  {
    var key := TaskKey(task);
    if key.None? {
      return None;
    }
    var t := task["id" := IdFor(m, key.value)];
    if "subTasks" in t && t["subTasks"].JArray? {
      var subs := t["subTasks"].items;
      var parentSummary := ParentSummary(t);
      var out := subs;
      var j := 0;
      while j < |subs|
        invariant 0 <= j <= |subs| && |out| == |subs|
        invariant forall i :: 0 <= i < j ==>
          ReconciledSubTask(m, parentSummary, subs[i]).Some? && out[i] == ReconciledSubTask(m, parentSummary, subs[i]).value
        invariant out[j..] == subs[j..]
      {
        if !subs[j].JObject? {
          return None;
        }
        var subKey := SubTaskKey(parentSummary, subs[j].fields);
        if subKey.None? {
          return None;
        }
        out := out[j := JObject(subs[j].fields["id" := IdFor(m, subKey.value)])];
        j := j + 1;
      }
      assert out == ReconciledSubTasks(m, parentSummary, subs).value;
      return Some(t["subTasks" := JArray(out)]);
    }
    if DictItems(Get(t, "subTasks", JArray([]))).None? {
      return None;
    }
    return Some(t);
  }

  /** The second loop: writes the ids onto the updated dict in place. */
  method ApplyIds(m: map<Key, Json>, data: JsonDict) returns (ok: bool)
    modifies data
    ensures ok <==> Reconciled(m, old(data.fields)).Ok?
    ensures ok ==> data.fields == Reconciled(m, old(data.fields)).value
  {
    if "tasks" in data.fields && data.fields["tasks"].JArray? {
      ghost var ts := data.fields["tasks"].items;
      var tasks := data.fields["tasks"].items;
      var i := 0;
      while i < |tasks|
        invariant 0 <= i <= |tasks| == |ts|
        invariant forall k :: 0 <= k < i ==> TaskReconcilable(m, ts[k]) && tasks[k] == JObject(ReconciledTask(m, ts[k].fields).value)
        invariant tasks[i..] == ts[i..]
        invariant data.fields == old(data.fields)["tasks" := JArray(tasks)]
      {
        if !tasks[i].JObject? {
          return false;
        }
        var task := ReconcileTask(m, tasks[i].fields);
        if task.None? {
          return false;
        }
        tasks := tasks[i := JObject(task.value)];
        data.fields := data.fields["tasks" := JArray(tasks)];
        i := i + 1;
      }
      assert tasks == ReconciledTasks(m, ts);
      return true;
    }
    return DictItems(Get(data.fields, "tasks", JArray([]))).Some?;
  }

  /** validate_and_preserve_ids(previous_data, updated_data): builds existing_map from the
      previous dict, which it only reads, then writes ids onto the updated dict in place and
      returns that same dict. */
  method ValidateAndPreserveIds(previous: Dict, updated: JsonDict) returns (r: Result<JsonDict>)
    modifies updated
    ensures r.Ok? <==> Reconciliation(previous, old(updated.fields)).Ok?
    ensures r.Ok? ==> r.value == updated && updated.fields == Reconciliation(previous, old(updated.fields)).value
  {
    var m := BuildExistingMap(previous);
    if m.None? {
      return Err(RuntimeError);
    }
    var ok := ApplyIds(m.value, updated);
    if !ok {
      return Err(RuntimeError);
    }
    return Ok(updated);
  }

  /** A previous task {issueType: "Task", summary: "FE: Login", id: "abc123"} and one
      that is dropped; the updated tree keeps the first and adds a new one. The kept task
      gets "abc123", the new one None, and the dropped one does not come back. */
  lemma ReconciliationExample()
    ensures var login := map["issueType" := JString("Task"), "summary" := JString("FE: Login")];
      var added := map["issueType" := JString("Task"), "summary" := JString("BE: Auth")];
      var dropped := map["issueType" := JString("Bug"), "summary" := JString("Old"), "id" := JString("x9")];
      var previous := map["tasks" := JArray([JObject(login["id" := JString("abc123")]), JObject(dropped)])];
      var updated := map["tasks" := JArray([JObject(login), JObject(added)])];
      Reconciliation(previous, updated) == Ok(map["tasks" := JArray([JObject(login["id" := JString("abc123")]), JObject(added["id" := JNull])])])
  {
    var login := map["issueType" := JString("Task"), "summary" := JString("FE: Login")];
    var added := map["issueType" := JString("Task"), "summary" := JString("BE: Auth")];
    var dropped := map["issueType" := JString("Bug"), "summary" := JString("Old"), "id" := JString("x9")];
    var kept := login["id" := JString("abc123")];
    TwoPlainTasks(kept, "Task", "FE: Login", JString("abc123"), dropped, "Bug", "Old", JString("x9"),
                  login, added, "BE: Auth");
  }

  /** The example above for any two previous tasks without sub-tasks and an updated tree
      that repeats the first and adds one whose summary matches neither. */
  lemma TwoPlainTasks(p1: Dict, type1: string, summary1: string, id1: Json,
                      p2: Dict, type2: string, summary2: string, id2: Json,
                      u1: Dict, u2: Dict, summary3: string)
    requires "subTasks" !in p1 && Get(p1, "issueType", JString([])) == JString(type1) && Get(p1, "summary", JString([])) == JString(summary1) && Get(p1, "id", JNull) == id1
    requires "subTasks" !in p2 && Get(p2, "issueType", JString([])) == JString(type2) && Get(p2, "summary", JString([])) == JString(summary2) && Get(p2, "id", JNull) == id2
    requires u1.Keys == {"issueType", "summary"} && u1["issueType"] == JString(type1) && u1["summary"] == JString(summary1)
    requires u2.Keys == {"issueType", "summary"} && u2["issueType"] == JString(type1) && u2["summary"] == JString(summary3)
    requires summary2 != summary1 && summary3 != summary1 && summary3 != summary2
    ensures Reconciliation(map["tasks" := JArray([JObject(p1), JObject(p2)])], map["tasks" := JArray([JObject(u1), JObject(u2)])])
      == Ok(map["tasks" := JArray([JObject(u1["id" := id1]), JObject(u2["id" := JNull])])])
  {
    var k1 := [AStr(type1), AStr(summary1)];
    var k2 := [AStr(type2), AStr(summary2)];
    var k3 := [AStr(type1), AStr(summary3)];
    assert TaskKey(p1) == Some(k1) && TaskKey(p2) == Some(k2);
    UpdatedPlainTask(u1, type1, summary1);
    UpdatedPlainTask(u2, type1, summary3);
    var es := [Entry(k1, id1), Entry(k2, id2)];
    var m := MapOf(es);
    var previous := map["tasks" := JArray([JObject(p1), JObject(p2)])];
    var updated := map["tasks" := JArray([JObject(u1), JObject(u2)])];
    ExistingMapOfTwo(p1, k1, p2, k2);
    assert ExistingMap(previous).Some? && ExistingMap(previous).value == m;
    assert k2 != k1 && k3 != k1 && k3 != k2 by { assert k2[1] != k1[1] && k3[1] != k1[1] && k3[1] != k2[1]; }
    IdsOfTwo(Entry(k1, id1), Entry(k2, id2), k3);
    ReconciledOfTwo(m, u1, k1, u2, k3);
    assert Reconciliation(previous, updated) == Reconciled(m, updated);
  }

  /** An updated task holding only an issue type and a summary has no sub-tasks, and its
      key is that pair. */
  lemma UpdatedPlainTask(u: Dict, issueType: string, summary: string)
    requires u.Keys == {"issueType", "summary"} && u["issueType"] == JString(issueType) && u["summary"] == JString(summary)
    ensures "subTasks" !in u && TaskKey(u) == Some([AStr(issueType), AStr(summary)])
  {
    assert Get(u, "issueType", JString([])) == JString(issueType);
    assert Get(u, "summary", JString([])) == JString(summary);
  }

  /** In the map of two assignments with different keys, the first key keeps its id and
      a third key has none. */
  lemma IdsOfTwo(e1: Entry, e2: Entry, k: Key)
    requires e1.key != e2.key && k != e1.key && k != e2.key
    ensures IdFor(MapOf([e1, e2]), e1.key) == e1.id
    ensures IdFor(MapOf([e1, e2]), k) == JNull
  {
    var es := [e1, e2];
    MapOfLastWins(es, e1.key);
    assert es[0].key == e1.key && forall j :: 0 < j < |es| ==> es[j].key != e1.key;
    MapOfLastWins(es, k);
  }

  /** existing_map for a previous tree of two tasks without sub-tasks. */
  lemma ExistingMapOfTwo(p1: Dict, k1: Key, p2: Dict, k2: Key)
    requires "subTasks" !in p1 && TaskKey(p1) == Some(k1)
    requires "subTasks" !in p2 && TaskKey(p2) == Some(k2)
    ensures ExistingMap(map["tasks" := JArray([JObject(p1), JObject(p2)])])
      == Some(MapOf([Entry(k1, Get(p1, "id", JNull)), Entry(k2, Get(p2, "id", JNull))]))
  {
    var e1 := Entry(k1, Get(p1, "id", JNull));
    var e2 := Entry(k2, Get(p2, "id", JNull));
    PlainTaskEntries(p1, k1);
    PlainTaskEntries(p2, k2);
    PreviousEntriesOfTwo(p1, e1, p2, e2);
    var previous := map["tasks" := JArray([JObject(p1), JObject(p2)])];
    assert Get(previous, "tasks", JArray([])) == JArray([JObject(p1), JObject(p2)]);
    DictItemsOfTwo(p1, p2);
  }

  /** The loop over a list of two dicts visits those two dicts. */
  lemma DictItemsOfTwo(p1: Dict, p2: Dict)
    ensures DictItems(JArray([JObject(p1), JObject(p2)])) == Some([p1, p2])
  {
    var items := DictItems(JArray([JObject(p1), JObject(p2)])).value;
    assert |items| == 2 && items[0] == p1 && items[1] == p2;
    assert items == [p1, p2];
  }

  /** Two previous tasks with one assignment each give those two assignments, in order. */
  lemma PreviousEntriesOfTwo(p1: Dict, e1: Entry, p2: Dict, e2: Entry)
    requires TaskEntries(p1) == Some([e1]) && TaskEntries(p2) == Some([e2])
    ensures PreviousEntries([p1, p2]) == Some([e1, e2])
  {
    assert PreviousEntries([p1]) == Some([e1]) by {
      assert [p1][..0] == [];
      assert [] + [e1] == [e1];
    }
    assert [p1, p2][..1] == [p1];
    assert [e1] + [e2] == [e1, e2];
  }

  /** The second phase on an updated tree of two tasks without sub-tasks. */
  lemma ReconciledOfTwo(m: map<Key, Json>, u1: Dict, k1: Key, u2: Dict, k2: Key)
    requires "subTasks" !in u1 && TaskKey(u1) == Some(k1)
    requires "subTasks" !in u2 && TaskKey(u2) == Some(k2)
    ensures Reconciled(m, map["tasks" := JArray([JObject(u1), JObject(u2)])])
      == Ok(map["tasks" := JArray([JObject(u1["id" := IdFor(m, k1)]), JObject(u2["id" := IdFor(m, k2)])])])
  {
    var t1 := u1["id" := IdFor(m, k1)];
    var t2 := u2["id" := IdFor(m, k2)];
    assert Get(t1, "subTasks", JArray([])) == JArray([]) && DictItems(JArray([])).Some?;
    assert Get(t2, "subTasks", JArray([])) == JArray([]);
    assert ReconciledTask(m, u1) == Some(t1);
    assert ReconciledTask(m, u2) == Some(t2);
    var ts := [JObject(u1), JObject(u2)];
    assert TaskReconcilable(m, ts[0]) && TaskReconcilable(m, ts[1]);
    assert ReconciledTasks(m, ts) == [JObject(t1), JObject(t2)];
    var data := map["tasks" := JArray(ts)];
    assert data["tasks" := JArray([JObject(t1), JObject(t2)])] == map["tasks" := JArray([JObject(t1), JObject(t2)])];
  }

  /** A previous task without sub-tasks contributes one assignment. */
  lemma PlainTaskEntries(task: Dict, key: Key)
    requires "subTasks" !in task && TaskKey(task) == Some(key)
    ensures TaskEntries(task) == Some([Entry(key, Get(task, "id", JNull))])
  {
    assert Get(task, "subTasks", JArray([])) == JArray([]);
    assert DictItems(JArray([])).value == [];
    assert SubTaskEntries(ParentSummary(task), []) == Some([]);
    var e := Entry(key, Get(task, "id", JNull));
    assert [e] + [] == [e];
  }

  // ---- ids traced back to the previous tree ----

  /** The tasks of the previous tree that the first loop visits. */
  function PreviousTasks(previous: Dict): seq<Dict>
  {
    match DictItems(Get(previous, "tasks", JArray([])))
    case Some(ts) => ts
    case None => []
  }

  /** The sub-tasks of a previous task that the inner loop visits. */
  function PreviousSubTasks(task: Dict): seq<Dict>
  {
    match DictItems(Get(task, "subTasks", JArray([])))
    case Some(subs) => subs
    case None => []
  }

  /** Some sub-task of the previous task `task` has key `k`. */
  predicate HasSubTaskKey(task: Dict, k: Key)
  {
    exists j :: 0 <= j < |PreviousSubTasks(task)| && SubTaskKey(ParentSummary(task), PreviousSubTasks(task)[j]) == Some(k)
  }

  /** `ps[i]` is the last previous task with key `k`. */
  predicate LastTaskWithKey(ps: seq<Dict>, i: int, k: Key)
  {
    && 0 <= i < |ps| && TaskKey(ps[i]) == Some(k)
    && forall i' :: i < i' < |ps| ==> TaskKey(ps[i']) != Some(k)
  }

  /** Sub-task `j` of `ps[i]` is the last previous sub-task with key `k`, in the order
      the first loop visits them: no later sub-task of `ps[i]`, and no sub-task of a
      later task, has that key. */
  predicate LastSubTaskWithKey(ps: seq<Dict>, i: int, j: int, k: Key)
  {
    && 0 <= i < |ps| && 0 <= j < |PreviousSubTasks(ps[i])|
    && SubTaskKey(ParentSummary(ps[i]), PreviousSubTasks(ps[i])[j]) == Some(k)
    && (forall j' :: j < j' < |PreviousSubTasks(ps[i])| ==> SubTaskKey(ParentSummary(ps[i]), PreviousSubTasks(ps[i])[j']) != Some(k))
    && (forall i' :: i < i' < |ps| ==> !HasSubTaskKey(ps[i'], k))
  }

  /** The assignments for one previous task: its own key first, then one per sub-task. */
  lemma TaskEntriesAt(task: Dict)
    requires TaskEntries(task).Some?
    ensures TaskKey(task).Some?
    ensures var es := TaskEntries(task).value;
      && |es| == 1 + |PreviousSubTasks(task)|
      && es[0] == Entry(TaskKey(task).value, Get(task, "id", JNull))
      && forall j :: 0 <= j < |PreviousSubTasks(task)| ==>
           SubTaskKey(ParentSummary(task), PreviousSubTasks(task)[j]) == Some(es[1 + j].key)
           && es[1 + j].id == Get(PreviousSubTasks(task)[j], "id", JNull)
  {
    var subs := DictItems(Get(task, "subTasks", JArray([]))).value;
    assert PreviousSubTasks(task) == subs;
    var se := SubTaskEntries(ParentSummary(task), subs).value;
    var es := [Entry(TaskKey(task).value, Get(task, "id", JNull))] + se;
    assert TaskEntries(task).value == es;
    forall j | 0 <= j < |subs| ensures es[1 + j] == se[j] {
    }
  }

  /** existing_map after the previous tasks `ps`: the map after all but the last task,
      then the last task's own assignment, then its sub-tasks' assignments. */
  lemma PreviousMapSnoc(ps: seq<Dict>)
    requires ps != [] && PreviousEntries(ps).Some?
    ensures PreviousEntries(ps[..|ps| - 1]).Some? && TaskEntries(ps[|ps| - 1]).Some?
    ensures TaskKey(ps[|ps| - 1]).Some?
    ensures MapOf(PreviousEntries(ps).value) ==
      Inserted(MapOf(PreviousEntries(ps[..|ps| - 1]).value)[TaskKey(ps[|ps| - 1]).value := Get(ps[|ps| - 1], "id", JNull)],
               TaskEntries(ps[|ps| - 1]).value[1..])
  {
    var front, last := ps[..|ps| - 1], ps[|ps| - 1];
    var ef, el := PreviousEntries(front).value, TaskEntries(last).value;
    assert PreviousEntries(ps).value == ef + el;
    TaskEntriesAt(last);
    var te, se := el[0], el[1..];
    assert el == [te] + se;
    InsertedAppend(map[], ef, el);
    InsertedAppend(MapOf(ef), [te], se);
    assert Inserted(MapOf(ef), [te]) == MapOf(ef)[te.key := te.id] by { assert [te][..0] == []; }
  }

  /** The first loop, seen from the previous tasks: a task key is in existing_map exactly
      when some previous task has it, and then it holds the id of the last such task. */
  lemma {:induction false} PreviousTaskIds(ps: seq<Dict>, k: Key)
    requires PreviousEntries(ps).Some? && |k| == 2
    ensures var m := MapOf(PreviousEntries(ps).value);
      && (k in m <==> exists i :: 0 <= i < |ps| && TaskKey(ps[i]) == Some(k))
      && forall i :: LastTaskWithKey(ps, i, k) ==> k in m && m[k] == Get(ps[i], "id", JNull)
  {
    if ps != [] {
      var front, last := ps[..|ps| - 1], ps[|ps| - 1];
      PreviousMapSnoc(ps);
      PreviousTaskIds(front, k);
      SubTaskEntriesKeys(last, k);
      var mf := MapOf(PreviousEntries(front).value);
      var base := mf[TaskKey(last).value := Get(last, "id", JNull)];
      InsertedLastWins(base, TaskEntries(last).value[1..], k);
      TaskIdsStep(ps, front, k, mf, MapOf(PreviousEntries(ps).value));
    }
  }

  /** One step of the induction above: the last task's own assignment decides `k` when it
      has that key, and otherwise the map of the tasks before it does. */
  lemma TaskIdsStep(ps: seq<Dict>, front: seq<Dict>, k: Key, mf: map<Key, Json>, m: map<Key, Json>)
    requires ps != [] && front == ps[..|ps| - 1] && TaskKey(ps[|ps| - 1]).Some?
    requires k in mf <==> exists i :: 0 <= i < |front| && TaskKey(front[i]) == Some(k)
    requires forall i :: LastTaskWithKey(front, i, k) ==> k in mf && mf[k] == Get(front[i], "id", JNull)
    requires var base := mf[TaskKey(ps[|ps| - 1]).value := Get(ps[|ps| - 1], "id", JNull)];
      (k in m <==> k in base) && (k in base ==> m[k] == base[k])
    ensures k in m <==> exists i :: 0 <= i < |ps| && TaskKey(ps[i]) == Some(k)
    ensures forall i :: LastTaskWithKey(ps, i, k) ==> k in m && m[k] == Get(ps[i], "id", JNull)
  {
    var n := |ps|;
    if TaskKey(ps[n - 1]) != Some(k) {
      TaskKeysInFront(ps, front, k);
    }
    forall i | LastTaskWithKey(ps, i, k) ensures k in m && m[k] == Get(ps[i], "id", JNull) {
      if i < n - 1 {
        assert LastTaskWithKey(front, i, k) && front[i] == ps[i];
      }
    }
  }

  /** The sub-task assignments of a previous task never write a task key. */
  lemma SubTaskEntriesKeys(task: Dict, k: Key)
    requires TaskEntries(task).Some? && |k| == 2
    ensures forall j :: 0 <= j < |TaskEntries(task).value[1..]| ==> TaskEntries(task).value[1..][j].key != k
  {
    TaskEntriesAt(task);
    var se := TaskEntries(task).value[1..];
    forall j | 0 <= j < |se| ensures se[j].key != k {
      assert se[j] == TaskEntries(task).value[1 + j];
    }
  }

  /** When the last previous task does not have key `k`, the tasks before it decide
      everything about `k`. */
  lemma TaskKeysInFront(ps: seq<Dict>, front: seq<Dict>, k: Key)
    requires ps != [] && front == ps[..|ps| - 1] && TaskKey(ps[|ps| - 1]) != Some(k)
    ensures (exists i :: 0 <= i < |ps| && TaskKey(ps[i]) == Some(k)) ==>
      exists i :: 0 <= i < |front| && TaskKey(front[i]) == Some(k)
    ensures forall i :: LastTaskWithKey(ps, i, k) ==> LastTaskWithKey(front, i, k)
  {
    if exists i :: 0 <= i < |ps| && TaskKey(ps[i]) == Some(k) {
      var i :| 0 <= i < |ps| && TaskKey(ps[i]) == Some(k);
      assert front[i] == ps[i];
    }
    forall i | LastTaskWithKey(ps, i, k) ensures LastTaskWithKey(front, i, k) {
      assert front[i] == ps[i];
      forall i' | i < i' < |front| ensures TaskKey(front[i']) != Some(k) {
        assert front[i'] == ps[i'];
      }
    }
  }

  /** The same for sub-task keys: a sub-task key is in existing_map exactly when some
      previous sub-task has it, and then it holds the id of the last such sub-task. */
  lemma {:induction false} PreviousSubTaskIds(ps: seq<Dict>, k: Key)
    requires PreviousEntries(ps).Some? && |k| == 3
    ensures var m := MapOf(PreviousEntries(ps).value);
      && (k in m <==> exists i :: 0 <= i < |ps| && HasSubTaskKey(ps[i], k))
      && forall i, j :: LastSubTaskWithKey(ps, i, j, k) ==> k in m && m[k] == Get(PreviousSubTasks(ps[i])[j], "id", JNull)
  {
    if ps != [] {
      var front, last := ps[..|ps| - 1], ps[|ps| - 1];
      PreviousMapSnoc(ps);
      PreviousSubTaskIds(front, k);
      var se := TaskEntries(last).value[1..];
      SubTaskEntriesOfLast(last, k);
      var mf := MapOf(PreviousEntries(front).value);
      var m := MapOf(PreviousEntries(ps).value);
      SubTaskAssignmentsAfter(mf, TaskKey(last).value, Get(last, "id", JNull), se, k, m);
      SubTaskIdsStep(ps, front, k, mf, se, m);
    }
  }

  /** The last task's own assignment writes a task key, so for a sub-task key `k` only
      its sub-task assignments `se` can change what the front map `mf` holds. */
  lemma SubTaskAssignmentsAfter(mf: map<Key, Json>, tk: Key, id: Json, se: seq<Entry>, k: Key, m: map<Key, Json>)
    requires tk != k && m == Inserted(mf[tk := id], se)
    ensures k in m <==> k in mf || exists j :: 0 <= j < |se| && se[j].key == k
    ensures (forall j :: 0 <= j < |se| ==> se[j].key != k) && k in mf ==> m[k] == mf[k]
    ensures forall j :: 0 <= j < |se| && se[j].key == k && (forall j' :: j < j' < |se| ==> se[j'].key != k) ==>
      k in m && m[k] == se[j].id
  {
    InsertedLastWins(mf[tk := id], se, k);
  }

  /** One step of the induction above: the last task's sub-task assignments decide `k`
      when one of them has that key, and otherwise the map of the tasks before it does. */
  lemma SubTaskIdsStep(ps: seq<Dict>, front: seq<Dict>, k: Key, mf: map<Key, Json>, se: seq<Entry>, m: map<Key, Json>)
    requires ps != [] && front == ps[..|ps| - 1]
    requires k in mf <==> exists i :: 0 <= i < |front| && HasSubTaskKey(front[i], k)
    requires forall i, j :: LastSubTaskWithKey(front, i, j, k) ==> k in mf && mf[k] == Get(PreviousSubTasks(front[i])[j], "id", JNull)
    requires var last := ps[|ps| - 1];
      && |se| == |PreviousSubTasks(last)|
      && (HasSubTaskKey(last, k) <==> exists j :: 0 <= j < |se| && se[j].key == k)
      && forall j :: 0 <= j < |se| ==>
           (se[j].key == k <==> SubTaskKey(ParentSummary(last), PreviousSubTasks(last)[j]) == Some(k))
           && se[j].id == Get(PreviousSubTasks(last)[j], "id", JNull)
    requires k in m <==> k in mf || exists j :: 0 <= j < |se| && se[j].key == k
    requires (forall j :: 0 <= j < |se| ==> se[j].key != k) && k in mf ==> m[k] == mf[k]
    requires forall j :: 0 <= j < |se| && se[j].key == k && (forall j' :: j < j' < |se| ==> se[j'].key != k) ==>
      k in m && m[k] == se[j].id
    ensures k in m <==> exists i :: 0 <= i < |ps| && HasSubTaskKey(ps[i], k)
    ensures forall i, j :: LastSubTaskWithKey(ps, i, j, k) ==> k in m && m[k] == Get(PreviousSubTasks(ps[i])[j], "id", JNull)
  {
    SubTaskMembershipStep(ps, front, k, mf, se, m);
    if HasSubTaskKey(ps[|ps| - 1], k) {
      SubTaskIdsOfLast(ps, k, se, m);
    } else {
      SubTaskIdsOfFront(ps, front, k, mf, se, m);
    }
  }

  /** The membership half of the step: a key is assigned by some task exactly when it is
      assigned by a front task or by the last one. */
  lemma SubTaskMembershipStep(ps: seq<Dict>, front: seq<Dict>, k: Key, mf: map<Key, Json>, se: seq<Entry>, m: map<Key, Json>)
    requires ps != [] && front == ps[..|ps| - 1]
    requires k in mf <==> exists i :: 0 <= i < |front| && HasSubTaskKey(front[i], k)
    requires HasSubTaskKey(ps[|ps| - 1], k) <==> exists j :: 0 <= j < |se| && se[j].key == k
    requires k in m <==> k in mf || exists j :: 0 <= j < |se| && se[j].key == k
    ensures k in m <==> exists i :: 0 <= i < |ps| && HasSubTaskKey(ps[i], k)
  {
    var n := |ps|;
    if k in m {
      var i: int;
      if k in mf {
        i :| 0 <= i < |front| && HasSubTaskKey(front[i], k);
        assert ps[i] == front[i];
      } else {
        i := n - 1;
      }
      assert 0 <= i < n && HasSubTaskKey(ps[i], k);
    } else {
      forall i | 0 <= i < n ensures !HasSubTaskKey(ps[i], k) {
        if i < n - 1 {
          assert ps[i] == front[i];
        }
      }
    }
  }

  /** When the last task has a sub-task with `k`, the last of its assignments with `k` wins. */
  lemma SubTaskIdsOfLast(ps: seq<Dict>, k: Key, se: seq<Entry>, m: map<Key, Json>)
    requires ps != [] && HasSubTaskKey(ps[|ps| - 1], k)
    requires var last := ps[|ps| - 1];
      && |se| == |PreviousSubTasks(last)|
      && forall j :: 0 <= j < |se| ==>
           (se[j].key == k <==> SubTaskKey(ParentSummary(last), PreviousSubTasks(last)[j]) == Some(k))
           && se[j].id == Get(PreviousSubTasks(last)[j], "id", JNull)
    requires forall j :: 0 <= j < |se| && se[j].key == k && (forall j' :: j < j' < |se| ==> se[j'].key != k) ==>
      k in m && m[k] == se[j].id
    ensures forall i, j :: LastSubTaskWithKey(ps, i, j, k) ==> k in m && m[k] == Get(PreviousSubTasks(ps[i])[j], "id", JNull)
  {
    SubTaskKeysInLast(ps, k);
    forall i, j | LastSubTaskWithKey(ps, i, j, k)
      ensures k in m && m[k] == Get(PreviousSubTasks(ps[i])[j], "id", JNull)
    {
      SubTaskIdOfLast(ps, k, se, m, i, j);
    }
  }

  /** When the last task has no sub-task with `k`, the front map's value survives. */
  lemma SubTaskIdsOfFront(ps: seq<Dict>, front: seq<Dict>, k: Key, mf: map<Key, Json>, se: seq<Entry>, m: map<Key, Json>)
    requires ps != [] && front == ps[..|ps| - 1] && !HasSubTaskKey(ps[|ps| - 1], k)
    requires forall i, j :: LastSubTaskWithKey(front, i, j, k) ==> k in mf && mf[k] == Get(PreviousSubTasks(front[i])[j], "id", JNull)
    requires HasSubTaskKey(ps[|ps| - 1], k) <==> exists j :: 0 <= j < |se| && se[j].key == k
    requires k in m <==> k in mf || exists j :: 0 <= j < |se| && se[j].key == k
    requires (forall j :: 0 <= j < |se| ==> se[j].key != k) && k in mf ==> m[k] == mf[k]
    ensures forall i, j :: LastSubTaskWithKey(ps, i, j, k) ==> k in m && m[k] == Get(PreviousSubTasks(ps[i])[j], "id", JNull)
  {
    forall i, j | LastSubTaskWithKey(ps, i, j, k)
      ensures k in m && m[k] == Get(PreviousSubTasks(ps[i])[j], "id", JNull)
    {
      SubTaskIdOfFront(ps, front, k, mf, se, m, i, j);
    }
  }

  /** The last sub-task with `k` sits in the last task: the last of its assignments with
      `k` wins. */
  lemma SubTaskIdOfLast(ps: seq<Dict>, k: Key, se: seq<Entry>, m: map<Key, Json>, i: int, j: int)
    requires LastSubTaskWithKey(ps, i, j, k) && i == |ps| - 1
    requires var last := ps[|ps| - 1];
      && |se| == |PreviousSubTasks(last)|
      && forall j :: 0 <= j < |se| ==>
           (se[j].key == k <==> SubTaskKey(ParentSummary(last), PreviousSubTasks(last)[j]) == Some(k))
           && se[j].id == Get(PreviousSubTasks(last)[j], "id", JNull)
    requires forall j :: 0 <= j < |se| && se[j].key == k && (forall j' :: j < j' < |se| ==> se[j'].key != k) ==>
      k in m && m[k] == se[j].id
    ensures k in m && m[k] == Get(PreviousSubTasks(ps[i])[j], "id", JNull)
  {
    assert se[j].key == k;
    assert forall j' :: j < j' < |se| ==> se[j'].key != k;
  }

  /** The last sub-task with `k` sits in a front task: the last task assigns no `k`, so
      the front map's value survives. */
  lemma SubTaskIdOfFront(ps: seq<Dict>, front: seq<Dict>, k: Key, mf: map<Key, Json>, se: seq<Entry>, m: map<Key, Json>, i: int, j: int)
    requires ps != [] && front == ps[..|ps| - 1] && !HasSubTaskKey(ps[|ps| - 1], k)
    requires LastSubTaskWithKey(ps, i, j, k)
    requires forall i, j :: LastSubTaskWithKey(front, i, j, k) ==> k in mf && mf[k] == Get(PreviousSubTasks(front[i])[j], "id", JNull)
    requires HasSubTaskKey(ps[|ps| - 1], k) <==> exists j :: 0 <= j < |se| && se[j].key == k
    requires k in m <==> k in mf || exists j :: 0 <= j < |se| && se[j].key == k
    requires (forall j :: 0 <= j < |se| ==> se[j].key != k) && k in mf ==> m[k] == mf[k]
    ensures k in m && m[k] == Get(PreviousSubTasks(ps[i])[j], "id", JNull)
  {
    LastSubTaskInFront(ps, front, i, j, k);
    assert front[i] == ps[i];
  }

  /** The sub-task assignments of a previous task, one per sub-task, in order; none
      writes a task key. */
  lemma SubTaskEntriesOfLast(task: Dict, k: Key)
    requires TaskEntries(task).Some? && |k| == 3
    ensures TaskKey(task).Some? && TaskKey(task).value != k
    ensures var se := TaskEntries(task).value[1..];
      && |se| == |PreviousSubTasks(task)|
      && (HasSubTaskKey(task, k) <==> exists j :: 0 <= j < |se| && se[j].key == k)
      && forall j :: 0 <= j < |se| ==>
           (se[j].key == k <==> SubTaskKey(ParentSummary(task), PreviousSubTasks(task)[j]) == Some(k))
           && se[j].id == Get(PreviousSubTasks(task)[j], "id", JNull)
  {
    TaskEntriesAt(task);
    var se := TaskEntries(task).value[1..];
    forall j | 0 <= j < |se|
      ensures (se[j].key == k <==> SubTaskKey(ParentSummary(task), PreviousSubTasks(task)[j]) == Some(k))
      ensures se[j].id == Get(PreviousSubTasks(task)[j], "id", JNull)
    {
      assert se[j] == TaskEntries(task).value[1 + j];
    }
  }

  /** When the last previous task has a sub-task with key `k`, the last such sub-task is
      the last with `k` overall. */
  lemma SubTaskKeysInLast(ps: seq<Dict>, k: Key)
    requires ps != [] && HasSubTaskKey(ps[|ps| - 1], k)
    ensures forall i, j :: LastSubTaskWithKey(ps, i, j, k) ==> i == |ps| - 1
  {
  }

  /** One sub-task that is last with `k` among all tasks is last with `k` among the front ones. */
  lemma LastSubTaskInFront(ps: seq<Dict>, front: seq<Dict>, i: int, j: int, k: Key)
    requires ps != [] && front == ps[..|ps| - 1] && !HasSubTaskKey(ps[|ps| - 1], k)
    requires LastSubTaskWithKey(ps, i, j, k)
    ensures LastSubTaskWithKey(front, i, j, k)
  {
    assert front[i] == ps[i];
    forall i' | i < i' < |front| ensures !HasSubTaskKey(front[i'], k) {
      assert front[i'] == ps[i'];
    }
  }

  /** On whole trees: an updated task gets the id of the last previous task with the same
      (issueType, summary), and None when no previous task has that key. */
  lemma PreservedIdFromPrevious(previous: Dict, updated: Dict, t: int)
    requires Reconciliation(previous, updated).Ok?
    requires "tasks" in updated && updated["tasks"].JArray? && 0 <= t < |updated["tasks"].items|
    ensures var out := Reconciliation(previous, updated).value;
      && updated["tasks"].items[t].JObject? && TaskKey(updated["tasks"].items[t].fields).Some?
      && "tasks" in out && out["tasks"].JArray? && |out["tasks"].items| == |updated["tasks"].items|
      && out["tasks"].items[t].JObject? && "id" in out["tasks"].items[t].fields
    ensures var ps := PreviousTasks(previous);
      var key := TaskKey(updated["tasks"].items[t].fields).value;
      var id := Reconciliation(previous, updated).value["tasks"].items[t].fields["id"];
      && (forall i :: LastTaskWithKey(ps, i, key) ==> id == Get(ps[i], "id", JNull))
      && ((forall i :: 0 <= i < |ps| ==> TaskKey(ps[i]) != Some(key)) ==> id == JNull)
  {
    var m := ExistingMap(previous).value;
    var ps := PreviousTasks(previous);
    assert PreviousEntries(ps).Some? && m == MapOf(PreviousEntries(ps).value);
    ReconciledFacts(m, updated);
    var task := updated["tasks"].items[t].fields;
    ReconciledTaskFacts(m, task);
    PreviousTaskIds(ps, TaskKey(task).value);
  }

  /** On whole trees: a sub-task of an updated task gets the id of the last previous
      sub-task with the same (parent summary, summary), and None when no previous sub-task
      has that key. Its issueType plays no part. */
  lemma PreservedSubTaskIdFromPrevious(previous: Dict, updated: Dict, t: int, s: int)
    requires Reconciliation(previous, updated).Ok?
    requires "tasks" in updated && updated["tasks"].JArray? && 0 <= t < |updated["tasks"].items|
    requires var task := updated["tasks"].items[t];
      task.JObject? && "subTasks" in task.fields && task.fields["subTasks"].JArray?
      && 0 <= s < |task.fields["subTasks"].items|
    ensures var task := updated["tasks"].items[t].fields;
      var out := Reconciliation(previous, updated).value;
      && task["subTasks"].items[s].JObject?
      && SubTaskKey(ParentSummary(task), task["subTasks"].items[s].fields).Some?
      && "tasks" in out && out["tasks"].JArray? && |out["tasks"].items| == |updated["tasks"].items|
      && out["tasks"].items[t].JObject? && "subTasks" in out["tasks"].items[t].fields
      && out["tasks"].items[t].fields["subTasks"].JArray?
      && |out["tasks"].items[t].fields["subTasks"].items| == |task["subTasks"].items|
      && out["tasks"].items[t].fields["subTasks"].items[s].JObject?
      && "id" in out["tasks"].items[t].fields["subTasks"].items[s].fields
    ensures var ps := PreviousTasks(previous);
      var task := updated["tasks"].items[t].fields;
      var key := SubTaskKey(ParentSummary(task), task["subTasks"].items[s].fields).value;
      var id := Reconciliation(previous, updated).value["tasks"].items[t].fields["subTasks"].items[s].fields["id"];
      && (forall i, j :: LastSubTaskWithKey(ps, i, j, key) ==> id == Get(PreviousSubTasks(ps[i])[j], "id", JNull))
      && ((forall i :: 0 <= i < |ps| ==> !HasSubTaskKey(ps[i], key)) ==> id == JNull)
  {
    var m := ExistingMap(previous).value;
    var ps := PreviousTasks(previous);
    assert PreviousEntries(ps).Some? && m == MapOf(PreviousEntries(ps).value);
    ReconciledFacts(m, updated);
    var task := updated["tasks"].items[t].fields;
    ReconciledTaskFacts(m, task);
    PreviousSubTaskIds(ps, SubTaskKey(ParentSummary(task), task["subTasks"].items[s].fields).value);
  }
}
