/** calculate_total_estimate_hours and its inner parse_estimate. Estimates are kept in
    exact whole minutes (60 * H + M for "H:M"); the Python code computes the same
    quantity in hours as H + M / 60. */
module EstimateTotals {
  import opened JsonValues
  import opened PyStrings

  /** parse_estimate(estimate), in minutes: 0 for a missing, empty, non-string or
      colon-free value, and 0 where the split or int() raises. */
  function ParseEstimate(estimate: Json): (r: int)
    ensures !Truthy(estimate) || !estimate.JString? || ':' !in estimate.s ==> r == 0
    ensures estimate.JString? && |Split(estimate.s, ':')| != 2 ==> r == 0
  {
    if !Truthy(estimate) || !estimate.JString? || ':' !in estimate.s then 0
    else
      var pieces := Split(estimate.s, ':');
      if |pieces| != 2 then 0
      else
        match (ParseInt(pieces[0]), ParseInt(pieces[1]))
        case (Some(h), Some(m)) => 60 * h + m
        case _ => 0
  }

  /** The value in hours that Python computes, `int(h) + int(m) / 60`, before rounding. */
  function Hours(minutes: int): real
  {
    minutes as real / 60.0
  }

  /** The number of occurrences of `c` in `s`. */
  function Count(s: string, c: char): nat
  {
    if s == [] then 0 else (if s[0] == c then 1 else 0) + Count(s[1..], c)
  }

  /** A split has one piece more than there are separators. */
  lemma {:induction false} SplitCount(s: string, sep: char)
    ensures |Split(s, sep)| == Count(s, sep) + 1
    ensures Count(s, sep) > 0 <==> sep in s
  {
    if s != [] {
      SplitCount(s[1..], sep);
      assert sep in s <==> s[0] == sep || sep in s[1..];
    }
  }

  /** parse_estimate gives a non-zero count only for a string with exactly one colon and
      an integer on each side, and then it is 60 * H + M minutes. */
  lemma ParseEstimateNonZero(s: string)
    requires ParseEstimate(JString(s)) != 0
    ensures Count(s, ':') == 1
    ensures var pieces := Split(s, ':');
      && |pieces| == 2 && ParseInt(pieces[0]).Some? && ParseInt(pieces[1]).Some?
      && ParseEstimate(JString(s)) == 60 * ParseInt(pieces[0]).value + ParseInt(pieces[1]).value
  {
    SplitCount(s, ':');
  }

  /** A value with two or more colons counts 0 instead of raising. */
  lemma TwoColonsCountZero(s: string)
    requires Count(s, ':') >= 2
    ensures ParseEstimate(JString(s)) == 0
  {
    SplitCount(s, ':');
  }

  /** Two separator-free pieces joined by the separator split back into those pieces. */
  lemma SplitTwo(a: string, sep: char, b: string)
    requires sep !in a && sep !in b
    ensures Split(a + [sep] + b, sep) == [a, b]
  {
    SplitAfterPiece(a, sep, b);
    SplitNoSeparator(b, sep);
  }

  /** "H:M" with H and M written in decimal is 60 * H + M minutes, that is H + M / 60 hours. */
  lemma ParseEstimateOfParts(h: nat, m: nat)
    ensures ParseEstimate(JString(NatToString(h) + ":" + NatToString(m))) == 60 * h + m
    ensures Hours(60 * h + m) == h as real + m as real / 60.0
  {
    var hs := NatToString(h);
    var ms := NatToString(m);
    assert ':' !in hs && ':' !in ms;
    SplitTwo(hs, ':', ms);
    ParseIntNatToString(h);
    ParseIntNatToString(m);
    ParseEstimateOfPieces(hs + ":" + ms, hs, ms);
  }

  lemma ParseEstimateOfPieces(s: string, a: string, b: string)
    requires Split(s, ':') == [a, b] && ParseInt(a).Some? && ParseInt(b).Some?
    ensures ParseEstimate(JString(s)) == 60 * ParseInt(a).value + ParseInt(b).value
  {
    SplitCount(s, ':');
  }

  /** "125:30" is 125.5 hours. */
  lemma ParseEstimateExample()
    ensures ParseEstimate(JString("125:30")) == 7530
    ensures Hours(7530) == 125.5
  {
    assert NatToString(1) == "1";
    assert NatToString(12) == "12";
    assert NatToString(125) == "125";
    assert NatToString(3) == "3";
    assert NatToString(30) == "30";
    assert "125" + ":" + "30" == "125:30";
    ParseEstimateOfParts(125, 30);
  }

  /** The sum over the task dicts, left to right. */
  function EstimateSum(tasks: seq<Dict>): int
  {
    if tasks == [] then 0
    else ParseEstimate(Get(tasks[0], "originalEstimate", JNull)) + EstimateSum(tasks[1..])
  }

  /** Appending a task raises the total by exactly its parsed estimate. */
  lemma {:induction false} EstimateSumAppend(tasks: seq<Dict>, task: Dict)
    ensures EstimateSum(tasks + [task]) == EstimateSum(tasks) + ParseEstimate(Get(task, "originalEstimate", JNull))
  {
    if tasks == [] {
      assert [] + [task] == [task];
      assert [task][1..] == [];
    } else {
      assert (tasks + [task])[1..] == tasks[1..] + [task];
      EstimateSumAppend(tasks[1..], task);
    }
  }

  /** Only each task's own originalEstimate counts: tasks that agree on it, whatever
      their sub-tasks, have the same total. */
  lemma {:induction false} SubTasksIgnored(tasks: seq<Dict>, others: seq<Dict>)
    requires |tasks| == |others|
    requires forall k :: 0 <= k < |tasks| ==> Get(tasks[k], "originalEstimate", JNull) == Get(others[k], "originalEstimate", JNull)
    ensures EstimateSum(tasks) == EstimateSum(others)
  {
    if tasks != [] {
      SubTasksIgnored(tasks[1..], others[1..]);
    }
  }

  /** calculate_total_estimate_hours(data), in minutes and before rounding; an error where
      iterating `data.get("tasks", [])` or calling `.get` on an element raises. */
  function TotalEstimate(data: Dict): (r: Result<int>)
    ensures r.Err? ==> r.failure == RuntimeError
    ensures var v := Get(data, "tasks", JArray([]));
      v.JArray? ==> (r.Ok? <==> forall k :: 0 <= k < |v.items| ==> v.items[k].JObject?)
  {
    match DictItems(Get(data, "tasks", JArray([])))
    case None => Err(RuntimeError)
    case Some(tasks) => Ok(EstimateSum(tasks))
  }

  /** Data without `tasks` totals 0. */
  lemma TotalWithoutTasks(data: Dict)
    requires "tasks" !in data
    ensures TotalEstimate(data) == Ok(0)
  {
    assert DictItems(JArray([])) == Some([]);
  }

  /** Appending a task to a list-valued `tasks` raises the total by exactly its estimate. */
  lemma TotalAppend(data: Dict, task: Dict)
    requires TotalEstimate(data).Ok? && "tasks" in data && data["tasks"].JArray?
    ensures var appended := data["tasks" := JArray(data["tasks"].items + [JObject(task)])];
      && TotalEstimate(appended).Ok?
      && TotalEstimate(appended).value == TotalEstimate(data).value + ParseEstimate(Get(task, "originalEstimate", JNull))
  {
    var xs := data["tasks"].items;
    var tasks := DictItems(JArray(xs)).value;
    var appended := data["tasks" := JArray(xs + [JObject(task)])];
    assert TotalEstimate(data) == Ok(EstimateSum(tasks));
    DictItemsAppend(xs, task);
    assert Get(appended, "tasks", JArray([])) == JArray(xs + [JObject(task)]);
    assert TotalEstimate(appended) == Ok(EstimateSum(tasks + [task]));
    EstimateSumAppend(tasks, task);
    var e := ParseEstimate(Get(task, "originalEstimate", JNull));
    assert EstimateSum(tasks + [task]) == EstimateSum(tasks) + e;
  }

  /** Appending a dict to a list of dicts appends it to the dicts the loop visits. */
  lemma DictItemsAppend(xs: seq<Json>, d: Dict)
    requires DictItems(JArray(xs)).Some?
    ensures DictItems(JArray(xs + [JObject(d)])) == Some(DictItems(JArray(xs)).value + [d])
  {
    var ys := xs + [JObject(d)];
    var tasks := DictItems(JArray(xs)).value;
    assert forall k :: 0 <= k < |ys| ==> ys[k].JObject? by {
      forall k | 0 <= k < |ys| ensures ys[k].JObject? {
        if k < |xs| { assert ys[k] == xs[k]; }
      }
    }
    var zs := DictItems(JArray(ys)).value;
    forall k | 0 <= k < |zs| ensures zs[k] == (tasks + [d])[k] {
      if k < |xs| { assert ys[k] == xs[k]; }
    }
    assert zs == tasks + [d];
  }

  /** Replacing the sub-tasks of a task leaves the total as it was: sub-task estimates
      are not counted. */
  lemma TotalIgnoresSubTasks(data: Dict, k: nat, subTasks: Json)
    requires "tasks" in data && data["tasks"].JArray? && k < |data["tasks"].items| && data["tasks"].items[k].JObject?
    ensures var xs := data["tasks"].items;
      TotalEstimate(data["tasks" := JArray(xs[k := JObject(xs[k].fields["subTasks" := subTasks])])]) == TotalEstimate(data)
  {
    var xs := data["tasks"].items;
    var ys := xs[k := JObject(xs[k].fields["subTasks" := subTasks])];
    assert forall i :: 0 <= i < |xs| ==> (xs[i].JObject? <==> ys[i].JObject?);
    if DictItems(JArray(xs)).Some? {
      SubTasksIgnored(DictItems(JArray(xs)).value, DictItems(JArray(ys)).value);
    }
  }

  /** One more pass of the loop adds the next task's estimate. */
  lemma EstimateSumPrefix(tasks: seq<Dict>, i: nat)
    requires i < |tasks|
    ensures EstimateSum(tasks[..i + 1]) == EstimateSum(tasks[..i]) + ParseEstimate(Get(tasks[i], "originalEstimate", JNull))
  {
    assert tasks[..i + 1] == tasks[..i] + [tasks[i]];
    EstimateSumAppend(tasks[..i], tasks[i]);
  }

  /** calculate_total_estimate_hours(data): the loop that adds up the estimates. */
  method CalculateTotalEstimate(data: Dict) returns (r: Result<int>)
    ensures r == TotalEstimate(data)
  {
    var items := DictItems(Get(data, "tasks", JArray([])));
    if items.None? {
      assert TotalEstimate(data).Err? && TotalEstimate(data).failure == RuntimeError;
      return Err(RuntimeError);
    }
    var tasks := items.value;
    assert TotalEstimate(data).Ok? && TotalEstimate(data).value == EstimateSum(tasks);
    var total := 0;
    var i := 0;
    while i < |tasks|
      invariant 0 <= i <= |tasks|
      invariant total == EstimateSum(tasks[..i])
    {
      EstimateSumPrefix(tasks, i);
      total := total + ParseEstimate(Get(tasks[i], "originalEstimate", JNull));
      i := i + 1;
    }
    assert tasks[..i] == tasks;
    return Ok(total);
  }
}
