/** The state a grid runner keeps between tasks: the map from job ID to task
    that the summary reads at the end, the Dummy runner's job counter and the
    timings it records, and SGE's cached parallel environment. */
module Runner {
  import opened Wrappers
  import opened Text
  import opened Grid

  class GridRunner {
    const backend: Backend
    const esc: Escalation
    /** `id_task_map`. */
    var idTaskMap: map<JobId, Task>
    /** The next value of the Dummy runner's `itertools.count(1)`. */
    var taskIdCounter: nat
    /** The Dummy runner's `task_performance_info`, as the four numbers its
        timing line printed. */
    var taskPerformanceInfo: map<nat, seq<string>>
    /** SGE's `_pe_name`. */
    var peName: Option<string>

    /** The counter has only handed out numbers below its next value, every
        recorded timing belongs to one of them, and on the Dummy runner every job
        in the map has its timing recorded. */
    ghost predicate Valid()
      reads this
    {
      && taskIdCounter >= 1
      && (forall n :: n in taskPerformanceInfo ==> 1 <= n < taskIdCounter)
      && (backend == Dummy ==> forall id :: id in idTaskMap ==> id.Counted? && id.n in taskPerformanceInfo)
    }

    constructor (b: Backend, e: Escalation)
      ensures Valid()
      ensures backend == b && esc == e
      ensures idTaskMap == map[] && taskIdCounter == 1 && taskPerformanceInfo == map[] && peName == None
    {
      backend := b;
      esc := e;
      idTaskMap := map[];
      taskIdCounter := 1;
      taskPerformanceInfo := map[];
      peName := None;
    }

    /** `_find_job_id(out, err)`. The Dummy runner takes the next number before
        it looks for the timing line, so the counter moves on even when that
        search raises; the timing is recorded only when it is found. */
    method FindJobId(out: string, err: string) returns (r: Result<JobId>)
      requires Valid()
      modifies this
      ensures Valid()
      ensures r == JobIdOf(backend, old(taskIdCounter), out, err)
      ensures taskIdCounter == old(taskIdCounter) + (if backend == Dummy then 1 else 0)
      ensures taskPerformanceInfo ==
              if backend == Dummy && r.Ok? then old(taskPerformanceInfo)[old(taskIdCounter) := DummyTimes(err).value]
              else old(taskPerformanceInfo)
      ensures idTaskMap == old(idTaskMap) && peName == old(peName)
    {
      if backend == Dummy {
        var id := taskIdCounter;
        taskIdCounter := taskIdCounter + 1;
        var times := DummyTimes(err);
        if times.Crash? {
          return Crash(times.message);
        }
        taskPerformanceInfo := taskPerformanceInfo[id := times.value];
        return Ok(Counted(id));
      }
      r := JobIdOf(backend, taskIdCounter, out, err);
    }

    /** `_grid_execute_task(task, perf_obj)`: submit, and after a failure submit
        again while the backend's handler says to, with the memory and time it
        gives back. `replies[k]` is what the k-th submission printed. On SGE each
        submission first looks up the parallel environment, from `names` and
        `config` as `find_suitable_pe` reads them, and a failed lookup raises
        before anything is submitted. */
    method GridExecuteTask(replies: seq<Reply>, perf: (real, real, real), names: string, config: string -> string)
      returns (r: Result<(Option<string>, Option<JobId>)>)
      requires Valid()
      modifies this
      ensures Valid()
      ensures var pe := PeFor(old(peName), names, config);
        backend == SGE && pe.Crash? ==>
          && r == Crash(pe.message)
          && taskIdCounter == old(taskIdCounter) && taskPerformanceInfo == old(taskPerformanceInfo)
      ensures !(backend == SGE && PeFor(old(peName), names, config).Crash?) ==>
        var e := EndingOf(backend, esc, replies, perf);
        && r == Outcome(backend, esc, old(taskIdCounter), replies, perf)
        && taskIdCounter == CounterAfter(backend, e, old(taskIdCounter))
        && taskPerformanceInfo == TimingsAfter(backend, e, old(taskIdCounter), old(taskPerformanceInfo))
      ensures peName == PeAfter(backend, old(peName), names, config)
      ensures idTaskMap == old(idTaskMap)
    {
      var handler := Classify(backend, esc);
      ghost var after := PeAfter(backend, peName, names, config);
      ghost var lookupFails := backend == SGE && PeFor(peName, names, config).Crash?;
      ghost var e, c0, i0 := EndingOf(backend, esc, replies, perf), taskIdCounter, taskPerformanceInfo;
      ghost var o := Outcome(backend, esc, c0, replies, perf);
      var first := FirstRequest(perf);
      var keepGoing, maybeExc := true, None;
      var mem, time, threads := first.mem, first.time, first.threads;
      var taskId: Option<JobId> := None;
      var k := 0;
      while keepGoing
        invariant Valid()
        invariant 0 <= k <= |replies| && threads == first.threads
        invariant idTaskMap == old(idTaskMap)
        invariant k == 0 ==> peName == old(peName)
        invariant k > 0 ==> peName == after && !lookupFails
        invariant !keepGoing ==> k > 0
        invariant keepGoing ==> Retry(handler, replies[k..], Request(mem, time, threads)).ending == e
        invariant keepGoing ==> taskIdCounter == c0 && taskPerformanceInfo == i0
        invariant keepGoing ==> taskId.None?
        invariant !keepGoing ==> o == Ok((maybeExc, taskId))
        invariant !keepGoing ==> taskIdCounter == CounterAfter(backend, e, c0) && taskPerformanceInfo == TimingsAfter(backend, e, c0, i0)
        decreases |replies| - k, keepGoing
      {
        var failed := LookUpPe(names, config, old(peName));
        if failed.Some? {
          return Crash(failed.value);
        }
        if k == |replies| {
          return Crash(ScriptEnded);
        }
        var rq := Request(mem, time, threads);
        var rp := replies[k];
        assert replies[k..][0] == rp && replies[k..][1..] == replies[k + 1..];
        k := k + 1;
        var packed, id := Attempt(handler, rp, rq);
        if packed.Crash? {
          return Crash(packed.message);
        }
        maybeExc, keepGoing, mem, time := packed.value.exc, packed.value.keepGoing, packed.value.mem, packed.value.time;
        taskId := id;
      }
      r := Ok((maybeExc, taskId));
    }

    /** What the loop does with one reply: a failure goes to the handler, a
        success to `_find_job_id`, after which the loop stops with no exception. */
    method Attempt(handler: Handler, rp: Reply, rq: Request) returns (packed: Result<Verdict>, id: Option<JobId>)
      requires Valid()
      modifies this
      ensures Valid()
      ensures rp.retcode != 0 ==>
        && packed == handler(rp, rq) && id.None?
        && taskIdCounter == old(taskIdCounter) && taskPerformanceInfo == old(taskPerformanceInfo)
      ensures rp.retcode == 0 ==>
        var j := JobIdOf(backend, old(taskIdCounter), rp.out, rp.err);
        var e := Succeeded(rp.out, rp.err);
        && (j.Crash? ==> packed == Crash(j.message))
        && (j.Ok? ==> packed == Ok(Verdict(None, false, rq.mem, rq.time)) && id == Some(j.value))
        && taskIdCounter == CounterAfter(backend, e, old(taskIdCounter))
        && taskPerformanceInfo == TimingsAfter(backend, e, old(taskIdCounter), old(taskPerformanceInfo))
      ensures idTaskMap == old(idTaskMap) && peName == old(peName)
    {
      if rp.retcode != 0 {
        packed, id := handler(rp, rq), None;
      } else {
        var found := FindJobId(rp.out, rp.err);
        if found.Crash? {
          return Crash(found.message), None;
        }
        packed, id := Ok(Verdict(None, false, rq.mem, rq.time)), Some(found.value);
      }
    }

    /** The lookup `_grid_communicate` makes before a submission: only SGE
        looks up its parallel environment; the message of what it raised, if
        it raised. */
    method LookUpPe(names: string, config: string -> string, ghost start: Option<string>) returns (failed: Option<string>)
      requires Valid()
      requires peName == start || peName == PeAfter(backend, start, names, config)
      modifies this
      ensures Valid()
      ensures backend == SGE && PeFor(start, names, config).Crash? <==> failed.Some?
      ensures failed.Some? ==> failed.value == PeFor(start, names, config).message
      ensures peName == PeAfter(backend, start, names, config)
      ensures idTaskMap == old(idTaskMap) && taskIdCounter == old(taskIdCounter)
      ensures taskPerformanceInfo == old(taskPerformanceInfo)
    {
      PeAfterStable(backend, start, names, config);
      failed := None;
      if backend == SGE {
        var pe := FindSuitablePe(names, config);
        if pe.Crash? {
          failed := Some(pe.message);
        }
      }
    }

    /** `execute_task(task)`, with the performance prediction `perf`, the
        replies to its submissions and SGE's `qconf` outputs as inputs: a task
        without actions is not submitted; otherwise the job ID, when there is
        one, is recorded for the summary. */
    method ExecuteTask(task: Task, perf: (real, real, real), replies: seq<Reply>, names: string, config: string -> string)
      returns (r: Result<Option<string>>)
      requires Valid()
      modifies this
      ensures Valid()
      ensures task.actions == [] ==>
        && r == Ok(None) && idTaskMap == old(idTaskMap) && taskIdCounter == old(taskIdCounter)
        && taskPerformanceInfo == old(taskPerformanceInfo) && peName == old(peName)
      ensures task.actions != [] && backend == SGE && PeFor(old(peName), names, config).Crash? ==>
        && r == Crash(PeFor(old(peName), names, config).message)
        && idTaskMap == old(idTaskMap) && taskIdCounter == old(taskIdCounter)
        && taskPerformanceInfo == old(taskPerformanceInfo)
      ensures task.actions != [] && !(backend == SGE && PeFor(old(peName), names, config).Crash?) ==>
        var o := Outcome(backend, esc, old(taskIdCounter), replies, perf);
        var e := EndingOf(backend, esc, replies, perf);
        && (r.Ok? <==> o.Ok?)
        && (r.Ok? ==> r.value == o.value.0)
        && (r.Crash? ==> r.message == o.message)
        && idTaskMap == (if o.Ok? && o.value.1.Some? then old(idTaskMap)[o.value.1.value := task] else old(idTaskMap))
        && taskIdCounter == CounterAfter(backend, e, old(taskIdCounter))
        && taskPerformanceInfo == TimingsAfter(backend, e, old(taskIdCounter), old(taskPerformanceInfo))
      ensures task.actions != [] ==> peName == PeAfter(backend, old(peName), names, config)
    {
      if task.actions == [] {
        return Ok(None);
      }
      var packed := GridExecuteTask(replies, perf, names, config);
      if packed.Crash? {
        return Crash(packed.message);
      }
      var (maybeExc, taskId) := packed.value;
      if taskId.Some? && Truthy(taskId.value) {
        idTaskMap := idTaskMap[taskId.value := task];
      }
      r := Ok(maybeExc);
    }

    /** On the Dummy runner `_jobstats` finds a timing for every job in the map. */
    lemma DummyJobstatsComplete(ids: seq<JobId>)
      requires Valid() && backend == Dummy
      requires forall i :: 0 <= i < |ids| ==> ids[i] in idTaskMap
      ensures DummyJobstats(taskPerformanceInfo, ids).Ok?
    {
    }

    /** `find_suitable_pe()`: the cached name when there is one; otherwise the
        first listed name whose configuration allocates all slots on one host,
        which is then cached. */
    method FindSuitablePe(names: string, config: string -> string) returns (r: Result<string>)
      modifies this
      ensures old(peName).Some? && old(peName).value != [] ==> r == Ok(old(peName).value) && peName == old(peName)
      ensures !(old(peName).Some? && old(peName).value != []) ==>
        && r == ChoosePe(names, config)
        && peName == (if r.Ok? then Some(r.value) else old(peName))
      ensures r == PeFor(old(peName), names, config) && peName == PeAfter(SGE, old(peName), names, config)
      ensures idTaskMap == old(idTaskMap) && taskIdCounter == old(taskIdCounter)
      ensures taskPerformanceInfo == old(taskPerformanceInfo)
    {
      if peName.Some? && peName.value != [] {
        return Ok(peName.value);
      }
      if names == [] {
        return Crash(InvalidCommandError);
      }
      var found := FirstSuitablePe(SplitWs(Strip(names)), config);
      if found.None? {
        return Crash(InvalidCommandError);
      }
      peName := found;
      r := Ok(found.value);
    }
  }

  /** The Dummy runner's counter after one task: it moves on once, when a
      submission succeeded and its output was searched for the timing line. */
  function CounterAfter(b: Backend, e: Ending, counter: nat): nat {
    counter + (if b == Dummy && e.Succeeded? then 1 else 0)
  }

  /** The Dummy runner's timings after one task: the timing of the successful
      submission, under the counter's old value, when its line was found. */
  function TimingsAfter(b: Backend, e: Ending, counter: nat, info: map<nat, seq<string>>): map<nat, seq<string>> {
    if b == Dummy && e.Succeeded? && DummyTimes(e.err).Ok? then info[counter := DummyTimes(e.err).value] else info
  }

  /** The loop of `find_suitable_pe` over the listed names: it stops at the
      first name the inner loop found suitable. */
  method FirstSuitablePe(candidates: seq<string>, config: string -> string) returns (found: Option<string>)
    ensures found == FirstSuitable(candidates, config)
  {
    found := None;
    var i := 0;
    while i < |candidates|
      invariant 0 <= i <= |candidates|
      invariant found.None? ==> forall j :: 0 <= j < i ==> !PeSuitable(config(candidates[j]))
      invariant found.Some? ==> found == FirstSuitable(candidates, config)
    {
      if found.Some? {
        break;
      }
      var name := candidates[i];
      var suitable := HasPeSlotsLine(config(name));
      if suitable {
        found := Some(name);
        FirstSuitableAt(candidates, config, i);
      }
      i := i + 1;
    }
  }

  /** The inner loop of `find_suitable_pe`: does some line of a `qconf -sp`
      listing split into exactly `allocation_rule $pe_slots`? */
  method HasPeSlotsLine(config: string) returns (found: bool)
    ensures found <==> PeSuitable(config)
  {
    var lines := Split(config, '\n');
    found := false;
    var l := 0;
    while l < |lines|
      invariant 0 <= l <= |lines|
      invariant found <==> exists j :: 0 <= j < l && SplitWs(lines[j]) == PeSlotsRule
    {
      if SplitWs(lines[l]) == PeSlotsRule {
        found := true;
      }
      l := l + 1;
    }
    if found {
      var j :| 0 <= j < l && SplitWs(lines[j]) == PeSlotsRule;
      assert lines[j] in lines;
    }
  }

  /** The first suitable name is the one after all the unsuitable ones. */
  lemma FirstSuitableAt(names: seq<string>, config: string -> string, i: nat)
    requires i < |names| && PeSuitable(config(names[i]))
    requires forall j :: 0 <= j < i ==> !PeSuitable(config(names[j]))
    ensures FirstSuitable(names, config) == Some(names[i])
  {
    var r := FirstSuitable(names, config);
    assert r.Some?;
    var k :| 0 <= k < |names| && names[k] == r.value && PeSuitable(config(names[k]))
             && forall j :: 0 <= j < k ==> !PeSuitable(config(names[j]));
    assert k == i;
  }
}
