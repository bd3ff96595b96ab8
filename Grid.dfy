/** The decision logic of the grid runners. A grid runner submits each task to
    a scheduler (Slurm, LSF, SGE, or a local stand-in that only times the
    command), reads the job ID from what the submission printed, decides from a
    failed job's output whether to submit it again with more memory or time, and
    after the run pairs each job with its accounting record. Everything that
    talks to a process or to the clock is an input here. */
module Grid {
  import opened Wrappers
  import opened Text
  import opened Sorting
  import opened Patterns
  import Util

  datatype Backend = Dummy | Slurm | LSF | SGE

  // ---------------------------------------------------------------------------
  // Job IDs and `_find_job_id`

  /** The Dummy runner numbers its jobs; the schedulers print theirs. */
  datatype JobId = Counted(n: nat) | Printed(digits: string)

  /** Python truthiness of a job ID, as in `if task_id:`. */
  predicate Truthy(id: JobId) {
    match id
    case Counted(n) => n != 0
    case Printed(d) => d != []
  }

  /** Python 2 ordering of job IDs: numbers before strings, strings by character code. */
  predicate JobIdLe(a: JobId, b: JobId) {
    match (a, b)
    case (Counted(m), Counted(n)) => m <= n
    case (Counted(_), Printed(_)) => true
    case (Printed(_), Counted(_)) => false
    case (Printed(x), Printed(y)) => StrLe(x, y)
  }

  lemma JobIdLeTotalPreorder()
    ensures TotalPreorder(JobIdLe)
  {
    forall x: JobId, y: JobId ensures JobIdLe(x, y) || JobIdLe(y, x) {
      if x.Printed? && y.Printed? {
        StrLeTotal(x.digits, y.digits);
      }
    }
    forall x: JobId, y: JobId, z: JobId | JobIdLe(x, y) && JobIdLe(y, z) ensures JobIdLe(x, z) {
      if x.Printed? && y.Printed? && z.Printed? {
        StrLeTransitive(x.digits, y.digits, z.digits);
      }
    }
  }

  /** `Job <(\d+)>`, in what `bsub` prints. */
  const LsfJobPattern: seq<Tok> := [Lit("Job <"), Run(Digits), Lit(">")]

  /** `Your job (\d+) `, in what `qsub` prints. */
  const SgeJobPattern: seq<Tok> := [Lit("Your job "), Run(Digits), Lit(" ")]

  /** `TASK_PERFORMANCE ([\d.]+) ([\d.]+) ([\d.]+) ([\d.]+)`, the line the
      Dummy runner has `/usr/bin/time` write: elapsed seconds, peak memory in
      kilobytes, system seconds, user seconds. */
  const PerfPattern: seq<Tok> :=
    [Lit("TASK_PERFORMANCE "), Run(DigitsOrDot), Lit(" "), Run(DigitsOrDot), Lit(" "),
     Run(DigitsOrDot), Lit(" "), Run(DigitsOrDot)]

  /** `memory limit \((\d+) > \d+\)`, in what Slurm prints when it kills a job. */
  const MemLimitPattern: seq<Tok> := [Lit("memory limit ("), Run(Digits), Lit(" > "), Run(Digits), Lit(")")]

  /** `(\d+)` between two literals, the second not starting with a digit. */
  lemma LitDigitsLit(a: string, b: string)
    requires b != [] && !InClass(b[0], Digits)
    ensures var p := [Lit(a), Run(Digits), Lit(b)];
      WellFormed(p) && RunsOf(p, Digits) && Runs(p) == 1
  {
    var e: seq<Tok> := [];
    ConsLit(b, e, Digits);
    assert [Lit(b)] + e == [Lit(b)];
    ConsRun(Digits, [Lit(b)]);
    ConsLit(a, [Run(Digits), Lit(b)], Digits);
  }

  lemma JobPatternsWellFormed()
    ensures WellFormed(LsfJobPattern) && RunsOf(LsfJobPattern, Digits) && Runs(LsfJobPattern) == 1
    ensures WellFormed(SgeJobPattern) && RunsOf(SgeJobPattern, Digits) && Runs(SgeJobPattern) == 1
  {
    LitDigitsLit("Job <", ">");
    LitDigitsLit("Your job ", " ");
  }

  lemma MemLimitPatternWellFormed()
    ensures WellFormed(MemLimitPattern) && RunsOf(MemLimitPattern, Digits) && Runs(MemLimitPattern) == 2
  {
    var tail := [Lit(" > "), Run(Digits), Lit(")")];
    LitDigitsLit(" > ", ")");
    ConsRun(Digits, tail);
    ConsLit("memory limit (", [Run(Digits)] + tail, Digits);
    assert [Lit("memory limit (")] + ([Run(Digits)] + tail) == MemLimitPattern;
  }

  lemma PerfPatternWellFormed()
    ensures WellFormed(PerfPattern) && RunsOf(PerfPattern, DigitsOrDot) && Runs(PerfPattern) == 4
  {
    var c := DigitsOrDot;
    var e: seq<Tok> := [];
    ConsRun(c, e);
    var p1 := [Run(c)] + e;
    ConsLit(" ", p1, c);
    var p2 := [Lit(" ")] + p1;
    ConsRun(c, p2);
    var p3 := [Run(c)] + p2;
    ConsLit(" ", p3, c);
    var p4 := [Lit(" ")] + p3;
    ConsRun(c, p4);
    var p5 := [Run(c)] + p4;
    ConsLit(" ", p5, c);
    var p6 := [Lit(" ")] + p5;
    ConsRun(c, p6);
    var p7 := [Run(c)] + p6;
    ConsLit("TASK_PERFORMANCE ", p7, c);
    assert [Lit("TASK_PERFORMANCE ")] + p7 == PerfPattern;
  }

  /** The first group of a digits-only pattern, as a printed job ID. */
  function PrintedGroup(s: string, pat: seq<Tok>): (r: Result<JobId>)
    requires RunsOf(pat, Digits) && Runs(pat) >= 1
    ensures r.Crash? <==> NoMatchIn(s, pat)
    ensures r.Crash? ==> r.message == NoMatch
    ensures r.Ok? ==> r.value.Printed? && r.value.digits != [] && AllInClass(r.value.digits, Digits)
    ensures r.Ok? ==> Group(s, pat, 1) == Ok(r.value.digits)
  {
    match Groups(s, pat)
    case Crash(m) => Crash(m)
    case Ok(gs) =>
      GroupsFound(s, pat, Digits);
      Ok(Printed(gs[0]))
  }

  /** `_find_job_id(out, err)`. The Dummy runner's ID is the number its counter
      hands out; its search is for the timing line, and nothing found is an
      error there as everywhere else. LSF and SGE read stdout, the other two
      stderr. */
  function JobIdOf(b: Backend, counter: nat, out: string, err: string): (r: Result<JobId>)
    ensures r.Crash? ==> r.message == NoMatch
    ensures b == Dummy ==> (r.Crash? <==> NoMatchIn(err, PerfPattern)) && (r.Ok? ==> r.value == Counted(counter))
    ensures b == Slurm ==> (r.Crash? <==> forall i, k: nat :: 0 <= i <= |err| ==> !LaunchHere(err[i..], k))
    ensures b == LSF ==> (r.Crash? <==> NoMatchIn(out, LsfJobPattern))
    ensures b == SGE ==> (r.Crash? <==> NoMatchIn(out, SgeJobPattern))
    ensures r.Ok? && b != Dummy ==> r.value.Printed? && r.value.digits != [] && AllInClass(r.value.digits, Digits)
    ensures r.Ok? && counter >= 1 ==> Truthy(r.value)
  {
    match b
    case Dummy =>
      if Groups(err, PerfPattern).Ok? then Ok(Counted(counter)) else Crash(NoMatch)
    case Slurm =>
      (match LaunchGroup(err)
       case Ok(g) => Ok(Printed(g))
       case Crash(m) => Crash(m))
    case LSF => JobPatternsWellFormed(); PrintedGroup(out, LsfJobPattern)
    case SGE => JobPatternsWellFormed(); PrintedGroup(out, SgeJobPattern)
  }

  /** `bsub` announces the job first thing. */
  lemma LsfJobIdOf(d: string, rest: string, counter: nat, err: string)
    requires d != [] && AllInClass(d, Digits)
    ensures JobIdOf(LSF, counter, "Job <" + d + ">" + rest, err) == Ok(Printed(d))
  {
    JobPatternsWellFormed();
    assert Spell(LsfJobPattern, [d]) == "Job <" + d + ">";
    GroupOfSpelled(LsfJobPattern, [d], rest, 1);
  }

  /** `qsub -sync y` announces the job first thing. */
  lemma SgeJobIdOf(d: string, rest: string, counter: nat, err: string)
    requires d != [] && AllInClass(d, Digits)
    ensures JobIdOf(SGE, counter, "Your job " + d + " " + rest, err) == Ok(Printed(d))
  {
    JobPatternsWellFormed();
    assert Spell(SgeJobPattern, [d]) == "Your job " + d + " ";
    GroupOfSpelled(SgeJobPattern, [d], rest, 1);
  }

  /** `srun -v` writes its own lines first, e.g. `srun: launching 42.0 on host n1`. */
  lemma SlurmJobIdOf(pre: string, job: string, c: char, step: string, rest: string, counter: nat, out: string)
    requires 'l' !in pre
    requires job != [] && AllInClass(job, Digits) && step != [] && AllInClass(step, Digits)
    requires !IsDigit(c) && c != '\n'
    ensures JobIdOf(Slurm, counter, out, pre + (Launching + job + [c] + step + " on host" + rest)) == Ok(Printed(job))
  {
    LaunchAfter(pre, Launching + job + [c] + step + " on host" + rest);
    LaunchOfStep(job, c, step, rest);
  }

  /** The four timing numbers of the Dummy runner's `/usr/bin/time` line. */
  function DummyTimes(err: string): (r: Result<seq<string>>)
    ensures r.Crash? <==> NoMatchIn(err, PerfPattern)
    ensures r.Ok? ==> |r.value| == 4 && forall i :: 0 <= i < 4 ==> r.value[i] != [] && AllInClass(r.value[i], DigitsOrDot)
  {
    PerfPatternWellFormed();
    var r := Groups(err, PerfPattern);
    if r.Ok? then GroupsFound(err, PerfPattern, DigitsOrDot); r else r
  }

  /** One of the numbers `/usr/bin/time` prints. */
  predicate Number(x: string) { x != [] && AllInClass(x, DigitsOrDot) }

  /** The timing line spelled by the pattern with four numbers filled in. */
  lemma PerfLineSpelled(e: string, m: string, k: string, u: string)
    requires Number(e) && Number(m) && Number(k) && Number(u)
    ensures GroupsFit(PerfPattern, [e, m, k, u])
    ensures Spell(PerfPattern, [e, m, k, u]) == "TASK_PERFORMANCE " + e + " " + m + " " + k + " " + u
  {
    SpellFourRuns(PerfPattern, "TASK_PERFORMANCE ", " ", DigitsOrDot, e, m, k, u);
    RegroupEight("TASK_PERFORMANCE ", e, " ", m, " ", k, " ", u);
  }

  /** Eight strings joined in pairs from the right are the same eight joined from the left. */
  lemma RegroupEight(a: string, b: string, c: string, d: string, e: string, f: string, g: string, h: string)
    ensures a + b + (c + d + (e + f + (g + h))) == a + b + c + d + e + f + g + h
  {
    AppendAssoc(e + f, g, h);
    AppendAssoc(c + d, e + f, g + h);
    AppendAssoc(c + d + (e + f), g, h);
    AppendAssoc(a + b, c + d, e + f + (g + h));
  }

  /** `/usr/bin/time -f 'TASK_PERFORMANCE %e %M %S %U'` appends its line to the
      command's stderr. */
  lemma DummyTimesOf(pre: string, e: string, m: string, k: string, u: string, rest: string)
    requires 'T' !in pre
    requires Number(e) && Number(m) && Number(k) && Number(u)
    requires rest == [] || !InClass(rest[0], DigitsOrDot)
    ensures DummyTimes(pre + ("TASK_PERFORMANCE " + e + " " + m + " " + k + " " + u + rest)) == Ok([e, m, k, u])
  {
    var line := "TASK_PERFORMANCE " + e + " " + m + " " + k + " " + u;
    assert line + rest == "TASK_PERFORMANCE " + e + " " + m + " " + k + " " + u + rest;
    assert Groups(line + rest, PerfPattern) == Ok([e, m, k, u]) by {
      PerfPatternWellFormed();
      PerfLineSpelled(e, m, k, u);
      GroupsOfSpelled(PerfPattern, [e, m, k, u], rest);
    }
    assert Groups(pre + (line + rest), PerfPattern) == Ok([e, m, k, u]) by {
      GroupsAfter(pre, line + rest, PerfPattern);
    }
  }

  // ---------------------------------------------------------------------------
  // `_handle_grid_fail`

  /** The float arithmetic that grows a failed job's request, including the
      final `int(...)`: Slurm's `int(used) / 1024 * 1.3 ** tries` and
      `time * sigmoid(tries / 10.) * 2.7`. */
  datatype Escalation = Escalation(memFor: (nat, int) -> int, timeFor: (int, int) -> int)

  /** What a failure handler returns: `(exc, keep_going, mem, time)`. */
  datatype Verdict = Verdict(exc: Option<string>, keepGoing: bool, mem: int, time: int)

  function FailureText(head: string, cmd: string, out: string, err: string): string {
    head + cmd + "\n" + out + "\n" + err
  }

  const CommandFailed: string := "Command failed: "
  const SrunFailed: string := "srun command failed: "
  const MemoryExceeded: string := "Exceeded job memory limit"
  const TimeLimit: string := "due to time limit"

  predicate MemoryHit(outerr: string) { IsInfix(MemoryExceeded, outerr) }

  /** The case-insensitive search for `due to time limit`; the phrase is already
      lower case, so only the text is lowered (`TimeHitIgnoresCase`). */
  predicate TimeHit(outerr: string) { IsInfix(TimeLimit, ToLower(outerr)) }

  lemma TimeHitIgnoresCase(outerr: string)
    ensures TimeHit(outerr) <==> ContainsIgnoreCase(outerr, TimeLimit)
  {
    TimeLimitLower();
    IgnoreCaseOfLower(outerr, TimeLimit);
  }

  lemma TimeLimitLower()
    ensures NoCapitals(TimeLimit)
  {
  }

  /** Slurm's `int(used) / 1024`: the memory the killed job used, in megabytes. */
  function UsedMb(outerr: string): (r: Result<nat>)
    ensures r.Crash? <==> NoMatchIn(outerr, MemLimitPattern)
    ensures r.Crash? ==> r.message == NoMatch
  {
    MemLimitPatternWellFormed();
    match Groups(outerr, MemLimitPattern)
    case Crash(m) => Crash(m)
    case Ok(gs) =>
      GroupsFound(outerr, MemLimitPattern, Digits);
      Ok(ParseNat(gs[0]) / 1024)
  }

  /** `_handle_grid_fail(cmd, out, err, retcode, tries, mem, time)` of each backend. */
  function HandleGridFail(b: Backend, esc: Escalation, cmd: string, out: string, err: string,
                          retcode: int, tries: int, mem: int, time: int): (r: Result<Verdict>)
    ensures b != Slurm ==> r.Ok? && !r.value.keepGoing && r.value.mem == mem && r.value.time == time
    ensures b == Dummy || b == SGE ==> r.Ok? && r.value.exc == Some(FailureText(CommandFailed, cmd, out, err))
    ensures b == LSF ==> r.Ok? && r.value.exc.None?
    ensures b == Slurm ==> (r.Crash? <==> MemoryHit(out + err) && NoMatchIn(out + err, MemLimitPattern))
    ensures r.Crash? ==> r.message == NoMatch
    ensures b == Slurm && r.Ok? ==>
      && r.value.exc == Some(FailureText(SrunFailed, cmd, out, err))
      && (r.value.keepGoing <==> MemoryHit(out + err) || TimeHit(out + err))
      && r.value.mem == (if MemoryHit(out + err) then esc.memFor(UsedMb(out + err).value, tries) else mem)
      && r.value.time == (if TimeHit(out + err) then esc.timeFor(time, tries) else time)
  {
    match b
    case Dummy => Ok(Verdict(Some(FailureText(CommandFailed, cmd, out, err)), false, mem, time))
    case SGE => Ok(Verdict(Some(FailureText(CommandFailed, cmd, out, err)), false, mem, time))
    case LSF => Ok(Verdict(None, false, mem, time))
    case Slurm => SlurmGridFail(esc, cmd, out, err, tries, mem, time)
  }

  /** Slurm's `_handle_grid_fail`: resubmit after a memory or a time kill, with
      the memory the killed job used and the time escalated. */
  function SlurmGridFail(esc: Escalation, cmd: string, out: string, err: string,
                         tries: int, mem: int, time: int): (r: Result<Verdict>)
    ensures r.Crash? <==> MemoryHit(out + err) && NoMatchIn(out + err, MemLimitPattern)
    ensures r.Crash? ==> r.message == NoMatch
    ensures r.Ok? ==>
      && r.value.exc == Some(FailureText(SrunFailed, cmd, out, err))
      && (r.value.keepGoing <==> MemoryHit(out + err) || TimeHit(out + err))
      && r.value.mem == (if MemoryHit(out + err) then esc.memFor(UsedMb(out + err).value, tries) else mem)
      && r.value.time == (if TimeHit(out + err) then esc.timeFor(time, tries) else time)
  {
    var outerr := out + err;
    var exc := Some(FailureText(SrunFailed, cmd, out, err));
    var time' := if TimeHit(outerr) then esc.timeFor(time, tries) else time;
    if !MemoryHit(outerr) then Ok(Verdict(exc, TimeHit(outerr), mem, time'))
    else match UsedMb(outerr)
      case Crash(m) => Crash(m)
      case Ok(used) => Ok(Verdict(exc, true, esc.memFor(used, tries), time'))
  }

  /** Slurm's message for a job killed for memory, e.g. `memory limit (2048000 > 1024000)`. */
  lemma MemLimitOf(pre: string, used: string, limit: string, rest: string)
    requires 'm' !in pre
    requires used != [] && AllDigits(used) && limit != [] && AllDigits(limit)
    ensures Groups(pre + ("memory limit (" + used + " > " + limit + ")" + rest), MemLimitPattern) == Ok([used, limit])
  {
    MemLimitPatternWellFormed();
    var tail: seq<Tok> := [Lit(")")];
    var p2 := [Lit(" > "), Run(Digits)] + tail;
    var p := [Lit("memory limit ("), Run(Digits)] + p2;
    assert p == MemLimitPattern;
    assert AllInClass(used, Digits) && AllInClass(limit, Digits);
    assert GroupsFit(tail, []) && Spell(tail, []) == ")";
    SpellLitRun(" > ", Digits, tail, limit, []);
    assert [limit] + [] == [limit];
    SpellLitRun("memory limit (", Digits, p2, used, [limit]);
    assert [used] + [limit] == [used, limit];
    var text := "memory limit (" + used + " > " + limit + ")";
    assert Spell(p, [used, limit]) == text;
    GroupsOfSpelled(p, [used, limit], rest);
    GroupsAfter(pre, text + rest, p);
    assert text + rest == "memory limit (" + used + " > " + limit + ")" + rest;
  }

  /** The usage Slurm reports, in kilobytes, is read as megabytes rounded down. */
  lemma UsedMbOf(outerr: string, used: string, limit: string)
    requires Groups(outerr, MemLimitPattern) == Ok([used, limit])
    ensures AllDigits(used) && UsedMb(outerr) == Ok(ParseNat(used) / 1024)
  {
    MemLimitPatternWellFormed();
    GroupsFound(outerr, MemLimitPattern, Digits);
    assert [used, limit][0] == used;
  }

  /** A Slurm job killed for memory, and not for time, is resubmitted with the
      escalated memory and its time as it was. */
  lemma SlurmMemoryVerdict(esc: Escalation, cmd: string, out: string, err: string, used: string, limit: string,
                           tries: int, mem: int, time: int)
    requires MemoryHit(out + err) && !TimeHit(out + err)
    requires Groups(out + err, MemLimitPattern) == Ok([used, limit])
    ensures AllDigits(used)
    ensures var r := HandleGridFail(Slurm, esc, cmd, out, err, 1, tries, mem, time);
            r.Ok? && r.value.keepGoing && r.value.mem == esc.memFor(ParseNat(used) / 1024, tries) && r.value.time == time
  {
    UsedMbOf(out + err, used, limit);
  }

  lemma Regroup(a: string, b: string, c: string, d: string)
    ensures a + (b + c) + d == a + (b + (c + d))
  {
  }

  /** The same, with Slurm's message somewhere in its output. */
  lemma SlurmMemoryRetry(esc: Escalation, cmd: string, out: string, err: string, pre: string, used: string,
                         limit: string, post: string, tries: int, mem: int, time: int)
    requires out == pre + ("memory limit (" + used + " > " + limit + ")" + post)
    requires 'm' !in pre
    requires used != [] && AllDigits(used) && limit != [] && AllDigits(limit)
    requires MemoryHit(out + err) && !TimeHit(out + err)
    ensures var r := HandleGridFail(Slurm, esc, cmd, out, err, 1, tries, mem, time);
            r.Ok? && r.value.keepGoing && r.value.mem == esc.memFor(ParseNat(used) / 1024, tries) && r.value.time == time
  {
    var text := "memory limit (" + used + " > " + limit + ")";
    MemLimitOf(pre, used, limit, post + err);
    Regroup(pre, text, post, err);
    SlurmMemoryVerdict(esc, cmd, out, err, used, limit, tries, mem, time);
  }

  // ---------------------------------------------------------------------------
  // The accounting row filters of `_jobstats`

  const IndexError: string := "IndexError: list index out of range"

  /** A `sacct -P` row, as the code reads it: `line.strip().split("|")`, kept
      when the last field is `COMPLETED` and the fifth field (index 4) is `0:0`,
      giving all but the last two fields. Both tests are evaluated before `any`,
      so a row with fewer than five fields raises. With the five columns
      `MaxRSS,TotalCPU,Elapsed,ExitCode,State` that `_jobstats` asks for, index 4
      is the state, so both tests look at the same field (`SacctNeverKept`). */
  function SacctRow(line: string): (r: Result<Option<seq<string>>>)
    ensures var f := Split(Strip(line), '|');
      && (r.Crash? <==> |f| < 5)
      && (r.Crash? ==> r.message == IndexError)
      && (r.Ok? && r.value.Some? ==> f[|f| - 1] == "COMPLETED" && f[4] == "0:0" && |r.value.value| == |f| - 2 && r.value.value <= f)
      && (r.Ok? && r.value.None? ==> f[|f| - 1] != "COMPLETED" || f[4] != "0:0")
  {
    var f := Split(Strip(line), '|');
    if |f| < 5 then Crash(IndexError)
    else if f[|f| - 1] != "COMPLETED" || f[4] != "0:0" then Ok(None)
    else Ok(Some(f[..|f| - 2]))
  }

  /** A `bjobs -o ... delimiter="|"` row: kept when the last three fields are
      `-`, `-`, `DONE` (no exit code, no exit reason), giving the first three. */
  function BjobsRow(line: string): (r: Result<Option<seq<string>>>)
    ensures var f := Split(Strip(line), '|');
      && (r.Crash? <==> |f| < 3)
      && (r.Crash? ==> r.message == IndexError)
      && (r.Ok? ==> (r.value.Some? <==> Done(f)))
      && (r.Ok? && r.value.Some? ==> |r.value.value| == 3 && r.value.value <= f)
  {
    var f := Split(Strip(line), '|');
    if |f| < 3 then Crash(IndexError)
    else if !Done(f) then Ok(None)
    else Ok(Some(f[..3]))
  }

  /** The last three fields of a `bjobs` row are `-`, `-`, `DONE`. */
  predicate Done(f: seq<string>)
    requires |f| >= 3
  {
    f[|f| - 1] == "DONE" && f[|f| - 2] == "-" && f[|f| - 3] == "-"
  }

  /** The kept rows of a listing, in order, until the first row that raises. */
  function FilterRows(lines: seq<string>, row: string -> Result<Option<seq<string>>>): (r: Result<seq<seq<string>>>)
    ensures r.Ok? <==> forall i :: 0 <= i < |lines| ==> row(lines[i]).Ok?
    ensures r.Crash? ==> exists i :: 0 <= i < |lines| && row(lines[i]) == Crash(r.message)
                                     && forall j :: 0 <= j < i ==> row(lines[j]).Ok?
    ensures r.Ok? ==> |r.value| <= |lines|
    ensures r.Ok? ==> forall j :: 0 <= j < |r.value| ==> exists i :: 0 <= i < |lines| && row(lines[i]) == Ok(Some(r.value[j]))
    ensures r.Ok? ==> forall i :: 0 <= i < |lines| && row(lines[i]).value.Some? ==> row(lines[i]).value.value in r.value
  {
    if lines == [] then Ok([])
    else match row(lines[0])
      case Crash(m) => Crash(m)
      case Ok(kept) =>
        match FilterRows(lines[1..], row)
        case Crash(m) => Crash(m)
        case Ok(rest) =>
          var r := if kept.Some? then [kept.value] + rest else rest;
          assert forall i :: 1 <= i < |lines| ==> lines[i] == lines[1..][i - 1];
          Ok(r)
  }

  /** `kept` lists, in line order, the row of every kept line: `idx` gives the
      line each row came from, strictly increasing, and every kept line is in it. */
  predicate KeptAt(lines: seq<string>, row: string -> Result<Option<seq<string>>>, idx: seq<int>, kept: seq<seq<string>>) {
    && |idx| == |kept|
    && (forall j :: 0 <= j < |idx| ==> 0 <= idx[j] < |lines| && row(lines[idx[j]]) == Ok(Some(kept[j])))
    && (forall j, k :: 0 <= j < k < |idx| ==> idx[j] < idx[k])
    && (forall i :: 0 <= i < |lines| && row(lines[i]).Ok? && row(lines[i]).value.Some? ==> i in idx)
  }

  /** Without a raise, the rows kept are those of the accepted lines, one each, in order. */
  lemma {:induction false} FilterRowsOrder(lines: seq<string>, row: string -> Result<Option<seq<string>>>)
    requires FilterRows(lines, row).Ok?
    ensures exists idx :: KeptAt(lines, row, idx, FilterRows(lines, row).value)
  {
    if lines == [] {
      assert KeptAt(lines, row, [], []);
    } else {
      var rest := FilterRows(lines[1..], row).value;
      FilterRowsOrder(lines[1..], row);
      var ti :| KeptAt(lines[1..], row, ti, rest);
      var kept := row(lines[0]).value;
      assert FilterRows(lines, row).value == (if kept.Some? then [kept.value] else []) + rest;
      KeptCons(lines, row, ti, rest);
    }
  }

  /** One more line in front: its row, if kept, comes first, from line 0. */
  lemma KeptCons(lines: seq<string>, row: string -> Result<Option<seq<string>>>, ti: seq<int>, rest: seq<seq<string>>)
    requires lines != [] && row(lines[0]).Ok? && KeptAt(lines[1..], row, ti, rest)
    ensures var kept := row(lines[0]).value;
      KeptAt(lines, row, (if kept.Some? then [0] else []) + Shifted(ti), (if kept.Some? then [kept.value] else []) + rest)
  {
    KeptShifted(lines, row, ti, rest);
    if row(lines[0]).value.Some? {
      KeptFront(lines, row, Shifted(ti), rest);
    } else {
      KeptSkip(lines, row, Shifted(ti), rest);
    }
  }

  lemma KeptFront(lines: seq<string>, row: string -> Result<Option<seq<string>>>, sh: seq<int>, rest: seq<seq<string>>)
    requires lines != [] && row(lines[0]).Ok? && row(lines[0]).value.Some?
    requires |sh| == |rest|
    requires forall j :: 0 <= j < |sh| ==> 1 <= sh[j] < |lines| && row(lines[sh[j]]) == Ok(Some(rest[j]))
    requires forall j, k :: 0 <= j < k < |sh| ==> sh[j] < sh[k]
    requires forall i :: 1 <= i < |lines| && row(lines[i]).Ok? && row(lines[i]).value.Some? ==> i in sh
    ensures KeptAt(lines, row, [0] + sh, [row(lines[0]).value.value] + rest)
  {
    var idx, ks := [0] + sh, [row(lines[0]).value.value] + rest;
    forall j | 0 <= j < |idx| ensures 0 <= idx[j] < |lines| && row(lines[idx[j]]) == Ok(Some(ks[j])) {
      if j > 0 {
        assert idx[j] == sh[j - 1] && ks[j] == rest[j - 1];
      }
    }
    FrontIncreasing(sh, |lines|);
    FrontCovers(lines, row, sh);
  }

  lemma FrontIncreasing(sh: seq<int>, n: int)
    requires forall j :: 0 <= j < |sh| ==> 1 <= sh[j] < n
    requires forall j, k :: 0 <= j < k < |sh| ==> sh[j] < sh[k]
    ensures forall j, k :: 0 <= j < k < |[0] + sh| ==> ([0] + sh)[j] < ([0] + sh)[k]
  {
    var idx := [0] + sh;
    forall j, k | 0 <= j < k < |idx| ensures idx[j] < idx[k] {
      assert idx[k] == sh[k - 1];
      if j > 0 {
        assert idx[j] == sh[j - 1];
      }
    }
  }

  lemma FrontCovers(lines: seq<string>, row: string -> Result<Option<seq<string>>>, sh: seq<int>)
    requires forall i :: 1 <= i < |lines| && row(lines[i]).Ok? && row(lines[i]).value.Some? ==> i in sh
    ensures forall i :: 0 <= i < |lines| && row(lines[i]).Ok? && row(lines[i]).value.Some? ==> i in [0] + sh
  {
    var idx := [0] + sh;
    forall i | 0 <= i < |lines| && row(lines[i]).Ok? && row(lines[i]).value.Some? ensures i in idx {
      if i > 0 {
        var j :| 0 <= j < |sh| && sh[j] == i;
        assert idx[j + 1] == i;
      }
    }
  }

  lemma KeptSkip(lines: seq<string>, row: string -> Result<Option<seq<string>>>, sh: seq<int>, rest: seq<seq<string>>)
    requires lines != [] && row(lines[0]).Ok? && row(lines[0]).value.None?
    requires |sh| == |rest|
    requires forall j :: 0 <= j < |sh| ==> 1 <= sh[j] < |lines| && row(lines[sh[j]]) == Ok(Some(rest[j]))
    requires forall j, k :: 0 <= j < k < |sh| ==> sh[j] < sh[k]
    requires forall i :: 1 <= i < |lines| && row(lines[i]).Ok? && row(lines[i]).value.Some? ==> i in sh
    ensures KeptAt(lines, row, [] + sh, [] + rest)
  {
    assert [] + sh == sh && [] + rest == rest;
  }

  /** The positions of the kept rows of `lines[1..]`, moved one place on, are
      positions in `lines`, still increasing, and cover every kept line after the first. */
  lemma KeptShifted(lines: seq<string>, row: string -> Result<Option<seq<string>>>, ti: seq<int>, rest: seq<seq<string>>)
    requires lines != [] && KeptAt(lines[1..], row, ti, rest)
    ensures var sh := Shifted(ti);
      && |sh| == |rest|
      && (forall j :: 0 <= j < |sh| ==> 1 <= sh[j] < |lines| && row(lines[sh[j]]) == Ok(Some(rest[j])))
      && (forall j, k :: 0 <= j < k < |sh| ==> sh[j] < sh[k])
      && (forall i :: 1 <= i < |lines| && row(lines[i]).Ok? && row(lines[i]).value.Some? ==> i in sh)
  {
    var tail := lines[1..];
    var sh := Shifted(ti);
    assert forall i :: 1 <= i < |lines| ==> lines[i] == tail[i - 1];
    forall i | 1 <= i < |lines| && row(lines[i]).Ok? && row(lines[i]).value.Some? ensures i in sh {
      assert row(tail[i - 1]) == row(lines[i]);
      var j :| 0 <= j < |ti| && ti[j] == i - 1;
      assert sh[j] == i;
    }
  }

  function Shifted(ti: seq<int>): (r: seq<int>)
    ensures |r| == |ti| && forall j :: 0 <= j < |ti| ==> r[j] == ti[j] + 1
  {
    seq(|ti|, j requires 0 <= j < |ti| => ti[j] + 1)
  }

  /** The fields of a line written as `|`-separated fields and a newline. */
  lemma FieldsOfLine(fields: seq<string>)
    requires fields != [] && Stripped(Join(fields, "|"))
    requires forall k :: 0 <= k < |fields| ==> '|' !in fields[k]
    ensures Split(Strip(Join(fields, "|") + "\n"), '|') == fields
  {
    assert "|" == ['|'];
    StripTrailingSpace(Join(fields, "|"), "\n");
    SplitJoin(fields, '|');
  }

  /** The line `sacct -P` prints for the given fields is read back field by field. */
  lemma SacctRowOf(fields: seq<string>)
    requires |fields| >= 5 && Stripped(Join(fields, "|"))
    requires forall k :: 0 <= k < |fields| ==> '|' !in fields[k]
    ensures SacctRow(Join(fields, "|") + "\n") ==
            Ok(if fields[|fields| - 1] == "COMPLETED" && fields[4] == "0:0" then Some(fields[..|fields| - 2]) else None)
  {
    FieldsOfLine(fields);
    SacctRowSplit(Join(fields, "|") + "\n", fields);
  }

  lemma SacctRowSplit(line: string, fields: seq<string>)
    requires |fields| >= 5 && Split(Strip(line), '|') == fields
    ensures SacctRow(line) ==
            Ok(if fields[|fields| - 1] == "COMPLETED" && fields[4] == "0:0" then Some(fields[..|fields| - 2]) else None)
  {
  }

  /** As written, a row of the five requested columns is never kept: its last
      field would have to be both `COMPLETED` and `0:0`. */
  lemma SacctNeverKept(fields: seq<string>)
    requires |fields| == 5 && Stripped(Join(fields, "|"))
    requires forall k :: 0 <= k < |fields| ==> '|' !in fields[k]
    ensures SacctRow(Join(fields, "|") + "\n") == Ok(None)
  {
    SacctRowOf(fields);
    assert |"COMPLETED"| != |"0:0"|;
  }

  /** The row test as evidently intended: the exit code is the fourth column
      (index 3), the state the last. */
  function SacctRowIntended(line: string): (r: Result<Option<seq<string>>>)
    ensures var f := Split(Strip(line), '|');
      && (r.Crash? <==> |f| < 4)
      && (r.Crash? ==> r.message == IndexError)
      && (r.Ok? && r.value.Some? ==> f[|f| - 1] == "COMPLETED" && f[3] == "0:0" && |r.value.value| == |f| - 2 && r.value.value <= f)
      && (r.Ok? && r.value.None? ==> f[|f| - 1] != "COMPLETED" || f[3] != "0:0")
  {
    var f := Split(Strip(line), '|');
    if |f| < 4 then Crash(IndexError)
    else if f[|f| - 1] != "COMPLETED" || f[3] != "0:0" then Ok(None)
    else Ok(Some(f[..|f| - 2]))
  }

  /** With the intended test, a row of `MaxRSS`, `TotalCPU`, `Elapsed`, `ExitCode`
      and `State` is kept exactly when the job completed with exit code `0:0`,
      and gives its memory, CPU time and elapsed time. */
  lemma SacctRowIntendedOf(fields: seq<string>)
    requires |fields| == 5 && Stripped(Join(fields, "|"))
    requires forall k :: 0 <= k < |fields| ==> '|' !in fields[k]
    ensures SacctRowIntended(Join(fields, "|") + "\n") ==
            Ok(if fields[4] == "COMPLETED" && fields[3] == "0:0" then Some(fields[..3]) else None)
  {
    FieldsOfLine(fields);
    SacctIntendedSplit(Join(fields, "|") + "\n", fields);
  }

  lemma SacctIntendedSplit(line: string, fields: seq<string>)
    requires |fields| >= 4 && Split(Strip(line), '|') == fields
    ensures SacctRowIntended(line) ==
            Ok(if fields[|fields| - 1] == "COMPLETED" && fields[3] == "0:0" then Some(fields[..|fields| - 2]) else None)
  {
  }

  /** The same for a `bjobs` line. */
  lemma BjobsRowOf(fields: seq<string>)
    requires |fields| >= 3 && Stripped(Join(fields, "|"))
    requires forall k :: 0 <= k < |fields| ==> '|' !in fields[k]
    ensures BjobsRow(Join(fields, "|") + "\n") ==
            Ok(if fields[|fields| - 3..] == ["-", "-", "DONE"] then Some(fields[..3]) else None)
  {
    FieldsOfLine(fields);
    BjobsRowSplit(Join(fields, "|") + "\n", fields);
  }

  lemma BjobsRowSplit(line: string, fields: seq<string>)
    requires |fields| >= 3 && Split(Strip(line), '|') == fields
    ensures BjobsRow(line) == Ok(if fields[|fields| - 3..] == ["-", "-", "DONE"] then Some(fields[..3]) else None)
  {
    var n := |fields|;
    var t := fields[n - 3..];
    assert t[0] == fields[n - 3] && t[1] == fields[n - 2] && t[2] == fields[n - 1];
    assert t == ["-", "-", "DONE"] <==> t[0] == "-" && t[1] == "-" && t[2] == "DONE";
  }

  // ---------------------------------------------------------------------------
  // SGE: parallel environment and memory per slot

  const PeSlotsRule: seq<string> := ["allocation_rule", "$pe_slots"]

  /** A parallel environment keeps all of a job's slots on one host: some line
      of its `qconf -sp` output splits into exactly `allocation_rule $pe_slots`. */
  predicate PeSuitable(config: string) {
    exists line :: line in Split(config, '\n') && SplitWs(line) == PeSlotsRule
  }

  /** The first suitable name, given each name's `qconf -sp` output. */
  function FirstSuitable(names: seq<string>, config: string -> string): (r: Option<string>)
    ensures r.Some? ==> exists i :: 0 <= i < |names| && names[i] == r.value && PeSuitable(config(names[i]))
                                     && forall j :: 0 <= j < i ==> !PeSuitable(config(names[j]))
    ensures r.None? <==> forall i :: 0 <= i < |names| ==> !PeSuitable(config(names[i]))
  {
    if names == [] then None
    else if PeSuitable(config(names[0])) then Some(names[0])
    else
      var r := FirstSuitable(names[1..], config);
      assert forall i :: 1 <= i < |names| ==> names[i] == names[1..][i - 1];
      r
  }

  lemma RuleWords()
    ensures NoSpace(PeSlotsRule[0]) && NoSpace(PeSlotsRule[1])
  {
  }

  /** The two words of the rule, any whitespace apart, split back into the rule. */
  lemma RuleLine(gap: string)
    requires gap != [] && AllSpace(gap)
    ensures SplitWs(PeSlotsRule[0] + gap + PeSlotsRule[1]) == PeSlotsRule
  {
    RuleWords();
    SplitWsTwo(PeSlotsRule[0], gap, PeSlotsRule[1]);
  }

  /** A configuration with the rule on one of its lines, its two words apart,
      is suitable. */
  lemma PeSuitableOf(lines: seq<string>, i: nat, gap: string)
    requires forall k :: 0 <= k < |lines| ==> '\n' !in lines[k]
    requires i < |lines| && gap != [] && AllSpace(gap)
    requires lines[i] == "allocation_rule" + gap + "$pe_slots"
    ensures PeSuitable(Join(lines, "\n"))
  {
    assert "\n" == ['\n'];
    SplitJoin(lines, '\n');
    assert lines[i] in Split(Join(lines, "\n"), '\n');
    RuleLine(gap);
  }

  lemma ScaleBounds(a: real, b: real, lo: real, hi: real)
    requires b > 0.0 && lo <= a / b < hi
    ensures lo * b <= a < hi * b
  {
    assert a / b * b == a;
  }

  /** `int(m / n)` is the quotient `t` exactly when `t * n <= m < (t + 1) * n`. */
  lemma QuotientBounds(m: int, n: int, t: int)
    requires n >= 1
    requires t as real <= m as real / n as real < t as real + 1.0
    ensures t * n <= m < (t + 1) * n
  {
    ScaleBounds(m as real, n as real, t as real, t as real + 1.0);
    assert (t * n) as real == t as real * n as real;
    assert ((t + 1) * n) as real == (t as real + 1.0) * n as real;
  }

  lemma QuotientAtLeastOne(m: int, n: int)
    requires n >= 1 && m >= n
    ensures m as real / n as real >= 1.0
  {
    if m as real / n as real < 1.0 {
      ScaleBounds(m as real, n as real, 0.0, 1.0);
    }
  }

  /** `max(1, int(float(mem) / float(threads)))`: SGE is asked for memory per slot. */
  function MemPerSlot(mem: int, threads: int): (r: int)
    requires threads >= 1
    ensures r >= 1
    ensures mem >= threads ==> r * threads <= mem < (r + 1) * threads
    ensures mem < threads ==> r == 1
  {
    var t := Util.Trunc(mem as real / threads as real);
    assert mem >= threads ==> t >= 1 && t * threads <= mem < (t + 1) * threads by {
      if mem >= threads {
        QuotientAtLeastOne(mem, threads);
        QuotientBounds(mem, threads, t);
      }
    }
    assert mem < threads ==> t < 1 by {
      if mem < threads && t >= 1 {
        QuotientBounds(mem, threads, t);
      }
    }
    if t < 1 then 1 else t
  }

  // ---------------------------------------------------------------------------
  // The submit/retry loop of `_grid_execute_task`

  /** What `_grid_communicate` gives back for one submission. */
  datatype Reply = Reply(cmd: string, out: string, err: string, retcode: int)

  /** The resources one submission asks for. */
  datatype Request = Request(mem: int, time: int, threads: int)

  datatype Ending =
    | Succeeded(out: string, err: string)   // the job ran; its ID is read from this output
    | GaveUp(exc: Option<string>)           // the handler said not to go on
    | HandlerRaised(message: string)        // the handler raised
    | NoReply                               // the scripted replies ran out

  /** The requests submitted, one per reply used, and how the loop ended. */
  datatype Attempts = Attempts(requests: seq<Request>, ending: Ending)

  /** The first request: `map(intatleast1, perf_obj)`. */
  function FirstRequest(perf: (real, real, real)): (r: Request)
    ensures r.mem >= 1 && r.time >= 1 && r.threads >= 1
    ensures perf.0 >= 1.0 ==> r.mem as real <= perf.0 < r.mem as real + 1.0
    ensures perf.1 >= 1.0 ==> r.time as real <= perf.1 < r.time as real + 1.0
    ensures perf.2 >= 1.0 ==> r.threads as real <= perf.2 < r.threads as real + 1.0
    ensures perf.0 < 1.0 ==> r.mem == 1
    ensures perf.1 < 1.0 ==> r.time == 1
    ensures perf.2 < 1.0 ==> r.threads == 1
  {
    Request(Util.IntAtLeast1(perf.0), Util.IntAtLeast1(perf.1), Util.IntAtLeast1(perf.2))
  }

  /** A backend's failure handler as the loop sees it: the reply of a failed
      submission and the request that was submitted. */
  type Handler = (Reply, Request) -> Result<Verdict>

  /** The handler as the loop calls it: `tries` is 1 on every call. */
  function Classify(b: Backend, esc: Escalation): Handler {
    (rp: Reply, rq: Request) => HandleGridFail(b, esc, rp.cmd, rp.out, rp.err, rp.retcode, 1, rq.mem, rq.time)
  }

  /** The loop over a script of replies, from the request `rq` on. */
  function Retry(handler: Handler, replies: seq<Reply>, rq: Request): (r: Attempts)
    ensures |r.requests| <= |replies|
    ensures replies != [] ==> r.requests != [] && r.requests[0] == rq
    decreases |replies|
  {
    if replies == [] then Attempts([], NoReply)
    else
      var rp := replies[0];
      if rp.retcode == 0 then Attempts([rq], Succeeded(rp.out, rp.err))
      else match handler(rp, rq)
        case Crash(m) => Attempts([rq], HandlerRaised(m))
        case Ok(v) =>
          if !v.keepGoing then Attempts([rq], GaveUp(v.exc))
          else
            var rest := Retry(handler, replies[1..], Request(v.mem, v.time, rq.threads));
            Attempts([rq] + rest.requests, rest.ending)
  }

  /** The handler asked to go on after reply `rp` to request `rq`. */
  predicate GoesOn(handler: Handler, rp: Reply, rq: Request) {
    rp.retcode != 0 && handler(rp, rq).Ok? && handler(rp, rq).value.keepGoing
  }

  /** The request submitted after a failure the handler wants retried. */
  function Next(handler: Handler, rp: Reply, rq: Request): Request
    requires GoesOn(handler, rp, rq)
  {
    Request(handler(rp, rq).value.mem, handler(rp, rq).value.time, rq.threads)
  }

  /** Resubmission happens exactly after a failure whose handler said to keep
      going, with the handler's memory and time as they are (no clamping) and
      the same threads. */
  lemma {:induction false} RetryChain(handler: Handler, replies: seq<Reply>, rq: Request)
    ensures var r := Retry(handler, replies, rq);
      forall k :: 0 <= k < |r.requests| - 1 ==>
        GoesOn(handler, replies[k], r.requests[k]) && r.requests[k + 1] == Next(handler, replies[k], r.requests[k])
    decreases |replies|
  {
    var r := Retry(handler, replies, rq);
    if replies != [] && GoesOn(handler, replies[0], rq) {
      var rq' := Next(handler, replies[0], rq);
      var rest := Retry(handler, replies[1..], rq');
      RetryChain(handler, replies[1..], rq');
      assert r.requests == [rq] + rest.requests;
      forall k | 1 <= k < |r.requests| - 1
        ensures replies[k] == replies[1..][k - 1] && r.requests[k] == rest.requests[k - 1]
                && r.requests[k + 1] == rest.requests[k]
      {
      }
    }
  }

  /** Every request asks for the threads of the first. */
  lemma {:induction false} RetryThreads(handler: Handler, replies: seq<Reply>, rq: Request)
    ensures forall k :: 0 <= k < |Retry(handler, replies, rq).requests| ==> Retry(handler, replies, rq).requests[k].threads == rq.threads
    decreases |replies|
  {
    if replies != [] && GoesOn(handler, replies[0], rq) {
      var rq' := Next(handler, replies[0], rq);
      RetryThreads(handler, replies[1..], rq');
      assert Retry(handler, replies, rq).requests == [rq] + Retry(handler, replies[1..], rq').requests;
    }
  }

  /** The loop's ending is decided by the last reply used: it stops right after
      the first success, and after a failure only when the handler raises or
      says not to go on; the script runs out only when every reply asked for
      another submission. */
  lemma {:induction false} RetryEnding(handler: Handler, replies: seq<Reply>, rq: Request)
    ensures var r := Retry(handler, replies, rq);
      var n := |r.requests|;
      && (r.ending.NoReply? <==> n == |replies| && (n == 0 || GoesOn(handler, replies[n - 1], r.requests[n - 1])))
      && (r.ending.Succeeded? <==> n > 0 && replies[n - 1].retcode == 0)
      && (r.ending.Succeeded? ==> r.ending == Succeeded(replies[n - 1].out, replies[n - 1].err))
      && (r.ending.GaveUp? ==>
            n > 0 && replies[n - 1].retcode != 0 && handler(replies[n - 1], r.requests[n - 1]).Ok? &&
            handler(replies[n - 1], r.requests[n - 1]).value == Verdict(r.ending.exc, false, handler(replies[n - 1], r.requests[n - 1]).value.mem, handler(replies[n - 1], r.requests[n - 1]).value.time))
      && (r.ending.HandlerRaised? ==>
            n > 0 && replies[n - 1].retcode != 0 && handler(replies[n - 1], r.requests[n - 1]) == Crash(r.ending.message))
    decreases |replies|
  {
    if replies != [] && GoesOn(handler, replies[0], rq) {
      var rq' := Next(handler, replies[0], rq);
      var rest := Retry(handler, replies[1..], rq');
      RetryEnding(handler, replies[1..], rq');
      var r := Retry(handler, replies, rq);
      assert r.requests == [rq] + rest.requests && r.ending == rest.ending;
      var n := |r.requests|;
      if |rest.requests| > 0 {
        assert replies[n - 1] == replies[1..][n - 2] && r.requests[n - 1] == rest.requests[n - 2];
      }
    }
  }

  /** Only Slurm's handler ever asks to go on, so only Slurm resubmits. */
  lemma OnlySlurmRetries(b: Backend, esc: Escalation, replies: seq<Reply>, rq: Request)
    requires b != Slurm
    ensures |Retry(Classify(b, esc), replies, rq).requests| <= 1
  {
    if replies != [] && replies[0].retcode != 0 {
      var v := HandleGridFail(b, esc, replies[0].cmd, replies[0].out, replies[0].err, replies[0].retcode, 1, rq.mem, rq.time);
      assert Classify(b, esc)(replies[0], rq) == v;
    }
  }

  /** What the model reports when the script of replies ends while the loop
      would submit again; the program itself would go on submitting. */
  const ScriptEnded: string := "no further reply"

  /** How the loop ended, from the first request `map(intatleast1, perf_obj)`. */
  function EndingOf(b: Backend, esc: Escalation, replies: seq<Reply>, perf: (real, real, real)): Ending {
    Retry(Classify(b, esc), replies, FirstRequest(perf)).ending
  }

  /** `_grid_execute_task(task, perf_obj)`: `(maybe_exc, task_id)`, or what it raised.
      `counter` is the Dummy runner's next job number. */
  function Outcome(b: Backend, esc: Escalation, counter: nat, replies: seq<Reply>, perf: (real, real, real)): (r: Result<(Option<string>, Option<JobId>)>)
    ensures var e := EndingOf(b, esc, replies, perf);
      && (r.Ok? && r.value.1.Some? <==> e.Succeeded? && JobIdOf(b, counter, e.out, e.err).Ok?)
      && (r.Ok? && r.value.1.Some? ==> r.value == (None, Some(JobIdOf(b, counter, e.out, e.err).value)))
      && (r.Ok? && r.value.1.None? <==> e.GaveUp?)
      && (r.Ok? && r.value.1.None? ==> r.value.0 == e.exc)
      && (e.HandlerRaised? ==> r == Crash(e.message))
      && (e.NoReply? ==> r == Crash(ScriptEnded))
  {
    match EndingOf(b, esc, replies, perf)
    case Succeeded(out, err) =>
      (match JobIdOf(b, counter, out, err)
       case Ok(id) => Ok((None, Some(id)))
       case Crash(m) => Crash(m))
    case GaveUp(exc) => Ok((exc, None))
    case HandlerRaised(m) => Crash(m)
    case NoReply => Crash(ScriptEnded)
  }

  /** A first submission that succeeds gives its job ID and no exception. */
  lemma OutcomeFirstSuccess(b: Backend, esc: Escalation, counter: nat, replies: seq<Reply>, perf: (real, real, real))
    requires replies != [] && replies[0].retcode == 0
    ensures Outcome(b, esc, counter, replies, perf) ==
            match JobIdOf(b, counter, replies[0].out, replies[0].err)
            case Ok(id) => Ok((None, Some(id)))
            case Crash(m) => Crash(m)
  {
  }

  /** A failed first submission on the Dummy runner or SGE is reported with the
      command and its output, and no job ID. */
  lemma OutcomeCommandFailed(b: Backend, esc: Escalation, counter: nat, replies: seq<Reply>, perf: (real, real, real))
    requires b == Dummy || b == SGE
    requires replies != [] && replies[0].retcode != 0
    ensures Outcome(b, esc, counter, replies, perf) ==
            Ok((Some(FailureText(CommandFailed, replies[0].cmd, replies[0].out, replies[0].err)), None))
  {
    var rq := FirstRequest(perf);
    assert Classify(b, esc)(replies[0], rq) ==
           HandleGridFail(b, esc, replies[0].cmd, replies[0].out, replies[0].err, replies[0].retcode, 1, rq.mem, rq.time);
  }

  /** LSF never reports an exception: a failure it gives up on ends with neither
      an exception nor a job ID. */
  lemma OutcomeLsfSilent(esc: Escalation, counter: nat, replies: seq<Reply>, perf: (real, real, real))
    requires Outcome(LSF, esc, counter, replies, perf).Ok?
    ensures Outcome(LSF, esc, counter, replies, perf).value.0.None?
  {
    var rq := FirstRequest(perf);
    if replies != [] && replies[0].retcode != 0 {
      assert Classify(LSF, esc)(replies[0], rq) ==
             HandleGridFail(LSF, esc, replies[0].cmd, replies[0].out, replies[0].err, replies[0].retcode, 1, rq.mem, rq.time);
    }
  }

  /** Slurm gives up, with its message, on a failure that is neither for memory
      nor for time. */
  lemma OutcomeSlurmGivesUp(esc: Escalation, counter: nat, replies: seq<Reply>, perf: (real, real, real))
    requires replies != [] && replies[0].retcode != 0
    requires !MemoryHit(replies[0].out + replies[0].err) && !TimeHit(replies[0].out + replies[0].err)
    ensures Outcome(Slurm, esc, counter, replies, perf) ==
            Ok((Some(FailureText(SrunFailed, replies[0].cmd, replies[0].out, replies[0].err)), None))
  {
    var rq := FirstRequest(perf);
    assert Classify(Slurm, esc)(replies[0], rq) ==
           HandleGridFail(Slurm, esc, replies[0].cmd, replies[0].out, replies[0].err, replies[0].retcode, 1, rq.mem, rq.time);
  }

  // ---------------------------------------------------------------------------
  // The Dummy runner's `_jobstats`

  const KeyError: string := "KeyError"

  /** `map(self.task_performance_info.__getitem__, ids)`: the timing recorded for
      each job, or KeyError for one that has none. */
  function DummyJobstats(info: map<nat, seq<string>>, ids: seq<JobId>): (r: Result<seq<seq<string>>>)
    ensures r.Ok? <==> forall i :: 0 <= i < |ids| ==> ids[i].Counted? && ids[i].n in info
    ensures r.Crash? ==> r.message == KeyError
    ensures r.Ok? ==> |r.value| == |ids| && forall i :: 0 <= i < |ids| ==> r.value[i] == info[ids[i].n]
  {
    if ids == [] then Ok([])
    else if !ids[0].Counted? || ids[0].n !in info then Crash(KeyError)
    else
      var rest := DummyJobstats(info, ids[1..]);
      assert forall i :: 1 <= i < |ids| ==> ids[i] == ids[1..][i - 1];
      match rest
      case Crash(m) => Crash(m)
      case Ok(vs) => Ok([info[ids[0].n]] + vs)
  }

  // ---------------------------------------------------------------------------
  // SGE's `find_suitable_pe`

  /** The exception `raise InvalidCommand(...)` actually raises: the name is not
      imported in the module. */
  const InvalidCommandError: string := "NameError: global name 'InvalidCommand' is not defined"

  /** `find_suitable_pe()` from an empty cache, given what `qconf -spl` printed
      and what `qconf -sp NAME` prints for each name. */
  function ChoosePe(names: string, config: string -> string): (r: Result<string>)
    ensures r.Crash? ==> r.message == InvalidCommandError
    ensures names == [] ==> r.Crash?
    ensures r.Ok? <==> names != [] && FirstSuitable(SplitWs(Strip(names)), config).Some?
    ensures r.Ok? ==> r.value == FirstSuitable(SplitWs(Strip(names)), config).value && r.value != []
  {
    if names == [] then Crash(InvalidCommandError)
    else match FirstSuitable(SplitWs(Strip(names)), config)
      case None => Crash(InvalidCommandError)
      case Some(n) => Ok(n)
  }

  /** `find_suitable_pe()` with `cached` in `_pe_name`: a truthy cached name
      is returned as it is; otherwise the environment is chosen afresh. */
  function PeFor(cached: Option<string>, names: string, config: string -> string): (r: Result<string>)
    ensures r.Ok? ==> r.value != []
  {
    if cached.Some? && cached.value != [] then Ok(cached.value) else ChoosePe(names, config)
  }

  /** `_pe_name` after the lookups of one task: SGE caches the name it found;
      no other backend looks one up. */
  function PeAfter(b: Backend, cached: Option<string>, names: string, config: string -> string): Option<string> {
    if b == SGE && PeFor(cached, names, config).Ok? then Some(PeFor(cached, names, config).value) else cached
  }

  /** Once a lookup has succeeded, every later one gives the same name from the
      cache, whatever `qconf` would print by then. */
  lemma PeCached(cached: Option<string>, names: string, config: string -> string, names': string, config': string -> string)
    requires PeFor(cached, names, config).Ok?
    ensures var n := PeFor(cached, names, config).value;
      PeFor(Some(n), names', config') == Ok(n) && PeAfter(SGE, Some(n), names', config') == Some(n)
  {
  }

  /** Looking up again after the lookups of one task changes nothing and
      cannot fail when the first lookup did not. */
  lemma PeAfterStable(b: Backend, cached: Option<string>, names: string, config: string -> string)
    ensures var p := PeAfter(b, cached, names, config);
      && PeAfter(b, p, names, config) == p
      && (b == SGE && PeFor(p, names, config).Crash? <==> b == SGE && PeFor(cached, names, config).Crash?)
  {
  }

  // ---------------------------------------------------------------------------
  // `_grid_summarize`

  /** A task as far as the runner looks at it. */
  datatype Task = Task(name: string, actions: seq<string>)

  /** An accounting record: peak memory in megabytes, CPU hours, wall-clock hours. */
  datatype Stat = Stat(rssMb: real, cpuHours: real, clockHours: real)

  predicate EntryLe(a: (JobId, Task), b: (JobId, Task)) { JobIdLe(a.0, b.0) }

  predicate StatLe(a: Stat, b: Stat) { a.rssMb <= b.rssMb }

  lemma EntryLeTotalPreorder()
    ensures TotalPreorder(EntryLe)
  {
    JobIdLeTotalPreorder();
    forall x: (JobId, Task), y: (JobId, Task) ensures EntryLe(x, y) || EntryLe(y, x) {
      assert JobIdLe(x.0, y.0) || JobIdLe(y.0, x.0);
    }
    forall x: (JobId, Task), y: (JobId, Task), z: (JobId, Task) | EntryLe(x, y) && EntryLe(y, z)
      ensures EntryLe(x, z)
    {
      assert JobIdLe(x.0, y.0) && JobIdLe(y.0, z.0);
    }
  }

  lemma StatLeTotalPreorder()
    ensures TotalPreorder(StatLe)
  {
  }

  /** `filter(bool, chunk)`: drops the `None` padding; entries are pairs, never false. */
  function Somes<T(!new)>(xs: seq<Option<T>>): (r: seq<T>)
    ensures |r| <= |xs|
    ensures forall x :: x in r <==> Some(x) in xs
  {
    if xs == [] then []
    else
      var rest := Somes(xs[1..]);
      assert forall y :: y in xs[1..] ==> y in xs;
      assert forall y :: y in xs ==> y == xs[0] || y in xs[1..];
      if xs[0].Some? then [xs[0].value] + rest else rest
  }

  lemma {:induction false} SomesAppend<T(!new)>(a: seq<Option<T>>, b: seq<Option<T>>)
    ensures Somes(a + b) == Somes(a) + Somes(b)
  {
    if a != [] {
      assert (a + b)[0] == a[0] && (a + b)[1..] == a[1..] + b;
      SomesAppend(a[1..], b);
    } else {
      assert a + b == b;
    }
  }

  function Wrap<T>(xs: seq<T>): (r: seq<Option<T>>)
    ensures |r| == |xs| && forall i :: 0 <= i < |xs| ==> r[i] == Some(xs[i])
  {
    seq(|xs|, i requires 0 <= i < |xs| => Some(xs[i]))
  }

  lemma {:induction false} SomesWrap<T(!new)>(xs: seq<T>)
    ensures Somes(Wrap(xs)) == xs
  {
    if xs != [] {
      assert Wrap(xs)[1..] == Wrap(xs[1..]);
      SomesWrap(xs[1..]);
    }
  }

  lemma {:induction false} SomesPad<T(!new)>(n: nat)
    ensures Somes<T>(Util.Pad<Option<T>>(None, n)) == []
  {
    if n > 0 {
      var p: seq<Option<T>> := Util.Pad(None, n);
      assert p[1..] == Util.Pad(None, n - 1);
      SomesPad<T>(n - 1);
    }
  }

  /** Python's `zip`: as many pairs as the shorter side has elements. */
  function Zip<A, B>(xs: seq<A>, ys: seq<B>): (r: seq<(A, B)>)
    ensures |r| == if |xs| <= |ys| then |xs| else |ys|
    ensures forall i :: 0 <= i < |r| ==> r[i] == (xs[i], ys[i])
  {
    if xs == [] || ys == [] then [] else [(xs[0], ys[0])] + Zip(xs[1..], ys[1..])
  }

  function Ids(es: seq<(JobId, Task)>): (r: seq<JobId>)
    ensures |r| == |es| && forall i :: 0 <= i < |es| ==> r[i] == es[i].0
  {
    seq(|es|, i requires 0 <= i < |es| => es[i].0)
  }

  /** The second components of a list of pairs, in order. */
  function Seconds<A, B>(ps: seq<(A, B)>): (r: seq<B>)
    ensures |r| == |ps| && forall i :: 0 <= i < |ps| ==> r[i] == ps[i].1
  {
    seq(|ps|, i requires 0 <= i < |ps| => ps[i].1)
  }

  const UnpackError: string := "ValueError: need more than 0 values to unpack"

  /** One chunk: the entries sorted by job ID, the statistics of those IDs sorted
      by their own first field (peak memory), and the two zipped. */
  function SummarizeChunk(chunk: seq<Option<(JobId, Task)>>, jobstats: seq<JobId> -> seq<Stat>): (r: Result<seq<(Task, Stat)>>)
    ensures r.Crash? <==> Somes(chunk) == []
  {
    var es := Somes(chunk);
    if es == [] then Crash(UnpackError)
    else
      var sorted := SortBy(es, EntryLe);
      Ok(Zip(Seconds(sorted), SortBy(jobstats(Ids(sorted)), StatLe)))
  }

  /** The pairs of one chunk: as many as the shorter of entries and statistics;
      the tasks in ascending job-ID order; the statistics in ascending peak
      memory, so a task is paired with its rank's record, not its own. */
  lemma ChunkPairs(chunk: seq<Option<(JobId, Task)>>, jobstats: seq<JobId> -> seq<Stat>)
    requires Somes(chunk) != []
    ensures var sorted := SortBy(Somes(chunk), EntryLe);
            var stats := SortBy(jobstats(Ids(sorted)), StatLe);
            var r := SummarizeChunk(chunk, jobstats);
            && multiset(sorted) == multiset(Somes(chunk))
            && SortedBy(Ids(sorted), JobIdLe)
            && r.Ok?
            && |r.value| == (if |sorted| <= |stats| then |sorted| else |stats|)
            && (forall i :: 0 <= i < |r.value| ==> r.value[i] == (sorted[i].1, stats[i]))
            && SortedBy(Seconds(r.value), StatLe)
            && multiset(stats) == multiset(jobstats(Ids(sorted)))
  {
    var sorted := SortBy(Somes(chunk), EntryLe);
    var stats := SortBy(jobstats(Ids(sorted)), StatLe);
    EntryLeTotalPreorder();
    SortBySorted(Somes(chunk), EntryLe);
    StatLeTotalPreorder();
    SortBySorted(jobstats(Ids(sorted)), StatLe);
    SortedIds(sorted);
    ZipStatsSorted(Seconds(sorted), stats);
  }

  /** Entries sorted by job ID have their IDs in order. */
  lemma SortedIds(sorted: seq<(JobId, Task)>)
    requires SortedBy(sorted, EntryLe)
    ensures SortedBy(Ids(sorted), JobIdLe)
  {
    forall i, j | 0 <= i < j < |sorted| ensures JobIdLe(Ids(sorted)[i], Ids(sorted)[j]) {
      assert EntryLe(sorted[i], sorted[j]);
    }
  }

  /** Zipping keeps the statistics in their order. */
  lemma ZipStatsSorted(ts: seq<Task>, stats: seq<Stat>)
    requires SortedBy(stats, StatLe)
    ensures SortedBy(Seconds(Zip(ts, stats)), StatLe)
  {
    var r := Zip(ts, stats);
    forall i, j | 0 <= i < j < |r| ensures StatLe(Seconds(r)[i], Seconds(r)[j]) {
      assert Seconds(r)[i] == stats[i] && Seconds(r)[j] == stats[j];
    }
  }

  /** With at least one record per ID asked for, a chunk gives one pair per entry. */
  lemma ChunkCount(chunk: seq<Option<(JobId, Task)>>, jobstats: seq<JobId> -> seq<Stat>)
    requires Somes(chunk) != [] && forall ids :: |jobstats(ids)| >= |ids|
    ensures SummarizeChunk(chunk, jobstats).Ok? && |SummarizeChunk(chunk, jobstats).value| == |Somes(chunk)|
  {
    var sorted := SortBy(Somes(chunk), EntryLe);
    assert |jobstats(Ids(sorted))| >= |Ids(sorted)|;
  }

  /** No chunk is padding only. */
  predicate Filled(chunks: seq<seq<Option<(JobId, Task)>>>) {
    forall j :: 0 <= j < |chunks| ==> Somes(chunks[j]) != []
  }

  lemma FilledCons(chunks: seq<seq<Option<(JobId, Task)>>>)
    requires chunks != []
    ensures Filled(chunks) <==> Somes(chunks[0]) != [] && Filled(chunks[1..])
  {
    assert forall j :: 1 <= j < |chunks| ==> chunks[j] == chunks[1..][j - 1];
  }

  function SummarizeChunks(chunks: seq<seq<Option<(JobId, Task)>>>, jobstats: seq<JobId> -> seq<Stat>): (r: Result<seq<(Task, Stat)>>)
    ensures r.Ok? <==> Filled(chunks)
  {
    if chunks == [] then Ok([])
    else
      var first := SummarizeChunk(chunks[0], jobstats);
      var rest := SummarizeChunks(chunks[1..], jobstats);
      FilledCons(chunks);
      if first.Crash? then Crash(first.message)
      else if rest.Crash? then Crash(rest.message)
      else Ok(first.value + rest.value)
  }

  /** `_grid_summarize()` over the entries of `id_task_map` in iteration order:
      chunks of 100, the last padded with `None`. */
  function Summarize(entries: seq<(JobId, Task)>, jobstats: seq<JobId> -> seq<Stat>): Result<seq<(Task, Stat)>> {
    SummarizeChunks(Util.Partition(Wrap(entries), 100, None), jobstats)
  }

  /** Every chunk of a partition starts with an element of the input. */
  lemma {:induction false} PartitionHeads<T>(s: seq<T>, k: int, pad: T)
    ensures forall j :: 0 <= j < |Util.Partition(s, k, pad)| ==> Util.Partition(s, k, pad)[j][0] in s
    decreases |s|
  {
    var r := Util.Partition(s, k, pad);
    if k >= 1 && s != [] && |s| > k {
      PartitionHeads(s[k..], k, pad);
      assert r == [s[..k]] + Util.Partition(s[k..], k, pad);
      forall j | 0 <= j < |r| ensures r[j][0] in s {
        if j == 0 {
          assert r[0][0] == s[0];
        } else {
          assert r[j] == Util.Partition(s[k..], k, pad)[j - 1];
          assert forall x :: x in s[k..] ==> x in s;
        }
      }
    } else if k >= 1 && s != [] {
      assert r[0][0] == s[0];
    }
  }

  /** No chunk is padding only, so summarizing never hits the unpacking error. */
  lemma SummarizeOk(entries: seq<(JobId, Task)>, jobstats: seq<JobId> -> seq<Stat>)
    ensures Summarize(entries, jobstats).Ok?
  {
    var chunks := Util.Partition(Wrap(entries), 100, None);
    PartitionHeads(Wrap(entries), 100, None);
    forall j | 0 <= j < |chunks| ensures Somes(chunks[j]) != [] {
      var h := chunks[j][0];
      assert h in Wrap(entries);
      assert h.Some?;
      assert h.value in Somes(chunks[j]);
    }
  }

  /** With a record for every job, the summary has one pair per entry. */
  lemma {:induction false} SummarizeChunksCount(chunks: seq<seq<Option<(JobId, Task)>>>, jobstats: seq<JobId> -> seq<Stat>)
    requires forall ids :: |jobstats(ids)| >= |ids|
    requires Filled(chunks)
    ensures |SummarizeChunks(chunks, jobstats).value| == |Somes(Util.Concat(chunks))|
  {
    if chunks != [] {
      FilledCons(chunks);
      SummarizeChunksCount(chunks[1..], jobstats);
      ChunkCount(chunks[0], jobstats);
      SomesAppend(chunks[0], Util.Concat(chunks[1..]));
    }
  }

  lemma SummarizeCount(entries: seq<(JobId, Task)>, jobstats: seq<JobId> -> seq<Stat>)
    requires forall ids :: |jobstats(ids)| >= |ids|
    ensures Summarize(entries, jobstats).Ok? && |Summarize(entries, jobstats).value| == |entries|
  {
    SummarizeOk(entries, jobstats);
    var s := Wrap(entries);
    var chunks := Util.Partition(s, 100, None);
    assert Filled(chunks);
    SummarizeChunksCount(chunks, jobstats);
    var padded := Util.Concat(chunks);
    assert padded == s + Util.Pad(None, |padded| - |s|);
    SomesAppend(s, Util.Pad(None, |padded| - |s|));
    SomesWrap(entries);
    SomesPad<(JobId, Task)>(|padded| - |s|);
  }
}
