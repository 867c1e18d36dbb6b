// What the command loop does with a script, tick by tick, stated without the loop.
module ScriptMeaning {
  import opened Wrappers

  import opened CommandLoop
  import opened CommandText

  // Totals before a tick: strings submitted, commands begun that came from the
  // queue, polls that found the queue empty, and commands broadcast.
  datatype Count = Count(submitted: nat, begun: nat, idle: nat, jobs: nat)

  // do() of cmd is over: a deck was broadcast exactly as it was read, and do()
  // raised if it was going to, or if there was no deck to read.
  predicate Ran(j: Job, id: Option<nat>, cmd: Command, o: Outcome) {
    && j.id == id && j.cmd == cmd
    && j.deck == (if cmd.RunDeck? then o.deck else None)
    && j.end == if !cmd.Quit? && (o.raises || (cmd.RunDeck? && o.deck.None?)) then Raised else Returned
  }

  // One tick, between the totals a and b; `all` lists the accepted commands.
  // Every string it submits is accepted.  Then the oldest command not yet begun
  // is run; where there is none, every eleventh such poll runs a heartbeat.
  ghost predicate TickDone(tick: Tick, a: Count, b: Count, all: seq<Entry>, jobs: seq<Job>) {
    && a.begun <= a.submitted && b.submitted == a.submitted + |tick.arrivals| <= |all| && b.jobs <= |jobs|
    && (forall k :: 0 <= k < |tick.arrivals| ==> Parse(tick.arrivals[k]) == Ok(all[a.submitted + k].cmd))
    && (if a.begun < b.submitted then
          && b.begun == a.begun + 1 && b.idle == a.idle && b.jobs == a.jobs + 1
          && Ran(jobs[a.jobs], Some(a.begun), all[a.begun].cmd, tick.outcome)
        else
          && b.begun == a.begun && b.idle == a.idle + 1
          && (if a.idle % 11 == 10 then b.jobs == a.jobs + 1 && Ran(jobs[a.jobs], None, Nop, tick.outcome)
              else b.jobs == a.jobs))
  }

  // Submission k of a tick is the first string that cannot be parsed, m commands
  // having been accepted before the tick.
  ghost predicate StuckAt(arrivals: seq<string>, m: nat, all: seq<Entry>, k: int) {
    && 0 <= k < |arrivals| && |all| == m + k && Parse(arrivals[k]) == ValueError
    && (forall i :: 0 <= i < k ==> Parse(arrivals[i]) == Ok(all[m + i].cmd))
  }

  ghost predicate TicksDone(script: seq<Tick>, counts: seq<Count>, all: seq<Entry>, jobs: seq<Job>) {
    && 0 < |counts| <= |script| + 1 && counts[0] == Count(0, 0, 0, 0)
    && (forall i {:trigger script[i]} :: 0 <= i < |counts| - 1 ==>
          TickDone(script[i], counts[i], counts[i + 1], all, jobs))
  }

  // How a script came out: its totals before every tick and at the end, and what
  // is left in the queue, finished and broadcast.
  datatype Play = Play(counts: seq<Count>, finished: seq<Entry>, queue: seq<Entry>, jobs: seq<Job>, locked: bool,
                       stopped: bool)

  function PlayOf(counts: seq<Count>, l: Leader): Play {
    Play(counts, l.finished, l.queue, l.jobs, l.locked, l.stopped)
  }

  // The whole script.  A command is run in every tick that has one, up to and
  // including a quit, or up to a tick with a string that cannot be parsed; in
  // that tick the lock gets stuck and nothing is run any more.  Commands are
  // numbered as accepted and finished in that order.
  ghost predicate Played(script: seq<Tick>, p: Play) {
    var all, n := p.finished + p.queue, |p.counts| - 1;
    && TicksDone(script, p.counts, all, p.jobs)
    && |p.finished| == p.counts[n].begun && |p.jobs| == p.counts[n].jobs
    && (forall k :: 0 <= k < |all| ==> all[k].id == k)
    && (forall j :: 0 <= j < |p.jobs| - 1 ==> !p.jobs[j].cmd.Quit?)
    && (p.stopped <==> p.jobs != [] && p.jobs[|p.jobs| - 1].cmd.Quit?)
    && (p.stopped ==> n > 0 && p.counts[n - 1].jobs < |p.jobs|)
    && (if p.locked then
          !p.stopped && n < |script| && exists k :: StuckAt(script[n].arrivals, p.counts[n].submitted, all, k)
        else |all| == p.counts[n].submitted && (p.stopped || n == |script|))
  }

  // ---- One tick of the loop -----------------------------------------------------------

  // The submissions of a tick, up to the first that cannot be parsed.
  lemma {:induction false} ArrivalsMeaning(l: Leader, arrivals: seq<string>) returns (entries: seq<Entry>)
    requires !l.locked
    ensures var k, l' := |entries|, AddAll(l, arrivals);
      && k <= |arrivals|
      && l' == l.(queue := l.queue + entries, nextId := l.nextId + k, locked := k < |arrivals|)
      && (forall i :: 0 <= i < k ==> entries[i].id == l.nextId + i && Parse(arrivals[i]) == Ok(entries[i].cmd))
      && (k < |arrivals| ==> Parse(arrivals[k]) == ValueError)
    decreases |arrivals|
  {
    hide Parse;
    if arrivals == [] {
      entries := [];
    } else if Parse(arrivals[0]).Ok? {
      var e := Entry(l.nextId, Parse(arrivals[0]).cmd);
      var rest := ArrivalsMeaning(AddText(l, arrivals[0]), arrivals[1..]);
      entries := [e] + rest;
      assert l.queue + [e] + rest == l.queue + entries;
    } else {
      entries := [];
      LockedForGood(AddText(l, arrivals[0]), arrivals[1..]);
    }
  }

  // An iteration that runs a command.
  lemma RunsOne(l: Leader, id: Option<nat>, cmd: Command, o: Outcome)
    requires !l.stopped && !l.locked && !Busy(l)
    requires if l.queue != [] then id == Some(l.queue[0].id) && cmd == l.queue[0].cmd
             else l.nopCnt == 0 && id == None && cmd == Nop
    ensures var l' := Iterate(l, o);
      && |l'.jobs| == |l.jobs| + 1 && l'.jobs == l.jobs + [Last(l'.jobs)] && Ran(Last(l'.jobs), id, cmd, o)
      && l'.queue == (if l.queue == [] then [] else l.queue[1..])
      && l'.finished == (if l.queue == [] then l.finished else l.finished + [l.queue[0]])
      && l'.nextId == l.nextId && !l'.locked && l'.stopped == cmd.Quit?
      && l'.nopCnt == (if l.queue == [] then MAX_IDLE else l.nopCnt)
  {
    hide ToStr;
    var b := Poll(l);
    var d := Do(b, o);
    assert b.jobs[..|l.jobs|] == l.jobs && Last(b.jobs) == Job(id, cmd, None, Running);
    assert d.jobs[..|l.jobs|] == l.jobs && |d.jobs| == |l.jobs| + 1;
  }

  lemma RunsNone(l: Leader, o: Outcome)
    requires !l.stopped && !l.locked && !Busy(l) && l.queue == [] && l.nopCnt > 0
    ensures Iterate(l, o) == l.(nopCnt := l.nopCnt - 1)
  {
  }

  // ---- All ticks ----------------------------------------------------------------------

  // The state before tick |counts| - 1, if the loop gets there.
  ghost predicate InPlay(script: seq<Tick>, counts: seq<Count>, l: Leader) {
    var all, c := l.finished + l.queue, |counts| - 1;
    && 0 <= c <= |script| && TicksDone(script, counts, all, l.jobs)
    && |all| == counts[c].submitted == l.nextId && |l.finished| == counts[c].begun && |l.jobs| == counts[c].jobs
    && (forall k :: 0 <= k < |all| ==> all[k].id == k)
    && (forall j :: 0 <= j < |l.jobs| ==> !l.jobs[j].cmd.Quit? && !l.jobs[j].end.Running?)
    && l.nopCnt == MAX_IDLE - counts[c].idle % 11 && !l.locked && !l.stopped
  }

  // More commands accepted and begun leave earlier ticks as they were.
  lemma TicksKept(script: seq<Tick>, counts: seq<Count>, all: seq<Entry>, jobs: seq<Job>, all': seq<Entry>,
                  jobs': seq<Job>)
    requires TicksDone(script, counts, all, jobs) && all <= all' && jobs <= jobs'
    ensures TicksDone(script, counts, all', jobs')
  {
    hide Parse, Ran;
    forall i | 0 <= i < |counts| - 1
      ensures TickDone(script[i], counts[i], counts[i + 1], all', jobs')
    {
      assert TickDone(script[i], counts[i], counts[i + 1], all, jobs);
    }
  }

  lemma OneTickMore(script: seq<Tick>, counts: seq<Count>, b: Count, all: seq<Entry>, jobs: seq<Job>)
    requires TicksDone(script, counts, all, jobs) && |counts| <= |script|
    requires TickDone(script[|counts| - 1], counts[|counts| - 1], b, all, jobs)
    ensures TicksDone(script, counts + [b], all, jobs)
  {
    hide TickDone;
  }

  lemma IdleLeader(l: Leader)
    requires forall j :: 0 <= j < |l.jobs| ==> !l.jobs[j].end.Running?
    ensures !Busy(l)
  {
  }

  // The tick whose submissions get the lock stuck is the last one to do anything.
  lemma LockedTick(script: seq<Tick>, counts: seq<Count>, l: Leader)
    requires InPlay(script, counts, l) && |counts| <= |script|
    requires AddAll(l, script[|counts| - 1].arrivals).locked
    ensures Played(script, PlayOf(counts, AddAll(l, script[|counts| - 1].arrivals)))
  {
    hide Parse, AddAll, TicksDone;
    var n := |counts| - 1;
    var entries := ArrivalsMeaning(l, script[n].arrivals);
    var all := l.finished + l.queue + entries;
    assert l.finished + (l.queue + entries) == all;
    TicksKept(script, counts, l.finished + l.queue, l.jobs, all, l.jobs);
    assert StuckAt(script[n].arrivals, counts[n].submitted, all, |entries|);
  }

  // After the submissions of a tick that are all accepted.
  ghost predicate Arrived(script: seq<Tick>, counts: seq<Count>, l: Leader) {
    var all, c := l.finished + l.queue, |counts| - 1;
    && 0 <= c < |script| && TicksDone(script, counts, all, l.jobs)
    && |all| == counts[c].submitted + |script[c].arrivals| == l.nextId
    && counts[c].begun == |l.finished| <= counts[c].submitted && |l.jobs| == counts[c].jobs
    && (forall k :: 0 <= k < |script[c].arrivals| ==>
          Parse(script[c].arrivals[k]) == Ok(all[counts[c].submitted + k].cmd))
    && (forall k :: 0 <= k < |all| ==> all[k].id == k)
    && (forall j :: 0 <= j < |l.jobs| ==> !l.jobs[j].cmd.Quit? && !l.jobs[j].end.Running?)
    && l.nopCnt == MAX_IDLE - counts[c].idle % 11 && !l.locked && !l.stopped
  }

  lemma Arrives(script: seq<Tick>, counts: seq<Count>, l: Leader)
    requires InPlay(script, counts, l) && |counts| <= |script|
    requires !AddAll(l, script[|counts| - 1].arrivals).locked
    ensures Arrived(script, counts, AddAll(l, script[|counts| - 1].arrivals))
  {
    hide Parse, AddAll, TicksDone;
    var n := |counts| - 1;
    var entries := ArrivalsMeaning(l, script[n].arrivals);
    var all := l.finished + l.queue + entries;
    assert l.finished + (l.queue + entries) == all;
    TicksKept(script, counts, l.finished + l.queue, l.jobs, all, l.jobs);
  }

  // Where the loop stands after a tick.
  ghost predicate Stands(script: seq<Tick>, counts: seq<Count>, l: Leader) {
    if l.stopped then Played(script, PlayOf(counts, l)) else InPlay(script, counts, l)
  }

  lemma QueueTick(script: seq<Tick>, counts: seq<Count>, l: Leader) returns (b: Count)
    requires Arrived(script, counts, l) && l.queue != []
    ensures Stands(script, counts + [b], Iterate(l, script[|counts| - 1].outcome))
  {
    hide Parse, TicksDone, Iterate;
    var n, all, e := |counts| - 1, l.finished + l.queue, l.queue[0];
    var a := counts[n];
    b := Count(|all|, a.begun + 1, a.idle, a.jobs + 1);
    IdleLeader(l);
    RunsOne(l, Some(e.id), e.cmd, script[n].outcome);
    var l' := Iterate(l, script[n].outcome);
    assert all[a.begun] == e;
    assert l'.finished + l'.queue == all;
    TicksKept(script, counts, all, l.jobs, all, l'.jobs);
    OneTickMore(script, counts, b, all, l'.jobs);
  }

  lemma HeartbeatTick(script: seq<Tick>, counts: seq<Count>, l: Leader) returns (b: Count)
    requires Arrived(script, counts, l) && l.queue == [] && l.nopCnt == 0
    ensures Stands(script, counts + [b], Iterate(l, script[|counts| - 1].outcome))
  {
    hide Parse, TicksDone, Iterate;
    var n, all := |counts| - 1, l.finished + l.queue;
    var a := counts[n];
    b := Count(|all|, a.begun, a.idle + 1, a.jobs + 1);
    IdleLeader(l);
    RunsOne(l, None, Nop, script[n].outcome);
    var l' := Iterate(l, script[n].outcome);
    TicksKept(script, counts, all, l.jobs, all, l'.jobs);
    OneTickMore(script, counts, b, all, l'.jobs);
  }

  lemma SilentTick(script: seq<Tick>, counts: seq<Count>, l: Leader) returns (b: Count)
    requires Arrived(script, counts, l) && l.queue == [] && l.nopCnt > 0
    ensures Stands(script, counts + [b], Iterate(l, script[|counts| - 1].outcome))
  {
    hide Parse, TicksDone, Iterate;
    var n, all := |counts| - 1, l.finished + l.queue;
    var a := counts[n];
    b := Count(|all|, a.begun, a.idle + 1, a.jobs);
    IdleLeader(l);
    RunsNone(l, script[n].outcome);
    OneTickMore(script, counts, b, all, l.jobs);
  }

  lemma {:induction false} LockedStays(l: Leader, script: seq<Tick>)
    requires l.locked && !Busy(l)
    ensures RunScript(l, script) == l
    decreases |script|
  {
    if script == [] || l.stopped {
    } else {
      LockedForGood(l, script[0].arrivals);
      NothingToDo(l, script[0].outcome);
      LockedStays(l, script[1..]);
    }
  }

  lemma OpenTick(script: seq<Tick>, before: seq<Count>, l: Leader) returns (b: Count)
    requires InPlay(script, before, l) && |before| <= |script| && !AddAll(l, script[|before| - 1].arrivals).locked
    ensures var tick := script[|before| - 1];
      Stands(script, before + [b], Iterate(AddAll(l, tick.arrivals), tick.outcome))
  {
    Arrives(script, before, l);
    hide AddAll, Iterate, InPlay, Arrived, Stands;
    var l1 := AddAll(l, script[|before| - 1].arrivals);
    if l1.queue != [] {
      b := QueueTick(script, before, l1);
    } else if l1.nopCnt == 0 {
      b := HeartbeatTick(script, before, l1);
    } else {
      b := SilentTick(script, before, l1);
    }
  }

  lemma OneTickLess(l: Leader, script: seq<Tick>, n: nat)
    requires n <= |script|
    ensures RunScript(l, script[n..]) ==
      if n == |script| || l.stopped then l
      else RunScript(Iterate(AddAll(l, script[n].arrivals), script[n].outcome), script[n + 1..])
  {
    hide AddAll, Iterate;
    assert n < |script| ==> script[n..][1..] == script[n + 1..];
  }

  lemma StillInPlay(script: seq<Tick>, counts: seq<Count>, l: Leader)
    requires InPlay(script, counts, l)
    ensures 0 < |counts| <= |script| + 1 && !l.locked && !l.stopped && !Busy(l)
    ensures |counts| == |script| + 1 ==> Played(script, PlayOf(counts, l))
  {
    IdleLeader(l);
    hide TicksDone;
  }

  // Once the lock is stuck nothing is run.
  lemma LockedRest(script: seq<Tick>, counts: seq<Count>, l: Leader)
    requires InPlay(script, counts, l) && |counts| <= |script|
    requires AddAll(l, script[|counts| - 1].arrivals).locked
    ensures Played(script, PlayOf(counts, RunScript(l, script[|counts| - 1..])))
  {
    var n := |counts| - 1;
    StillInPlay(script, counts, l);
    LockedTick(script, counts, l);
    hide AddAll, Iterate, InPlay, Played, RunScript;
    var l1 := AddAll(l, script[n].arrivals);
    OneTickLess(l, script, n);
    SubmitKeepsJobs(l, script[n].arrivals);
    NothingToDo(l1, script[n].outcome);
    LockedStays(l1, script[n + 1..]);
  }

  // From any tick on, the loop plays the rest of the script.
  lemma {:induction false} PlaysOn(script: seq<Tick>, before: seq<Count>, l: Leader) returns (counts: seq<Count>)
    requires InPlay(script, before, l)
    ensures 0 < |before| <= |script| + 1 && Played(script, PlayOf(counts, RunScript(l, script[|before| - 1..])))
    decreases |script| - |before|
  {
    hide AddAll, Iterate, InPlay, Played, RunScript, Busy;
    var n := |before| - 1;
    StillInPlay(script, before, l);
    OneTickLess(l, script, n);
    if n == |script| {
      counts := before;
    } else if AddAll(l, script[n].arrivals).locked {
      LockedRest(script, before, l);
      counts := before;
    } else {
      var b := OpenTick(script, before, l);
      var l' := Iterate(AddAll(l, script[n].arrivals), script[n].outcome);
      OneTickLess(l', script, n + 1);
      counts := before + [b];
      if !l'.stopped {
        counts := PlaysOn(script, counts, l');
      }
    }
  }

  // The loop does with every script what Played says.
  lemma LoopPlays(script: seq<Tick>) returns (counts: seq<Count>)
    ensures Played(script, PlayOf(counts, RunScript(START, script)))
  {
    hide RunScript, Played;
    assert InPlay(script, [Count(0, 0, 0, 0)], START);
    assert script[0..] == script;
    counts := PlaysOn(script, [Count(0, 0, 0, 0)], START);
  }

  // ---- Played leaves nothing open ---------------------------------------------------------

  // Two lists that agree as far as both go.
  predicate Agreeing<T(==)>(s: seq<T>, t: seq<T>, n: nat) {
    n <= |s| && n <= |t| && s[..n] == t[..n]
  }

  lemma {:induction false} JobsGrow(script: seq<Tick>, counts: seq<Count>, all: seq<Entry>, jobs: seq<Job>, i: nat,
                                    j: nat)
    requires TicksDone(script, counts, all, jobs) && i <= j < |counts|
    ensures counts[i].jobs <= counts[j].jobs
  {
    if i == j {
    } else {
      JobsGrow(script, counts, all, jobs, i, j - 1);
      assert TickDone(script[j - 1], counts[j - 1], counts[j], all, jobs);
      hide Ran, Parse;
    }
  }

  // The same ticks begin the same commands.
  lemma {:induction false} SameSoFar(script: seq<Tick>, counts: seq<Count>, all: seq<Entry>, jobs: seq<Job>,
                                     counts': seq<Count>, all': seq<Entry>, jobs': seq<Job>, i: nat)
    requires TicksDone(script, counts, all, jobs) && TicksDone(script, counts', all', jobs')
    requires i < |counts| && i < |counts'|
    requires forall k :: 0 <= k < |all| ==> all[k].id == k
    requires forall k :: 0 <= k < |all'| ==> all'[k].id == k
    ensures counts[i] == counts'[i] && Agreeing(all, all', counts[i].submitted) && Agreeing(jobs, jobs', counts[i].jobs)
  {
    if i == 0 {
    } else {
      SameSoFar(script, counts, all, jobs, counts', all', jobs', i - 1);
      assert TickDone(script[i - 1], counts[i - 1], counts[i], all, jobs);
      assert TickDone(script[i - 1], counts'[i - 1], counts'[i], all', jobs');
      hide TicksDone;
      SameTick(script[i - 1], counts[i - 1], counts[i], counts'[i], all, jobs, all', jobs');
    }
  }

  lemma SameTick(tick: Tick, a: Count, b: Count, b': Count, all: seq<Entry>, jobs: seq<Job>, all': seq<Entry>,
                 jobs': seq<Job>)
    requires TickDone(tick, a, b, all, jobs) && TickDone(tick, a, b', all', jobs')
    requires Agreeing(all, all', a.submitted) && Agreeing(jobs, jobs', a.jobs)
    requires forall k :: 0 <= k < |all| ==> all[k].id == k
    requires forall k :: 0 <= k < |all'| ==> all'[k].id == k
    ensures b == b' && Agreeing(all, all', b.submitted) && Agreeing(jobs, jobs', b.jobs)
  {
    hide Parse;
    forall k | 0 <= k < b.submitted
      ensures all[k] == all'[k]
    {
      if k < a.submitted {
        assert all[..a.submitted][k] == all'[..a.submitted][k];
      } else {
        assert Parse(tick.arrivals[k - a.submitted]) == Ok(all[k].cmd) == Ok(all'[k].cmd);
      }
    }
    forall k | 0 <= k < b.jobs
      ensures jobs[k] == jobs'[k]
    {
      if k < a.jobs {
        assert jobs[..a.jobs][k] == jobs'[..a.jobs][k];
      }
    }
  }

  lemma NotLonger(script: seq<Tick>, p: Play, p': Play)
    requires Played(script, p) && Played(script, p')
    ensures |p'.counts| <= |p.counts|
  {
    var n := |p.counts| - 1;
    var all, all' := p.finished + p.queue, p'.finished + p'.queue;
    if n < |p'.counts| - 1 {
      hide Parse, Ran;
      SameSoFar(script, p.counts, all, p.jobs, p'.counts, all', p'.jobs, n);
      assert TickDone(script[n], p'.counts[n], p'.counts[n + 1], all', p'.jobs);
      JobsGrow(script, p'.counts, all', p'.jobs, n, |p'.counts| - 2);
    }
  }

  lemma SameAccepted(arrivals: seq<string>, m: nat, all: seq<Entry>, all': seq<Entry>, k: int, k': int)
    requires StuckAt(arrivals, m, all, k) && StuckAt(arrivals, m, all', k') && Agreeing(all, all', m)
    requires forall i :: 0 <= i < |all| ==> all[i].id == i
    requires forall i :: 0 <= i < |all'| ==> all'[i].id == i
    ensures all == all'
  {
    hide Parse;
    assert k == k';
    forall i | 0 <= i < |all|
      ensures all[i] == all'[i]
    {
      if i < m {
        assert all[..m][i] == all'[..m][i];
      } else {
        assert Parse(arrivals[i - m]) == Ok(all[i].cmd) == Ok(all'[i].cmd);
      }
    }
  }

  // A script can come out in one way only.
  lemma PlayedOnce(script: seq<Tick>, p: Play, p': Play)
    requires Played(script, p) && Played(script, p')
    ensures p == p'
  {
    NotLonger(script, p, p');
    NotLonger(script, p', p);
    var n := |p.counts| - 1;
    var all, all' := p.finished + p.queue, p'.finished + p'.queue;
    forall i | 0 <= i <= n
      ensures p.counts[i] == p'.counts[i]
    {
      SameSoFar(script, p.counts, all, p.jobs, p'.counts, all', p'.jobs, i);
    }
    SameSoFar(script, p.counts, all, p.jobs, p'.counts, all', p'.jobs, n);
    hide TicksDone, StuckAt;
    assert p.jobs == p'.jobs;
    if p.locked {
      var k :| StuckAt(script[n].arrivals, p.counts[n].submitted, all, k);
      var k' :| StuckAt(script[n].arrivals, p.counts[n].submitted, all', k');
      SameAccepted(script[n].arrivals, p.counts[n].submitted, all, all', k, k');
    }
    assert all == all';
    assert p.finished == all[..|p.finished|] && p.queue == all[|p.finished|..];
  }
}
