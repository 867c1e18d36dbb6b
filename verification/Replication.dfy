// The whole system: any interleaving of submissions, steps of processor 0 and
// steps of the followers, and what every state it can reach satisfies.
module Replication {
  import opened Wrappers

  import opened CommandLoop
  import opened CommandText

  // A command and, for run-deck, the deck's text; None where there was none.
  datatype Record = Record(cmd: Command, deck: Option<string>)

  // A follower has received a prefix of the broadcasts.  It may be inside the
  // execution of a run-deck, waiting for the deck's text.  It ends by executing
  // quit, or because what it takes for a command cannot be parsed.
  datatype Follower = Follower(received: nat, executed: seq<Record>, awaiting: Option<Command>,
                               stopped: bool, died: bool)

  const FRESH := Follower(0, [], None, false, false)

  // The leader, what was ever accepted into its queue, the followers, and two
  // counters of leader polls: those since the last broadcast, and those that
  // found the queue empty.
  datatype System = System(leader: Leader, submitted: seq<Entry>, followers: seq<Follower>, silent: nat, idle: nat)

  datatype Action =
    | SubmitText(s: string)
    | SubmitObject(cmd: Command)
    | LeaderPoll
    | LeaderSendDeck(text: string)
    | LeaderFinish(raises: bool)
    | Receive(f: nat)

  function Init(n: nat): System {
    System(START, [], seq(n, _ => FRESH), 0, 0)
  }

  // ---- Followers ------------------------------------------------------------------

  // One reception.  A follower blocks until there is a broadcast it has not received.
  ghost function Step(f: Follower, broadcast: seq<string>): Follower {
    if f.stopped || f.died || f.received >= |broadcast| then f
    else if f.awaiting.Some? then
      f.(received := f.received + 1, awaiting := None,
         executed := f.executed + [Record(f.awaiting.value, Some(broadcast[f.received]))])
    else Interpret(f.(received := f.received + 1), Parse(broadcast[f.received]))
  }

  function Interpret(f: Follower, parsed: ParseResult): Follower {
    match parsed
    case ValueError => f.(died := true)
    case Ok(cmd) =>
      if cmd.RunDeck? then f.(awaiting := Some(cmd))
      else f.(executed := f.executed + [Record(cmd, None)], stopped := cmd == Quit)
  }

  ghost function StepTimes(f: Follower, broadcast: seq<string>, k: nat): Follower {
    if k == 0 then f else Step(StepTimes(f, broadcast, k - 1), broadcast)
  }

  // What a new follower makes of all these broadcasts.
  ghost function Followed(broadcast: seq<string>): Follower {
    StepTimes(FRESH, broadcast, |broadcast|)
  }

  lemma {:induction false} EndedStays(f: Follower, broadcast: seq<string>, j: nat, k: nat)
    requires j <= k && (StepTimes(f, broadcast, j).stopped || StepTimes(f, broadcast, j).died)
    ensures StepTimes(f, broadcast, k) == StepTimes(f, broadcast, j)
  {
    hide Parse;
    if j == k {
    } else {
      EndedStays(f, broadcast, j, k - 1);
    }
  }

  // The loop of run on every processor but 0, over the broadcasts it receives.
  method Follow(broadcast: seq<string>) returns (f: Follower)
    ensures f == Followed(broadcast)
  {
    hide Parse;
    f := FRESH;
    var i := 0;
    while i < |broadcast|
      invariant 0 <= i <= |broadcast| && f == StepTimes(FRESH, broadcast, i)
      invariant f.received == i && !f.stopped && !f.died && f.awaiting.None?
    {
      var parsed := MakeCommand(broadcast[i]);
      f := Interpret(f.(received := i + 1), parsed);
      i := i + 1;
      if f.died || f.stopped {
        EndedStays(FRESH, broadcast, i, |broadcast|);
        return;
      }
      if f.awaiting.Some? {
        // do() of run-deck receives the text itself
        if i == |broadcast| {
          return;
        }
        f := f.(received := i + 1, awaiting := None,
                executed := f.executed + [Record(f.awaiting.value, Some(broadcast[i]))]);
        i := i + 1;
      }
    }
  }

  // The first k steps depend on the first k broadcasts only, and consume them
  // all unless the follower has ended.
  lemma {:induction false} StepsRead(b: seq<string>, b': seq<string>, k: nat)
    requires b <= b' && k <= |b|
    ensures StepTimes(FRESH, b, k) == StepTimes(FRESH, b', k)
    ensures var f := StepTimes(FRESH, b, k); f.received <= k && (f.received < k ==> f.stopped || f.died)
  {
    hide Parse;
    if k == 0 {
    } else {
      StepsRead(b, b', k - 1);
    }
  }

  // A step of a follower takes it on to what it makes of one broadcast more.
  lemma StepIsFollowed(f: Follower, broadcast: seq<string>)
    requires f.received <= |broadcast| && f == Followed(broadcast[..f.received])
    ensures var f' := Step(f, broadcast); f'.received <= |broadcast| && f' == Followed(broadcast[..f'.received])
  {
    hide Parse;
    if !f.stopped && !f.died && f.received < |broadcast| {
      var k := f.received;
      StepsRead(broadcast[..k], broadcast, k);
      StepsRead(broadcast[..k + 1], broadcast, k + 1);
      assert Step(f, broadcast) == StepTimes(FRESH, broadcast, k + 1);
      assert Step(f, broadcast).received == k + 1;
      hide Step, StepTimes;
    }
  }

  // ---- The system -------------------------------------------------------------------

  function Submitted(s: System, l: Leader): System
    requires |s.leader.queue| <= |l.queue|
  {
    s.(leader := l, submitted := s.submitted + l.queue[|s.leader.queue|..])
  }

  function Polled(s: System, l: Leader): System {
    s.(leader := l,
       silent := if |l.broadcast| > |s.leader.broadcast| then 0 else if l == s.leader then s.silent else s.silent + 1,
       idle := if l != s.leader && s.leader.queue == [] then s.idle + 1 else s.idle)
  }

  lemma QueueGrows(l: Leader, a: Action)
    requires a.SubmitText? || a.SubmitObject?
    ensures var l' := if a.SubmitText? then AddText(l, a.s) else AddObject(l, a.cmd);
            |l.queue| <= |l'.queue| && l'.queue[..|l.queue|] == l.queue
  {
  }

  ghost function Next(s: System, a: Action): System {
    match a
    case SubmitText(text) => QueueGrows(s.leader, a); Submitted(s, AddText(s.leader, text))
    case SubmitObject(cmd) => QueueGrows(s.leader, a); Submitted(s, AddObject(s.leader, cmd))
    case LeaderPoll => Polled(s, Poll(s.leader))
    case LeaderSendDeck(text) =>
      var l := SendDeck(s.leader, text);
      s.(leader := l, silent := if l != s.leader then 0 else s.silent)
    case LeaderFinish(raises) => s.(leader := Finish(s.leader, raises))
    case Receive(f) =>
      if f < |s.followers| then s.(followers := s.followers[f := Step(s.followers[f], s.leader.broadcast)]) else s
  }

  ghost function Run(s: System, actions: seq<Action>): System {
    if actions == [] then s else Next(Run(s, actions[..|actions| - 1]), actions[|actions| - 1])
  }

  lemma RunExtended(s: System, actions: seq<Action>, a: Action)
    ensures Run(s, actions + [a]) == Next(Run(s, actions), a)
  {
    assert (actions + [a])[..|actions|] == actions;
    hide Next;
  }

  lemma {:induction false} RunConcat(s: System, a: seq<Action>, b: seq<Action>)
    ensures Run(s, a + b) == Run(Run(s, a), b)
    decreases |b|
  {
    hide Next;
    if b == [] {
      assert a + b == a;
    } else {
      var n := |b| - 1;
      RunConcat(s, a, b[..n]);
      RunExtended(s, a + b[..n], b[n]);
      assert a + b[..n] + [b[n]] == a + b;
    }
  }

  // ---- What the leader did --------------------------------------------------------

  function RecordOf(j: Job): Record {
    Record(j.cmd, j.deck)
  }

  function Records(jobs: seq<Job>): seq<Record> {
    seq(|jobs|, i requires 0 <= i < |jobs| => RecordOf(jobs[i]))
  }

  function Messages(r: Record): seq<string> {
    [ToStr(r.cmd)] + (if r.deck.Some? then [r.deck.value] else [])
  }

  // Everything these commands have sent, in order.
  function Wire(rs: seq<Record>): seq<string> {
    if rs == [] then [] else Wire(rs[..|rs| - 1]) + Messages(rs[|rs| - 1])
  }

  lemma {:induction false} WirePrefix(rs: seq<Record>, m: nat)
    requires m <= |rs|
    ensures Wire(rs[..m]) <= Wire(rs)
  {
    hide Messages;
    if m == |rs| {
      assert rs[..m] == rs;
    } else {
      WirePrefix(rs[..|rs| - 1], m);
      assert rs[..|rs| - 1][..m] == rs[..m];
    }
  }

  // The messages of command m start where those of the commands before it end.
  lemma WireAt(rs: seq<Record>, m: nat)
    requires m < |rs|
    ensures Wire(rs[..m + 1]) == Wire(rs[..m]) + Messages(rs[m])
    ensures Wire(rs[..m + 1]) <= Wire(rs)
    ensures |Wire(rs[..m])| < |Wire(rs)| && Wire(rs)[|Wire(rs[..m])|] == ToStr(rs[m].cmd)
    ensures rs[m].deck.Some? ==>
      |Wire(rs[..m])| + 1 < |Wire(rs)| && Wire(rs)[|Wire(rs[..m])| + 1] == rs[m].deck.value
  {
    WirePrefix(rs, m + 1);
    assert rs[..m + 1][..m] == rs[..m];
    var w, n := Wire(rs[..m + 1]), |Wire(rs[..m])|;
    hide Wire, ToStr;
    assert w == Wire(rs[..m]) + Messages(rs[m]);
    assert forall i :: 0 <= i < |w| ==> Wire(rs)[i] == w[i];
    assert w[n] == Messages(rs[m])[0];
    if rs[m].deck.Some? {
      assert w[n + 1] == Messages(rs[m])[1];
    }
  }

  // The commands that came from the queue, heartbeats left out.
  function FromQueue(jobs: seq<Job>): seq<Entry> {
    if jobs == [] then [] else FromQueue(jobs[..|jobs| - 1]) + EventOf(Last(jobs))
  }

  function Heartbeats(jobs: seq<Job>): nat {
    if jobs == [] then 0 else Heartbeats(jobs[..|jobs| - 1]) + (if Last(jobs).id.None? then 1 else 0)
  }

  // The jobs that are over: all but a last one that is still running.
  function Ended(jobs: seq<Job>): seq<Job> {
    if jobs != [] && Last(jobs).end.Running? then jobs[..|jobs| - 1] else jobs
  }

  lemma JobAppends(jobs: seq<Job>, j: Job)
    ensures FromQueue(jobs + [j]) == FromQueue(jobs) + EventOf(j)
    ensures Heartbeats(jobs + [j]) == Heartbeats(jobs) + (if j.id.None? then 1 else 0)
    ensures Records(jobs + [j]) == Records(jobs) + [RecordOf(j)]
    ensures Wire(Records(jobs + [j])) == Wire(Records(jobs)) + Messages(RecordOf(j))
  {
    assert (jobs + [j])[..|jobs|] == jobs;
    assert Records(jobs + [j]) == Records(jobs) + [RecordOf(j)];
    assert (Records(jobs) + [RecordOf(j)])[..|jobs|] == Records(jobs);
    hide Messages;
  }

  // Sending the deck and finishing change the last job only.
  lemma {:induction false} LastChanges(jobs: seq<Job>, j: Job)
    requires jobs != [] && j.cmd == Last(jobs).cmd && j.id == Last(jobs).id
    ensures FromQueue(WithLast(jobs, j)) == FromQueue(jobs) && Heartbeats(WithLast(jobs, j)) == Heartbeats(jobs)
    ensures Wire(Records(WithLast(jobs, j))) == Wire(Records(jobs[..|jobs| - 1])) + Messages(RecordOf(j))
    ensures Wire(Records(jobs)) == Wire(Records(jobs[..|jobs| - 1])) + Messages(RecordOf(Last(jobs)))
    ensures FromQueue(jobs) == FromQueue(jobs[..|jobs| - 1]) + EventOf(j)
  {
    var front, last := jobs[..|jobs| - 1], Last(jobs);
    JobAppends(front, last);
    JobAppends(front, j);
    assert front + [last] == jobs;
  }

  // ---- Invariants -------------------------------------------------------------------

  // Nothing about the command is still to be broadcast.
  predicate Settled(j: Job) {
    j.cmd.RunDeck? && j.deck.None? ==> !j.end.Running?
  }

  ghost predicate JobInv(j: Job) {
    && (j.id.None? ==> j.cmd == Nop)
    && (j.deck.Some? ==> j.cmd.RunDeck?)
    && (j.end.Returned? && j.cmd.RunDeck? ==> j.deck.Some?)
  }

  // Broadcasts are what the jobs sent; one job is over before the next begins;
  // only the last can be a quit, and the leader has stopped when that is over.
  ghost predicate LogInv(l: Leader) {
    && l.broadcast == Wire(Records(l.jobs))
    && (forall i :: 0 <= i < |l.jobs| ==> JobInv(l.jobs[i]))
    && (forall i :: 0 <= i < |l.jobs| - 1 ==> !l.jobs[i].end.Running? && !l.jobs[i].cmd.Quit?)
    && (l.stopped <==> Quitting(l) && !Busy(l))
  }

  // quit has been broadcast.
  predicate Quitting(l: Leader) {
    l.jobs != [] && Last(l.jobs).cmd.Quit?
  }

  // Nothing submitted is lost, duplicated or reordered, and events are set in
  // order, for the commands that are over.
  ghost predicate QueueInv(s: System) {
    && FromQueue(s.leader.jobs) + s.leader.queue == s.submitted
    && s.leader.finished == FromQueue(Ended(s.leader.jobs))
    && s.leader.nextId == |s.submitted|
    && (forall i :: 0 <= i < |s.submitted| ==> s.submitted[i].id == i)
  }

  // The heartbeat clock: a heartbeat for every eleventh idle poll.
  ghost predicate ClockInv(s: System) {
    && s.leader.nopCnt <= MAX_IDLE
    && s.silent + s.leader.nopCnt <= MAX_IDLE
    && s.idle == (MAX_IDLE + 1) * Heartbeats(s.leader.jobs) + (MAX_IDLE - s.leader.nopCnt)
  }

  // What a follower can repeat: a command that survives printing and, for
  // run-deck, whose deck was sent.
  predicate Good(r: Record) {
    Canonical(r.cmd) && (r.cmd.RunDeck? ==> r.deck.Some?)
  }

  // In step: the follower has done what the leader does and stands at the
  // messages of the next command.
  ghost predicate Sync(f: Follower, l: Leader) {
    var m, rs := |f.executed|, Records(l.jobs);
    && m <= |rs| && f.executed == rs[..m]
    && (forall j :: 0 <= j < m ==> Good(rs[j]))
    && f.received == |Wire(rs[..m])| + (if f.awaiting.Some? || f.died then 1 else 0)
    && (f.awaiting.Some? ==>
          m < |rs| && rs[m].cmd.RunDeck? && Parse(ToStr(rs[m].cmd)) == Ok(f.awaiting.value)
          && !f.died && !f.stopped)
    && (f.died ==> m < |rs| && Parse(ToStr(rs[m].cmd)) == ValueError && !f.stopped)
    && (f.stopped <==> m > 0 && rs[m - 1].cmd == Quit)
  }

  // Out of step: at j, which the follower could not repeat, it did something else.
  ghost predicate LostAt(f: Follower, l: Leader, j: int) {
    && 0 <= j < |f.executed| && j < |l.jobs| && Settled(l.jobs[j])
    && !Good(RecordOf(l.jobs[j])) && f.executed[j] != RecordOf(l.jobs[j])
  }

  ghost predicate FollowerInv(f: Follower, l: Leader) {
    f.received <= |l.broadcast| && (Sync(f, l) || exists j :: LostAt(f, l, j))
  }

  ghost predicate Inv(s: System) {
    && LogInv(s.leader) && QueueInv(s) && ClockInv(s)
    && forall i :: 0 <= i < |s.followers| ==> FollowerInv(s.followers[i], s.leader)
  }

  // ---- Followers do not notice what the leader does later ---------------------------

  ghost predicate SameJob(j: Job, j': Job) {
    j'.cmd == j.cmd && (Settled(j) ==> j'.deck == j.deck && Settled(j'))
  }

  // l' is a later state of the leader.
  ghost predicate Later(l: Leader, l': Leader) {
    && l.broadcast <= l'.broadcast && |l.jobs| <= |l'.jobs|
    && forall i :: 0 <= i < |l.jobs| ==> SameJob(l.jobs[i], l'.jobs[i])
  }

  lemma FollowerKept(f: Follower, l: Leader, l': Leader)
    requires FollowerInv(f, l) && Later(l, l')
    ensures FollowerInv(f, l')
  {
    hide Parse, ToStr, Canonical, Wire;
    if Sync(f, l) {
      var m := |f.executed|;
      assert forall j :: 0 <= j < m ==> Good(RecordOf(l.jobs[j])) ==> Settled(l.jobs[j]);
      assert Records(l.jobs)[..m] == Records(l'.jobs)[..m];
      assert Sync(f, l');
    } else {
      var j :| LostAt(f, l, j);
      assert LostAt(f, l', j);
    }
  }

  lemma FollowersKept(s: System, l': Leader)
    requires Inv(s) && Later(s.leader, l')
    ensures forall i :: 0 <= i < |s.followers| ==> FollowerInv(s.followers[i], l')
  {
    hide LogInv, QueueInv, ClockInv, FollowerInv, Later;
    forall i | 0 <= i < |s.followers|
      ensures FollowerInv(s.followers[i], l')
    {
      FollowerKept(s.followers[i], s.leader, l');
    }
  }

  // ---- Submissions ------------------------------------------------------------------

  lemma SubmitKeepsInv(s: System, a: Action)
    requires Inv(s) && (a.SubmitText? || a.SubmitObject?)
    ensures Inv(Next(s, a))
  {
    hide Parse, FollowerInv, FromQueue, Heartbeats, Wire, JobInv, Ended;
    var l := s.leader;
    var l' := Next(s, a).leader;
    var more := l'.queue[|l.queue|..];
    FollowersKept(s, l');
    assert l'.queue == l.queue + more;
    assert FromQueue(l.jobs) + (l.queue + more) == s.submitted + more;
  }

  // ---- Beginning a command ----------------------------------------------------------

  lemma BeginKeepsLog(l: Leader, id: Option<nat>, cmd: Command)
    requires LogInv(l) && !l.stopped && !Busy(l) && (id.None? ==> cmd == Nop)
    ensures LogInv(Begin(l, id, cmd)) && Later(l, Begin(l, id, cmd))
  {
    var j, l' := Job(id, cmd, None, Running), Begin(l, id, cmd);
    JobAppends(l.jobs, j);
    assert Messages(RecordOf(j)) == [ToStr(cmd)] && l'.jobs == l.jobs + [j];
    assert l'.broadcast == Wire(Records(l'.jobs)) && JobInv(j);
    hide Wire, ToStr, Records, Messages, Begin;
    forall i | 0 <= i < |l.jobs|
      ensures l'.jobs[i] == l.jobs[i] && SameJob(l.jobs[i], l'.jobs[i]) && JobInv(l'.jobs[i])
    {
      assert JobInv(l.jobs[i]);
    }
    hide JobInv, SameJob;
  }

  lemma LogIgnores(l: Leader, queue: seq<Entry>, nopCnt: nat)
    requires LogInv(l)
    ensures LogInv(l.(queue := queue, nopCnt := nopCnt)) && Later(l, l.(queue := queue, nopCnt := nopCnt))
  {
    hide Wire, JobInv;
  }

  lemma PollKeepsLog(l: Leader)
    requires LogInv(l)
    ensures LogInv(Poll(l)) && Later(l, Poll(l))
  {
    LogIgnores(l, l.queue, if l.nopCnt == 0 then MAX_IDLE else l.nopCnt - 1);
    if l.queue != [] {
      LogIgnores(l, l.queue[1..], l.nopCnt);
    }
    hide LogInv;
    if !l.stopped && !l.locked && !Busy(l) {
      if l.queue != [] {
        BeginKeepsLog(l.(queue := l.queue[1..]), Some(l.queue[0].id), l.queue[0].cmd);
      } else if l.nopCnt == 0 {
        BeginKeepsLog(l.(nopCnt := MAX_IDLE), None, Nop);
      }
    }
  }

  lemma BeginAppends(l: Leader, id: Option<nat>, cmd: Command)
    requires !Busy(l)
    ensures var l' := Begin(l, id, cmd);
      && FromQueue(l'.jobs) == FromQueue(l.jobs) + (if id.Some? then [Entry(id.value, cmd)] else [])
      && FromQueue(Ended(l'.jobs)) == FromQueue(Ended(l.jobs)) && |l'.jobs| == |l.jobs| + 1
      && Heartbeats(l'.jobs) == Heartbeats(l.jobs) + (if id.None? then 1 else 0)
  {
    var j := Job(id, cmd, None, Running);
    JobAppends(l.jobs, j);
    hide FromQueue, Heartbeats, ToStr;
    assert (l.jobs + [j])[..|l.jobs|] == l.jobs;
  }

  // A poll moves at most the head of the queue behind the executed commands.
  lemma PollMovesHead(l: Leader)
    ensures var l' := Poll(l);
      && FromQueue(l'.jobs) + l'.queue == FromQueue(l.jobs) + l.queue && l'.nextId == l.nextId
      && l'.finished == l.finished && FromQueue(Ended(l'.jobs)) == FromQueue(Ended(l.jobs))
      && Heartbeats(l'.jobs) == Heartbeats(l.jobs) + (if |l'.jobs| > |l.jobs| && l.queue == [] then 1 else 0)
  {
    if !l.stopped && !l.locked && !Busy(l) {
      if l.queue != [] {
        BeginAppends(l.(queue := l.queue[1..]), Some(l.queue[0].id), l.queue[0].cmd);
        assert l.queue == [Entry(l.queue[0].id, l.queue[0].cmd)] + l.queue[1..];
      } else if l.nopCnt == 0 {
        BeginAppends(l.(nopCnt := MAX_IDLE), None, Nop);
      }
    }
    hide FromQueue, Heartbeats, Ended, ToStr;
  }

  // What a poll does to the counters.
  lemma PollTicks(l: Leader)
    ensures var l', sent := Poll(l), |Poll(l).broadcast| - |l.broadcast|;
      || l' == l
      || (l' != l && sent == 1 && l.queue != [] && l'.nopCnt == l.nopCnt)
      || (l' != l && sent == 1 && l.queue == [] && l.nopCnt == 0 && l'.nopCnt == MAX_IDLE && |l'.jobs| > |l.jobs|)
      || (l' != l && sent == 0 && l.queue == [] && l'.nopCnt == l.nopCnt - 1 && l'.jobs == l.jobs)
  {
    hide ToStr;
  }

  lemma PollKeepsClock(s: System)
    requires Inv(s)
    ensures ClockInv(Next(s, LeaderPoll))
  {
    PollMovesHead(s.leader);
    PollTicks(s.leader);
    assert ClockInv(s);
    hide Inv, Poll, FollowerInv, LogInv, QueueInv, FromQueue, Heartbeats, Ended;
  }

  lemma PollKeepsQueue(s: System)
    requires Inv(s)
    ensures QueueInv(Next(s, LeaderPoll))
  {
    PollMovesHead(s.leader);
    assert QueueInv(s);
    hide Inv, Poll, FollowerInv, LogInv, ClockInv, FromQueue, Heartbeats, Ended;
  }

  lemma PollKeepsInv(s: System)
    requires Inv(s)
    ensures Inv(Next(s, LeaderPoll))
  {
    PollKeepsLog(s.leader);
    PollKeepsQueue(s);
    PollKeepsClock(s);
    FollowersKept(s, Poll(s.leader));
    hide LogInv, QueueInv, ClockInv, FollowerInv, Poll, Later;
  }

  // ---- During and at the end of a command ---------------------------------------------

  // A change of the last job only.
  lemma LastJobKeepsLog(l: Leader, l': Leader, j: Job)
    requires LogInv(l) && l.jobs != [] && l'.jobs == WithLast(l.jobs, j)
    requires JobInv(j) && SameJob(Last(l.jobs), j)
    requires l.broadcast <= l'.broadcast == Wire(Records(l'.jobs))
    requires l'.stopped <==> j.cmd.Quit? && !j.end.Running?
    ensures LogInv(l') && Later(l, l')
  {
    hide JobInv, Settled, Wire, Records;
    assert Last(l'.jobs) == j;
    forall i | 0 <= i < |l.jobs|
      ensures JobInv(l'.jobs[i]) && SameJob(l.jobs[i], l'.jobs[i]) && (i < |l.jobs| - 1 ==> l'.jobs[i] == l.jobs[i])
    {
      assert JobInv(l.jobs[i]);
    }
    hide SameJob;
  }

  lemma Unchanged(l: Leader)
    requires LogInv(l)
    ensures Later(l, l)
  {
    hide Wire, Records, JobInv;
  }

  lemma SendDeckKeepsLog(l: Leader, text: string)
    requires LogInv(l)
    ensures LogInv(SendDeck(l, text)) && Later(l, SendDeck(l, text))
  {
    var l' := SendDeck(l, text);
    if l' == l {
      Unchanged(l);
    } else {
      var j := Last(l.jobs);
      var j' := j.(deck := Some(text));
      LastChanges(l.jobs, j');
      assert Messages(RecordOf(j')) == Messages(RecordOf(j)) + [text];
      assert JobInv(j') && l.broadcast == Wire(Records(l.jobs)) && !l.stopped;
      hide LogInv, Wire, Records, Messages, FromQueue, Heartbeats, JobInv, Later;
      LastJobKeepsLog(l, l', j');
    }
  }

  lemma FinishKeepsLog(l: Leader, raises: bool)
    requires LogInv(l)
    ensures LogInv(Finish(l, raises)) && Later(l, Finish(l, raises))
  {
    var l' := Finish(l, raises);
    if l' == l {
      Unchanged(l);
    } else {
      var j, j' := Last(l.jobs), Last(l'.jobs);
      LastChanges(l.jobs, j');
      assert RecordOf(j') == RecordOf(j) && JobInv(j) && l.broadcast == Wire(Records(l.jobs));
      assert JobInv(j');
      hide LogInv, Wire, Records, Messages, FromQueue, Heartbeats, JobInv, Later;
      LastJobKeepsLog(l, l', j');
    }
  }

  // The end of a command, or its deck, leaves queue and clock alone.
  ghost predicate SameRest(l: Leader, l': Leader) {
    && l'.queue == l.queue && l'.nextId == l.nextId && l'.nopCnt == l.nopCnt
    && FromQueue(l'.jobs) == FromQueue(l.jobs) && Heartbeats(l'.jobs) == Heartbeats(l.jobs)
    && (l.finished == FromQueue(Ended(l.jobs)) ==> l'.finished == FromQueue(Ended(l'.jobs)))
  }

  lemma SendDeckRest(l: Leader, text: string)
    ensures SameRest(l, SendDeck(l, text))
  {
    if SendDeck(l, text) != l {
      LastChanges(l.jobs, Last(l.jobs).(deck := Some(text)));
      hide FromQueue, Heartbeats;
    }
  }

  lemma FinishRest(l: Leader, raises: bool)
    ensures SameRest(l, Finish(l, raises))
  {
    if Busy(l) {
      LastChanges(l.jobs, Last(Finish(l, raises).jobs));
      hide FromQueue, Heartbeats;
    }
  }

  lemma RestKept(s: System, l': Leader, silent: nat)
    requires QueueInv(s) && ClockInv(s) && SameRest(s.leader, l') && silent <= s.silent
    ensures QueueInv(s.(leader := l', silent := silent)) && ClockInv(s.(leader := l', silent := silent))
  {
    hide FromQueue, Heartbeats, Ended;
  }

  lemma SendDeckKeepsInv(s: System, text: string)
    requires Inv(s)
    ensures Inv(Next(s, LeaderSendDeck(text)))
  {
    var l', silent := SendDeck(s.leader, text), Next(s, LeaderSendDeck(text)).silent;
    assert silent <= s.silent && Next(s, LeaderSendDeck(text)) == s.(leader := l', silent := silent);
    hide Next, LogInv, QueueInv, ClockInv, FollowerInv, SameRest, Later, SendDeck;
    SendDeckKeepsLog(s.leader, text);
    SendDeckRest(s.leader, text);
    FollowersKept(s, l');
    RestKept(s, l', silent);
  }

  lemma FinishKeepsInv(s: System, raises: bool)
    requires Inv(s)
    ensures Inv(Next(s, LeaderFinish(raises)))
  {
    var l' := Finish(s.leader, raises);
    assert Next(s, LeaderFinish(raises)) == s.(leader := l', silent := s.silent);
    hide Next, LogInv, QueueInv, ClockInv, FollowerInv, SameRest, Later, Finish;
    FinishKeepsLog(s.leader, raises);
    FinishRest(s.leader, raises);
    FollowersKept(s, l');
    RestKept(s, l', s.silent);
  }

  // ---- Receptions -----------------------------------------------------------------------

  lemma LostForGood(f: Follower, f': Follower, l: Leader, j: int)
    requires LostAt(f, l, j) && f.executed <= f'.executed
    ensures LostAt(f', l, j)
  {
    hide Good, Settled;
  }

  // After executing r a follower is in step again exactly if r is the leader's;
  // if it is not, the leader's command was not repeatable.
  lemma Recorded(f: Follower, l: Leader, r: Record)
    requires var m, rs := |f.executed|, Records(l.jobs);
      m < |rs| && f.executed == rs[..m] && (forall j :: 0 <= j < m ==> Good(rs[j])) && Settled(l.jobs[m])
      && (r == rs[m] <==> Good(rs[m]))
    ensures var m, rs, e := |f.executed|, Records(l.jobs), f.executed + [r];
      if Good(rs[m]) then e == rs[..m + 1] && forall j :: 0 <= j < m + 1 ==> Good(rs[j])
      else LostAt(f.(executed := e), l, m)
  {
    hide Good, Settled;
    var m, rs := |f.executed|, Records(l.jobs);
    assert rs[..m + 1] == rs[..m] + [rs[m]];
  }

  lemma MessageCount(r: Record)
    ensures |Messages(r)| == if r.deck.Some? then 2 else 1
  {
    hide ToStr;
  }

  // The next message after the text of a run-deck without deck is the text of
  // the next command, so the run-deck is over.
  lemma NoDeckToCome(l: Leader, m: nat)
    requires LogInv(l) && m < |l.jobs|
    requires |Wire(Records(l.jobs)[..m])| + 1 < |l.broadcast|
    ensures Settled(l.jobs[m])
  {
    var rs := Records(l.jobs);
    WireAt(rs, m);
    MessageCount(rs[m]);
    hide Wire, Messages;
    assert rs[..|rs|] == rs;
  }

  // The deck of a run-deck arrives, or the next command's text in its place.
  lemma DeckStep(f: Follower, l: Leader)
    requires Sync(f, l) && LogInv(l) && f.awaiting.Some? && f.received < |l.broadcast|
    ensures FollowerInv(Step(f, l.broadcast), l)
  {
    var m, f', rs := |f.executed|, Step(f, l.broadcast), Records(l.jobs);
    var r := rs[m];
    PrintParse(r.cmd);
    WireAt(rs, m);
    NoDeckToCome(l, m);
    MessageCount(r);
    hide Parse, ToStr, Canonical, Wire, Messages, JobInv, Settled;
    Recorded(f, l, Record(f.awaiting.value, Some(l.broadcast[f.received])));
    if Good(r) {
      assert Sync(f', l);
    } else {
      LostForGood(f.(executed := f'.executed), f', l, m);
    }
  }

  // The text of the next command arrives.
  lemma NextText(f: Follower, l: Leader)
    requires Sync(f, l) && LogInv(l) && f.awaiting.None? && !f.stopped && !f.died && f.received < |l.broadcast|
    ensures |f.executed| < |l.jobs| && l.broadcast[f.received] == ToStr(l.jobs[|f.executed|].cmd)
  {
    var m, rs := |f.executed|, Records(l.jobs);
    assert m < |rs| by {
      assert rs[..|rs|] == rs;
    }
    WireAt(rs, m);
  }

  lemma CommandStep(f: Follower, l: Leader)
    requires Sync(f, l) && LogInv(l) && f.awaiting.None? && !f.stopped && !f.died && f.received < |l.broadcast|
    ensures FollowerInv(Step(f, l.broadcast), l)
  {
    NextText(f, l);
    var m, rs := |f.executed|, Records(l.jobs);
    var parsed := Parse(ToStr(rs[m].cmd));
    if parsed.Ok? {
      KindSurvivesPrinting(rs[m].cmd);
    }
    if parsed.ValueError? || parsed.cmd.RunDeck? {
      hide Parse, ToStr, Canonical, Wire, LogInv;
      Halts(f, l);
    } else {
      PrintParse(rs[m].cmd);
      WireAt(rs, m);
      MessageCount(rs[m]);
      assert JobInv(l.jobs[m]);
      hide Parse, ToStr, Canonical, Wire, Messages, LogInv, JobInv, Sync, FollowerInv;
      Executes(f, l, parsed.cmd);
    }
  }

  // The follower waits for a deck, or dies on what it cannot parse.
  lemma Halts(f: Follower, l: Leader)
    requires Sync(f, l) && f.awaiting.None? && !f.stopped && !f.died && f.received < |l.broadcast|
    requires |f.executed| < |l.jobs| && l.broadcast[f.received] == ToStr(l.jobs[|f.executed|].cmd)
    requires var parsed := Parse(l.broadcast[f.received]);
      parsed.Ok? ==> parsed.cmd.RunDeck? && l.jobs[|f.executed|].cmd.RunDeck?
    ensures FollowerInv(Step(f, l.broadcast), l)
  {
    hide Parse, ToStr, Canonical, Wire;
    assert Sync(Step(f, l.broadcast), l);
  }

  // The follower executes what it has read, and it is no run-deck.
  lemma Executes(f: Follower, l: Leader, cmd: Command)
    requires Sync(f, l) && f.awaiting.None? && !f.stopped && !f.died && f.received < |l.broadcast|
    requires |f.executed| < |l.jobs| && Parse(l.broadcast[f.received]) == Ok(cmd) && !cmd.RunDeck?
    requires var j := l.jobs[|f.executed|];
      && OpcodeOf(cmd) == OpcodeOf(j.cmd) && (cmd == j.cmd <==> Canonical(j.cmd)) && j.deck.None?
      && |Wire(Records(l.jobs)[..|f.executed| + 1])| == |Wire(Records(l.jobs)[..|f.executed|])| + 1
    ensures FollowerInv(Step(f, l.broadcast), l)
  {
    hide Parse, ToStr, Canonical, Wire;
    var m, f' := |f.executed|, Step(f, l.broadcast);
    Recorded(f, l, Record(cmd, None));
    hide Settled;
    if Good(RecordOf(l.jobs[m])) {
      assert Sync(f', l);
    } else {
      LostForGood(f.(executed := f'.executed), f', l, m);
    }
  }

  lemma StepKeepsFollower(f: Follower, l: Leader)
    requires FollowerInv(f, l) && LogInv(l)
    ensures FollowerInv(Step(f, l.broadcast), l)
  {
    if !f.stopped && !f.died && f.received < |l.broadcast| {
      if Sync(f, l) {
        if f.awaiting.Some? {
          DeckStep(f, l);
        } else {
          CommandStep(f, l);
        }
      } else {
        hide Parse, Good, Sync, LogInv;
        var j :| LostAt(f, l, j);
        LostForGood(f, Step(f, l.broadcast), l, j);
      }
    }
  }

  lemma ReceiveKeepsInv(s: System, f: nat)
    requires Inv(s)
    ensures Inv(Next(s, Receive(f)))
  {
    hide Step, FollowerInv, LogInv;
    if f < |s.followers| {
      StepKeepsFollower(s.followers[f], s.leader);
    }
  }

  // ---- Every reachable state ---------------------------------------------------------------

  lemma NextKeepsInv(s: System, a: Action)
    requires Inv(s)
    ensures Inv(Next(s, a)) && |Next(s, a).followers| == |s.followers|
  {
    match a
    case SubmitText(_) => SubmitKeepsInv(s, a);
    case SubmitObject(_) => SubmitKeepsInv(s, a);
    case LeaderPoll => PollKeepsInv(s);
    case LeaderSendDeck(text) => SendDeckKeepsInv(s, text);
    case LeaderFinish(raises) => FinishKeepsInv(s, raises);
    case Receive(f) => ReceiveKeepsInv(s, f);
  }

  lemma {:induction false} Invariant(n: nat, actions: seq<Action>)
    ensures Inv(Run(Init(n), actions)) && |Run(Init(n), actions).followers| == n
  {
    if actions == [] {
    } else {
      var before := actions[..|actions| - 1];
      Invariant(n, before);
      NextKeepsInv(Run(Init(n), before), actions[|actions| - 1]);
      hide Inv, Next;
    }
  }
}
