// What holds in every run of the replicated command loop, and in every run of
// the two program loops.
module ReplicationTheorems {
  import opened Wrappers

  import opened CommandLoop
  import opened CommandText
  import opened MissingDecks
  import opened Replication
  import opened ScriptMeaning

  // ---- Followers repeat the leader ----------------------------------------------------

  // The follower has executed what the leader has begun, as far as it has come.
  ghost predicate Faithful(f: Follower, l: Leader) {
    f.executed <= Records(l.jobs)
  }

  // All it executed were canonical commands whose decks, if any, were sent.
  ghost predicate Repeatable(f: Follower, l: Leader) {
    forall j :: 0 <= j < |f.executed| ==> j < |l.jobs| && Good(RecordOf(l.jobs[j]))
  }

  // In every reachable state a follower has repeated the leader exactly when
  // all it executed could be repeated: canonical commands whose decks were sent.
  lemma FaithfulExactly(n: nat, actions: seq<Action>, i: nat)
    requires i < n
    ensures var s := Run(Init(n), actions);
      |s.followers| == n && (Faithful(s.followers[i], s.leader) <==> Repeatable(s.followers[i], s.leader))
  {
    Invariant(n, actions);
    hide Run, Init, LogInv, QueueInv, ClockInv, FollowerInv, Faithful, Repeatable;
    FaithfulIff(Run(Init(n), actions).followers[i], Run(Init(n), actions).leader);
  }

  lemma FaithfulIff(f: Follower, l: Leader)
    requires FollowerInv(f, l)
    ensures Faithful(f, l) <==> Repeatable(f, l)
  {
    hide Parse, ToStr, Good, Wire, Settled;
    if Sync(f, l) {
      forall j | 0 <= j < |f.executed|
        ensures j < |l.jobs| && Good(RecordOf(l.jobs[j]))
      {
        assert Good(Records(l.jobs)[j]);
      }
    } else {
      var j :| LostAt(f, l, j);
      assert Records(l.jobs)[j] != f.executed[j];
    }
  }

  // Command objects put in directly have canonical arguments; strings always do.
  ghost predicate CleanSubmissions(actions: seq<Action>) {
    forall i :: 0 <= i < |actions| && actions[i].SubmitObject? ==> Canonical(actions[i].cmd)
  }

  lemma CleanTogether(a: seq<Action>, b: seq<Action>)
    requires CleanSubmissions(a) && CleanSubmissions(b)
    ensures CleanSubmissions(a + b)
  {
    hide Canonical;
  }

  lemma CleanOne(a: Action)
    ensures !a.SubmitObject? ==> CleanSubmissions([a])
    ensures CleanSubmissions([])
  {
  }

  // Every deck that was run could be read and was sent.
  ghost predicate DecksSent(jobs: seq<Job>) {
    forall i :: 0 <= i < |jobs| ==> jobs[i].cmd.RunDeck? && Settled(jobs[i]) ==> jobs[i].deck.Some?
  }

  ghost predicate AllCanonical(jobs: seq<Job>) {
    forall i :: 0 <= i < |jobs| ==> Canonical(jobs[i].cmd)
  }

  // The commands whose messages are complete: all but a last run-deck that may
  // yet send its deck.
  function Delivered(jobs: seq<Job>): seq<Job> {
    if jobs != [] && !Settled(Last(jobs)) then jobs[..|jobs| - 1] else jobs
  }

  // The follower has executed commands the leader has begun, the last of which
  // the leader may not have finished; with everything received it has executed
  // all that is complete; and it stops at quit and nowhere else.
  ghost predicate InStepWith(f: Follower, l: Leader) {
    && !f.died && f.executed <= Records(l.jobs) && |f.executed| <= |Ended(l.jobs)| + 1
    && (f.received == |l.broadcast| ==> f.executed == Records(Delivered(l.jobs)))
    && (f.stopped ==> Quitting(l) && f.received == |l.broadcast|)
    && (f.received == |l.broadcast| ==> (f.stopped <==> Quitting(l)))
  }

  lemma InStep(f: Follower, l: Leader)
    requires FollowerInv(f, l) && LogInv(l) && AllCanonical(l.jobs) && DecksSent(l.jobs)
    ensures InStepWith(f, l)
  {
    NeverLost(f, l);
    InStepSoFar(f, l);
    if f.received == |l.broadcast| {
      AllReceived(f, l);
    }
    hide Parse, ToStr, Wire, Canonical, DecksSent, AllCanonical, FollowerInv, JobInv, Settled;
    var m, rs := |f.executed|, Records(l.jobs);
    if f.stopped {
      assert l.jobs[m - 1].cmd == Quit && m == |l.jobs|;
      assert rs[..|rs|] == rs;
    }
  }

  lemma NeverLost(f: Follower, l: Leader)
    requires FollowerInv(f, l) && AllCanonical(l.jobs) && DecksSent(l.jobs)
    ensures Sync(f, l)
  {
    hide Canonical, Sync;
    forall j
      ensures !LostAt(f, l, j)
    {
    }
  }

  lemma InStepSoFar(f: Follower, l: Leader)
    requires Sync(f, l) && LogInv(l) && AllCanonical(l.jobs)
    ensures !f.died && f.executed <= Records(l.jobs) && |f.executed| <= |Ended(l.jobs)| + 1
  {
    if f.died {
      PrintParse(l.jobs[|f.executed|].cmd);
    }
    hide Parse, ToStr, Canonical, Wire, JobInv;
  }

  lemma AllReceived(f: Follower, l: Leader)
    requires Sync(f, l) && LogInv(l) && DecksSent(l.jobs) && !f.died && f.received == |l.broadcast|
    ensures f.executed == Records(Delivered(l.jobs)) && (Quitting(l) ==> f.stopped)
  {
    var m, rs := |f.executed|, Records(l.jobs);
    if m < |rs| {
      WireAt(rs, m);
      MessageCount(rs[m]);
      hide Wire, Messages, Parse, ToStr, Canonical, JobInv;
      assert !Settled(l.jobs[m]);
      assert m == |rs| - 1;
      assert Records(Delivered(l.jobs)) == rs[..m];
    } else {
      hide Wire, Parse, ToStr, Canonical, JobInv;
      assert rs[..m] == rs;
      assert l.jobs != [] ==> Good(RecordOf(Last(l.jobs)));
    }
  }

  lemma {:induction false} SubmittedCanonical(n: nat, actions: seq<Action>)
    requires CleanSubmissions(actions)
    ensures forall e :: e in Run(Init(n), actions).submitted ==> Canonical(e.cmd)
  {
    if actions == [] {
    } else {
      var before, a := actions[..|actions| - 1], actions[|actions| - 1];
      SubmittedCanonical(n, before);
      hide Canonical, Poll, SendDeck, Finish;
      if a.SubmitText? && Parse(a.s).Ok? {
        ParsedIsCanonical(a.s);
      }
    }
  }

  lemma {:induction false} JobFromQueue(jobs: seq<Job>, j: nat)
    requires j < |jobs| && jobs[j].id.Some?
    ensures Entry(jobs[j].id.value, jobs[j].cmd) in FromQueue(jobs)
  {
    if j == |jobs| - 1 {
    } else {
      JobFromQueue(jobs[..|jobs| - 1], j);
    }
  }

  lemma CleanLog(n: nat, actions: seq<Action>)
    requires CleanSubmissions(actions)
    ensures AllCanonical(Run(Init(n), actions).leader.jobs)
  {
    Invariant(n, actions);
    SubmittedCanonical(n, actions);
    var s := Run(Init(n), actions);
    assert Canonical(Nop);
    hide Canonical, Run, Init, FollowerInv, ClockInv, Wire;
    forall j | 0 <= j < |s.leader.jobs|
      ensures Canonical(s.leader.jobs[j].cmd)
    {
      assert JobInv(s.leader.jobs[j]);
      if s.leader.jobs[j].id.Some? {
        JobFromQueue(s.leader.jobs, j);
        assert Entry(s.leader.jobs[j].id.value, s.leader.jobs[j].cmd) in s.submitted;
      }
    }
  }

  lemma AllInStep(n: nat, actions: seq<Action>, i: nat)
    requires i < n && CleanSubmissions(actions) && DecksSent(Run(Init(n), actions).leader.jobs)
    ensures var s := Run(Init(n), actions); |s.followers| == n && InStepWith(s.followers[i], s.leader)
  {
    Invariant(n, actions);
    CleanLog(n, actions);
    var s := Run(Init(n), actions);
    hide Run, Init, FollowerInv, LogInv, QueueInv, ClockInv, InStepWith, AllCanonical, DecksSent;
    InStep(s.followers[i], s.leader);
  }

  // Replication: with canonical submissions and decks that can be read, in
  // every reachable state every follower's executions are a prefix of what the
  // leader has begun, at most one command ahead of what the leader has finished,
  // and all there is to execute once everything is received.
  lemma ReplicationTheorem(n: nat, actions: seq<Action>, i: nat)
    requires i < n && CleanSubmissions(actions) && DecksSent(Run(Init(n), actions).leader.jobs)
    ensures var s := Run(Init(n), actions);
      && |s.followers| == n
      && var f, l := s.followers[i], s.leader;
      && !f.died && f.executed <= Records(l.jobs) && |f.executed| <= |Ended(l.jobs)| + 1
      && (f.received == |l.broadcast| ==> f.executed == Records(Delivered(l.jobs)))
  {
    AllInStep(n, actions, i);
    hide Run, Init, Delivered, Ended, CleanSubmissions, DecksSent;
  }

  // ---- Who hears quit -----------------------------------------------------------------------

  // What the leader broadcast before its quit.
  function BeforeQuit(l: Leader): seq<Record> {
    if Quitting(l) then Records(l.jobs[..|l.jobs| - 1]) else Records(l.jobs)
  }

  lemma WithQuit(l: Leader)
    requires LogInv(l) && AllCanonical(l.jobs)
    ensures Clean(BeforeQuit(l))
    ensures Records(l.jobs) == if Quitting(l) then BeforeQuit(l) + [Record(Quit, None)] else BeforeQuit(l)
  {
    hide Wire, Canonical;
    forall i | 0 <= i < |l.jobs|
      ensures CleanRecord(RecordOf(l.jobs[i]))
    {
      assert JobInv(l.jobs[i]);
    }
    if Quitting(l) {
      assert JobInv(Last(l.jobs));
      assert l.jobs == l.jobs[..|l.jobs| - 1] + [Last(l.jobs)];
    }
    hide CleanRecord, JobInv;
  }

  // With canonical submissions: a follower that has received everything up to
  // the leader's quit has stopped exactly if it was not astray before it.  One
  // that stops or dies earlier was derailed.
  lemma QuitHeard(n: nat, actions: seq<Action>, i: nat)
    requires i < n && CleanSubmissions(actions)
    ensures var s := Run(Init(n), actions);
      && |s.followers| == n
      && var f, l := s.followers[i], s.leader;
      && (Quitting(l) && f.received == |l.broadcast| ==> !f.died && (f.stopped <==> !Astray(BeforeQuit(l))))
      && (f.died || (f.stopped && !(Quitting(l) && f.received == |l.broadcast|)) ==> Derailed(BeforeQuit(l)))
  {
    Invariant(n, actions);
    CleanLog(n, actions);
    FollowersRunTheLoop(n, actions, i);
    var s := Run(Init(n), actions);
    assert LogInv(s.leader);
    hide Run, Init, LogInv, QueueInv, ClockInv, FollowerInv, AllCanonical, Followed;
    hide Quitting, BeforeQuit, Astray, Derailed;
    QuitHeardBy(s.followers[i], s.leader);
  }

  lemma QuitHeardBy(f: Follower, l: Leader)
    requires LogInv(l) && AllCanonical(l.jobs)
    requires f.received <= |l.broadcast| && f == Followed(l.broadcast[..f.received])
    ensures Quitting(l) && f.received == |l.broadcast| ==> !f.died && (f.stopped <==> !Astray(BeforeQuit(l)))
    ensures f.died || (f.stopped && !(Quitting(l) && f.received == |l.broadcast|)) ==> Derailed(BeforeQuit(l))
  {
    WithQuit(l);
    EndsForGood(l.broadcast, f.received);
    assert l.broadcast[..|l.broadcast|] == l.broadcast;
    var rs := BeforeQuit(l);
    assert l.broadcast == Wire(Records(l.jobs));
    hide LogInv, AllCanonical, Followed, Wire, Clean, Derailed, Astray, BeforeQuit;
    if Quitting(l) {
      QuitHeardExactly(rs);
    } else {
      HeardExactly(rs);
      PhaseAfter(rs);
    }
  }

  // A follower that has ended is what it would be after everything.
  lemma EndsForGood(b: seq<string>, k: nat)
    requires k <= |b|
    ensures var f := Followed(b[..k]); f.stopped || f.died ==> Followed(b) == f
  {
    StepsRead(b[..k], b, k);
    hide StepTimes;
    if Followed(b[..k]).stopped || Followed(b[..k]).died {
      EndedStays(FRESH, b, k, |b|);
    }
  }

  // With canonical submissions, and decks that are harmless where they are read
  // as commands, no follower dies, and in every reachable state one has stopped
  // exactly if it has received everything, quit included, and the number of
  // decks missing right before quit is even.  The leader has stopped once it has
  // finished that quit.
  lemma FollowersStopTogether(n: nat, actions: seq<Action>, i: nat)
    requires i < n && CleanSubmissions(actions) && HarmlessDecks(BeforeQuit(Run(Init(n), actions).leader))
    ensures var s := Run(Init(n), actions);
      && |s.followers| == n
      && var f, l := s.followers[i], s.leader;
      && !f.died
      && (f.stopped <==> Quitting(l) && f.received == |l.broadcast| && Missing(BeforeQuit(l)) % 2 == 0)
      && (l.stopped <==> Quitting(l) && !Busy(l))
  {
    Invariant(n, actions);
    QuitHeard(n, actions, i);
    var s := Run(Init(n), actions);
    AstrayByCount(BeforeQuit(s.leader));
    assert LogInv(s.leader);
    hide Run, Init, Wire, FollowerInv, QueueInv, ClockInv, JobInv, Missing, Astray, Derailed, HarmlessDecks, BeforeQuit;
  }

  // Where every deck was sent, none is read as a command and none is missing at quit.
  lemma DecksSentSuffices(l: Leader)
    requires LogInv(l) && DecksSent(l.jobs)
    ensures HarmlessDecks(BeforeQuit(l)) && (Quitting(l) ==> Missing(BeforeQuit(l)) == 0)
  {
    hide Wire, JobInv, Harmless;
    var rs := BeforeQuit(l);
    forall i | 0 <= i < |l.jobs| && i <= |rs|
      ensures Missing(rs[..i]) == 0
    {
      if i > 0 {
        assert rs[..i][i - 1] == RecordOf(l.jobs[i - 1]) && Settled(l.jobs[i - 1]);
      }
    }
    assert rs[..|rs|] == rs;
  }

  // ---- Order, progress and quit ---------------------------------------------------------

  // Commands leave the queue in submission order, each exactly once.  Their
  // events are set in the same order, each once, whether or not do() raised,
  // and only the command in progress can have been begun without that.
  lemma ExecutionOrder(n: nat, actions: seq<Action>)
    ensures var s := Run(Init(n), actions);
      && FromQueue(s.leader.jobs) + s.leader.queue == s.submitted
      && s.leader.finished <= FromQueue(s.leader.jobs) <= s.submitted
      && s.leader.finished == FromQueue(Ended(s.leader.jobs))
      && |FromQueue(s.leader.jobs)| <= |s.leader.finished| + 1
      && (forall i :: 0 <= i < |s.submitted| ==> s.submitted[i].id == i)
  {
    Invariant(n, actions);
    hide Run, Init;
  }

  // What each attempt to submit a command comes to.
  ghost function Attempts(actions: seq<Action>): seq<ParseResult> {
    if actions == [] then []
    else
      Attempts(actions[..|actions| - 1]) +
      match actions[|actions| - 1] {
        case SubmitText(s) => [Parse(s)]
        case SubmitObject(cmd) => [ParseResult.Ok(cmd)]
        case _ => []
      }
  }

  // The accepted commands are those of the attempts before the first that
  // cannot be parsed, in order; with that attempt the lock is stuck.
  lemma {:induction false} AcceptedUntilStuck(n: nat, actions: seq<Action>)
    ensures var s, tried := Run(Init(n), actions), Attempts(actions);
      && |s.submitted| <= |tried|
      && (forall i :: 0 <= i < |s.submitted| ==> tried[i] == ParseResult.Ok(s.submitted[i].cmd))
      && (if s.leader.locked then |s.submitted| < |tried| && tried[|s.submitted|] == ValueError
          else |s.submitted| == |tried|)
  {
    if actions == [] {
    } else {
      AcceptedUntilStuck(n, actions[..|actions| - 1]);
      AcceptNext(Run(Init(n), actions[..|actions| - 1]), actions[|actions| - 1]);
      hide Next, Parse;
    }
  }

  // What one action adds to the accepted commands.
  lemma AcceptNext(s: System, a: Action)
    ensures var s' := Next(s, a);
      match a {
        case SubmitText(text) => Accepts(s, s', Parse(text))
        case SubmitObject(cmd) => Accepts(s, s', ParseResult.Ok(cmd))
        case _ => s'.submitted == s.submitted && s'.leader.locked == s.leader.locked
      }
  {
    hide Parse, ToStr, Step;
  }

  ghost predicate Accepts(s: System, s': System, result: ParseResult) {
    if s.leader.locked then s'.submitted == s.submitted && s'.leader.locked
    else if result.ValueError? then s'.submitted == s.submitted && s'.leader.locked
    else s'.submitted == s.submitted + [Entry(s.leader.nextId, result.cmd)] && !s'.leader.locked
  }

  // At most ten polls in a row pass without a broadcast, and idle polls and
  // heartbeats keep an exact ratio however commands fall in between.
  lemma HeartbeatClock(n: nat, actions: seq<Action>)
    ensures var s := Run(Init(n), actions);
      && s.silent <= 10
      && 11 * Heartbeats(s.leader.jobs) <= s.idle <= 11 * Heartbeats(s.leader.jobs) + 10
  {
    Invariant(n, actions);
    hide Run, Init, LogInv, QueueInv, FollowerInv, Heartbeats;
  }

  function Polls(actions: seq<Action>): nat {
    if actions == [] then 0 else Polls(actions[..|actions| - 1]) + (if actions[|actions| - 1].LeaderPoll? then 1 else 0)
  }

  // No eleven polls pass without a broadcast, whatever happens in between, from
  // any reachable state where the leader neither runs a command nor has stopped,
  // and as long as the lock is free.
  lemma NoLongSilence(n: nat, before: seq<Action>, after: seq<Action>)
    requires var t, u := Run(Init(n), before).leader, Run(Run(Init(n), before), after).leader;
      !t.stopped && !Busy(t) && !u.locked && u.broadcast == t.broadcast
    ensures Polls(after) <= 10
  {
    Invariant(n, before);
    SilentPolls(Run(Init(n), before), after);
    hide Run, Init, LogInv, QueueInv, FollowerInv, Polls;
  }

  // Every silent poll takes one off the idle count.
  lemma {:induction false} SilentPolls(s: System, after: seq<Action>)
    requires !s.leader.stopped && !Busy(s.leader)
    ensures var l, u := s.leader, Run(s, after).leader;
      && l.broadcast <= u.broadcast
      && (!u.locked && u.broadcast == l.broadcast ==>
            !u.stopped && !Busy(u) && u.nopCnt + Polls(after) == l.nopCnt)
  {
    if after == [] {
    } else {
      var most, a := after[..|after| - 1], after[|after| - 1];
      SilentPolls(s, most);
      var m := Run(s, most);
      BroadcastGrows(m, a);
      NextLocked(m, a);
      hide Next, Busy;
      var u := Next(m, a).leader;
      if !u.locked && u.broadcast == s.leader.broadcast {
        SilentAction(m, a);
      }
    }
  }

  lemma SilentAction(m: System, a: Action)
    requires !m.leader.stopped && !Busy(m.leader) && !Next(m, a).leader.locked
    requires Next(m, a).leader.broadcast == m.leader.broadcast
    ensures var l := Next(m, a).leader;
      && !l.stopped && !Busy(l)
      && l.nopCnt + (if a.LeaderPoll? then 1 else 0) == m.leader.nopCnt
  {
    NextLocked(m, a);
    hide Parse, ToStr, Step;
  }

  // No broadcast and no command more; once stopped, nothing but submissions.
  ghost predicate NothingMore(l: Leader, l': Leader) {
    && Quitting(l') && l'.broadcast == l.broadcast && |l'.jobs| == |l.jobs|
    && (l.stopped ==> l' == l.(queue := l'.queue, nextId := l'.nextId, locked := l'.locked))
  }

  // Once quit is broadcast, nothing more is broadcast and no command begins.
  lemma {:induction false} QuitIsFinal(n: nat, before: seq<Action>, after: seq<Action>)
    requires Quitting(Run(Init(n), before).leader)
    ensures NothingMore(Run(Init(n), before).leader, Run(Run(Init(n), before), after).leader)
    decreases |after|
  {
    if after == [] {
    } else {
      var most := after[..|after| - 1];
      QuitIsFinal(n, before, most);
      RunConcat(Init(n), before, most);
      Invariant(n, before + most);
      Invariant(n, before);
      var s, a := Run(Run(Init(n), before), most), after[|after| - 1];
      assert LogInv(s.leader);
      hide Run, Init, LogInv, QueueInv, ClockInv, FollowerInv;
      QuitStays(s, a);
    }
  }

  lemma QuitStays(s: System, a: Action)
    requires LogInv(s.leader) && Quitting(s.leader)
    ensures NothingMore(s.leader, Next(s, a).leader)
  {
    hide Parse, ToStr, Step, Wire, JobInv;
  }

  // Counts how often the running command ends and the loop then polls again.
  // `armed` says that the former has happened since the last time.
  ghost function Rounds(actions: seq<Action>): (nat, bool) {
    if actions == [] then (0, false)
    else
      var (count, armed) := Rounds(actions[..|actions| - 1]);
      match actions[|actions| - 1] {
        case LeaderFinish(_) => (count, true)
        case LeaderPoll => if armed then (count + 1, false) else (count, false)
        case _ => (count, armed)
      }
  }

  // Progress: after as many rounds as there are commands ahead, a submitted
  // command has been begun, unless the leader stopped or a rejected string left
  // the lock taken.
  lemma {:induction false} BoundedWaiting(n: nat, before: seq<Action>, after: seq<Action>)
    ensures var s, t := Run(Init(n), before), Run(Run(Init(n), before), after);
      && |s.submitted| <= |t.submitted|
      && (t.leader.stopped || t.leader.locked
          || |FromQueue(t.leader.jobs)| >= |FromQueue(s.leader.jobs)| + Rounds(after).0
          || |FromQueue(t.leader.jobs)| >= |s.submitted|)
  {
    RoundsCount(n, before, after);
  }

  lemma {:induction false} RoundsCount(n: nat, before: seq<Action>, after: seq<Action>)
    ensures var s, t := Run(Init(n), before), Run(Run(Init(n), before), after);
      |s.submitted| <= |t.submitted| && Keeps(s, t, Rounds(after).0, Rounds(after).1)
    decreases |after|
  {
    var s := Run(Init(n), before);
    if after == [] {
    } else {
      var most := after[..|after| - 1];
      RoundsCount(n, before, most);
      RunConcat(Init(n), before, most);
      Invariant(n, before + most);
      var t, a := Run(s, most), after[|after| - 1];
      hide Run, Init;
      NextKeepsCount(s, t, a, Rounds(most).0, Rounds(most).1);
    }
  }

  // From s to t, `count` commands have been begun, or all there were; and if
  // the running command has ended since, nothing runs that is not counted.
  ghost predicate Keeps(s: System, t: System, count: nat, armed: bool) {
    var goal := |FromQueue(s.leader.jobs)| + count;
    || t.leader.stopped || t.leader.locked
    || |FromQueue(t.leader.jobs)| >= |s.submitted|
    || |FromQueue(t.leader.jobs)| > goal
    || (|FromQueue(t.leader.jobs)| == goal && (armed ==> !Busy(t.leader)))
  }

  lemma NextKeepsCount(s: System, t: System, a: Action, count: nat, armed: bool)
    requires Inv(t) && |s.submitted| <= |t.submitted| && Keeps(s, t, count, armed)
    ensures |s.submitted| <= |Next(t, a).submitted|
    ensures a.LeaderPoll? ==> Keeps(s, Next(t, a), if armed then count + 1 else count, false)
    ensures a.LeaderFinish? ==> Keeps(s, Next(t, a), count, true)
    ensures !a.LeaderPoll? && !a.LeaderFinish? ==> Keeps(s, Next(t, a), count, armed)
  {
    NextProgress(t, a);
    hide Next, Inv, FromQueue, Busy;
  }

  // What one action does to the number of commands begun.
  ghost predicate Progress(t: System, t': System, a: Action) {
    && |t.submitted| <= |t'.submitted|
    && (t.leader.stopped ==> t'.leader.stopped) && (t.leader.locked ==> t'.leader.locked)
    && |FromQueue(t'.leader.jobs)| >= |FromQueue(t.leader.jobs)|
    && (!a.LeaderPoll? ==> FromQueue(t'.leader.jobs) == FromQueue(t.leader.jobs))
    && (a.LeaderFinish? ==> !Busy(t'.leader))
    && (!a.LeaderPoll? && !Busy(t.leader) ==> !Busy(t'.leader))
    && (a.LeaderPoll? && !Busy(t.leader) ==>
          (t'.leader.stopped || t'.leader.locked
           || |FromQueue(t'.leader.jobs)| == |FromQueue(t.leader.jobs)| + 1
           || |FromQueue(t'.leader.jobs)| == |t'.submitted|))
  }

  lemma NextProgress(t: System, a: Action)
    requires Inv(t)
    ensures Progress(t, Next(t, a), a)
  {
    match a
    case SubmitText(_) => OtherProgress(t, a);
    case SubmitObject(_) => OtherProgress(t, a);
    case LeaderPoll => PollingProgress(t);
    case LeaderSendDeck(_) => DuringProgress(t, a);
    case LeaderFinish(_) => DuringProgress(t, a);
    case Receive(_) => OtherProgress(t, a);
  }

  lemma OtherProgress(t: System, a: Action)
    requires !a.LeaderPoll? && !a.LeaderSendDeck? && !a.LeaderFinish?
    ensures Progress(t, Next(t, a), a)
  {
    hide Parse, Step, FromQueue;
  }

  lemma PollingProgress(t: System)
    requires Inv(t)
    ensures Progress(t, Next(t, LeaderPoll), LeaderPoll)
  {
    PollProgress(t.leader);
    assert t.leader.queue == [] ==> |FromQueue(t.leader.jobs)| == |t.submitted|;
    hide Poll, FromQueue, Inv;
  }

  lemma DuringProgress(t: System, a: Action)
    requires Inv(t) && (a.LeaderSendDeck? || a.LeaderFinish?)
    ensures Progress(t, Next(t, a), a)
  {
    assert t.leader.stopped ==> !Busy(t.leader);
    hide Inv, FromQueue, Heartbeats;
    if a.LeaderSendDeck? {
      SendDeckRest(t.leader, a.text);
    } else {
      FinishRest(t.leader, a.raises);
      FinishEnds(t.leader, a.raises);
    }
  }

  lemma PollProgress(l: Leader)
    ensures var l' := Poll(l);
      || (l' == l && (l.stopped || l.locked || Busy(l)))
      || (l.queue == [] && FromQueue(l'.jobs) == FromQueue(l.jobs))
      || |FromQueue(l'.jobs)| == |FromQueue(l.jobs)| + 1
    ensures l.stopped ==> Poll(l).stopped
    ensures l.locked ==> Poll(l).locked
  {
    hide ToStr;
    var l' := Poll(l);
    if l'.jobs != l.jobs {
      assert l'.jobs == l.jobs + [Last(l'.jobs)];
      JobAppends(l.jobs, Last(l'.jobs));
      hide FromQueue;
    }
  }

  // ---- The lock ---------------------------------------------------------------------------

  ghost predicate Rejected(a: Action) {
    a.SubmitText? && Parse(a.s).ValueError?
  }

  lemma NextLocked(s: System, a: Action)
    ensures Next(s, a).leader.locked <==> s.leader.locked || Rejected(a)
  {
    hide Parse, ToStr, Step;
  }

  // The lock is stuck exactly when some submitted string could not be parsed.
  lemma {:induction false} LockStuckExactly(n: nat, actions: seq<Action>)
    ensures Run(Init(n), actions).leader.locked <==> exists a :: a in actions && Rejected(a)
  {
    hide Next, Rejected;
    if actions == [] {
    } else {
      var before, a := actions[..|actions| - 1], actions[|actions| - 1];
      LockStuckExactly(n, before);
      NextLocked(Run(Init(n), before), a);
      MembersOfExtended(actions);
    }
  }

  lemma MembersOfExtended(actions: seq<Action>)
    requires actions != []
    ensures forall x :: x in actions <==> x in actions[..|actions| - 1] || x == actions[|actions| - 1]
  {
    assert actions == actions[..|actions| - 1] + [actions[|actions| - 1]];
  }

  // Nothing is accepted or begun: the leader can only finish the command in
  // progress, and without one it does not change.
  ghost predicate OnlyFinishing(l: Leader, l': Leader) {
    && l'.locked && l'.queue == l.queue && l'.nextId == l.nextId && |l'.jobs| == |l.jobs|
    && (!Busy(l) ==> l' == l)
  }

  lemma LockedNext(s: System, a: Action)
    requires s.leader.locked
    ensures OnlyFinishing(s.leader, Next(s, a).leader)
  {
    hide Parse, Step, ToStr;
  }

  lemma {:induction false} LockedIsFinal(s: System, actions: seq<Action>)
    requires s.leader.locked
    ensures OnlyFinishing(s.leader, Run(s, actions).leader)
  {
    if actions == [] {
    } else {
      var before := actions[..|actions| - 1];
      LockedIsFinal(s, before);
      LockedNext(Run(s, before), actions[|actions| - 1]);
      hide Next;
    }
  }

  // ---- The program loops ---------------------------------------------------------------------

  // In every reachable state each follower is exactly what the loop of the other
  // processors makes of the broadcasts it has received.
  lemma {:induction false} FollowersRunTheLoop(n: nat, actions: seq<Action>, i: nat)
    requires i < n
    ensures var s := Run(Init(n), actions);
      && |s.followers| == n
      && var f := s.followers[i];
      f.received <= |s.leader.broadcast| && f == Followed(s.leader.broadcast[..f.received])
  {
    Invariant(n, actions);
    if actions == [] {
    } else {
      var before, a := actions[..|actions| - 1], actions[|actions| - 1];
      FollowersRunTheLoop(n, before, i);
      Invariant(n, before);
      var s := Run(Init(n), before);
      assert Inv(s);
      hide Run, Init, Inv, Followed, Step, Next;
      FollowerOnNext(s, a, i);
    }
  }

  lemma FollowerOnNext(s: System, a: Action, i: nat)
    requires Inv(s) && i < |s.followers|
    requires var f := s.followers[i];
      f.received <= |s.leader.broadcast| && f == Followed(s.leader.broadcast[..f.received])
    ensures var s' := Next(s, a);
      && i < |s'.followers|
      && var f := s'.followers[i];
      f.received <= |s'.leader.broadcast| && f == Followed(s'.leader.broadcast[..f.received])
  {
    var f, b := s.followers[i], s.leader.broadcast;
    BroadcastGrows(s, a);
    OneFollowerSteps(s, a, i);
    StepIsFollowed(f, b);
    hide Step, Followed, Next, Inv;
    assert Next(s, a).leader.broadcast[..f.received] == b[..f.received];
  }

  lemma BroadcastGrows(s: System, a: Action)
    ensures s.leader.broadcast <= Next(s, a).leader.broadcast
    ensures a.Receive? ==> Next(s, a).leader == s.leader
    ensures !a.Receive? ==> Next(s, a).followers == s.followers
  {
    hide Parse, ToStr, Step;
  }

  lemma OneFollowerSteps(s: System, a: Action, i: nat)
    requires i < |s.followers|
    ensures |Next(s, a).followers| == |s.followers|
    ensures Next(s, a).followers[i]
         == if a == Receive(i) then Step(s.followers[i], s.leader.broadcast) else s.followers[i]
  {
    hide Step, AddText, AddObject, Poll, SendDeck, Finish;
  }

  // The loop of processor 0 is a run of the system: for every script there is a
  // sequence of actions, of the leader and of front ends, with the same effect.
  lemma {:induction false} ScriptIsRun(s: System, script: seq<Tick>) returns (actions: seq<Action>)
    requires !Busy(s.leader)
    ensures Run(s, actions).leader == RunScript(s.leader, script) && Run(s, actions).followers == s.followers
    ensures CleanSubmissions(actions) && !Busy(RunScript(s.leader, script))
    decreases |script|
  {
    actions := [];
    if script == [] || s.leader.stopped {
    } else {
      var texts := ArrivalsAreRun(s, script[0].arrivals);
      var s1 := Run(s, texts);
      var steps := IterationIsRun(s1, script[0].outcome);
      var s2 := Run(s1, steps);
      FinishEnds(Do(Poll(s1.leader), script[0].outcome), script[0].outcome.raises);
      hide Run, Finish, Do, Poll, AddAll, CleanSubmissions;
      var rest := ScriptIsRun(s2, script[1..]);
      actions := texts + steps + rest;
      RunConcat(s, texts, steps);
      RunConcat(s, texts + steps, rest);
      CleanTogether(texts, steps);
      CleanTogether(texts + steps, rest);
    }
  }

  lemma {:induction false} ArrivalsAreRun(s: System, arrivals: seq<string>) returns (actions: seq<Action>)
    ensures Run(s, actions).leader == AddAll(s.leader, arrivals) && Run(s, actions).followers == s.followers
    ensures CleanSubmissions(actions)
    decreases |arrivals|
  {
    if arrivals == [] {
      actions := [];
    } else {
      OneArrival(s, arrivals[0]);
      assert AddAll(s.leader, arrivals) == AddAll(AddText(s.leader, arrivals[0]), arrivals[1..]);
      hide Run, AddAll, AddText, CleanSubmissions;
      var first := [SubmitText(arrivals[0])];
      var rest := ArrivalsAreRun(Run(s, first), arrivals[1..]);
      actions := first + rest;
      RunConcat(s, first, rest);
      CleanOne(first[0]);
      CleanTogether(first, rest);
    }
  }

  lemma OneArrival(s: System, text: string)
    ensures var s' := Run(s, [SubmitText(text)]);
      s'.leader == AddText(s.leader, text) && s'.followers == s.followers
  {
    RunExtended(s, [], SubmitText(text));
    assert [] + [SubmitText(text)] == [SubmitText(text)] && Run(s, []) == s;
    hide Run, AddText;
  }

  // What an action of the leader does to the leader; followers do not move.
  lemma LeaderActs(s: System, actions: seq<Action>, a: Action)
    ensures var t, t' := Run(s, actions), Run(s, actions + [a]);
      && (!a.Receive? ==> t'.followers == t.followers)
      && (a.LeaderPoll? ==> t'.leader == Poll(t.leader))
      && (a.LeaderSendDeck? ==> t'.leader == SendDeck(t.leader, a.text))
      && (a.LeaderFinish? ==> t'.leader == Finish(t.leader, a.raises))
    ensures CleanSubmissions(actions) && !a.SubmitObject? ==> CleanSubmissions(actions + [a])
  {
    CleanOne(a);
    hide CleanSubmissions;
    if CleanSubmissions(actions) && !a.SubmitObject? {
      CleanTogether(actions, [a]);
    }
    RunExtended(s, actions, a);
    BroadcastGrows(Run(s, actions), a);
    hide Run, Poll, SendDeck, Finish, AddText, Step;
  }

  lemma IterationIsRun(s: System, o: Outcome) returns (actions: seq<Action>)
    ensures Run(s, actions).leader == Iterate(s.leader, o) && Run(s, actions).followers == s.followers
    ensures CleanSubmissions(actions)
  {
    assert Run(s, []) == s;
    CleanOne(LeaderPoll);
    hide Run, Poll, SendDeck, Finish, CleanSubmissions;
    LeaderActs(s, [], LeaderPoll);
    actions := [] + [LeaderPoll];
    if o.deck.Some? {
      LeaderActs(s, actions, LeaderSendDeck(o.deck.value));
      actions := actions + [LeaderSendDeck(o.deck.value)];
    }
    LeaderActs(s, actions, LeaderFinish(o.raises));
    actions := actions + [LeaderFinish(o.raises)];
  }

  lemma OnlyFollower(s: System, f: Follower)
    ensures Next(s.(followers := [f]), Receive(0)) == s.(followers := [Step(f, s.leader.broadcast)])
  {
    hide Step;
  }

  // A follower that keeps receiving catches up.
  lemma {:induction false} ReceiveAll(s: System, k: nat) returns (actions: seq<Action>)
    requires s.followers == [FRESH]
    ensures Run(s, actions) == s.(followers := [StepTimes(FRESH, s.leader.broadcast, k)])
    ensures CleanSubmissions(actions)
  {
    if k == 0 {
      actions := [];
      assert s == s.(followers := [FRESH]);
    } else {
      var before := ReceiveAll(s, k - 1);
      actions := before + [Receive(0)];
      RunExtended(s, before, Receive(0));
      OnlyFollower(s, StepTimes(FRESH, s.leader.broadcast, k - 1));
      CleanOne(Receive(0));
      CleanTogether(before, [Receive(0)]);
      hide Run, Step, Next, CleanSubmissions;
    }
  }

  // Both loops end to end, for every script of submitted strings and outcomes.
  // Processor 0 does tick by tick what Played says.  Commands are finished in
  // submission order.  A follower that hears all broadcasts executes exactly the
  // same commands with the same decks if and only if every deck that was run could
  // be read; and with harmless decks it stops exactly if processor 0 does and the
  // number of decks missing right before quit is even.  Whatever the decks, it
  // stops at that quit exactly if it was neither derailed nor astray before.
  lemma ScriptTheorem(script: seq<Tick>) returns (counts: seq<Count>)
    ensures Played(script, PlayOf(counts, RunScript(START, script)))
    ensures var l := RunScript(START, script);
      && l.broadcast == Wire(Records(l.jobs)) && l.finished == FromQueue(l.jobs)
      && (forall i :: 0 <= i < |l.finished + l.queue| ==> (l.finished + l.queue)[i].id == i)
      && (l.stopped <==> Quitting(l))
    ensures var l := RunScript(START, script); Agree(Followed(l.broadcast), l)
  {
    var leads := ScriptIsRun(Init(1), script);
    var s := Run(Init(1), leads);
    Invariant(1, leads);
    assert s.leader == RunScript(START, script) && s.followers == [FRESH];
    hide Run, Init, Inv, RunScript, Followed, CleanSubmissions, Agree, Played;
    IdleLog(s);
    FollowerAgrees(leads, s);
    counts := LoopPlays(script);
  }

  // How a follower that hears everything and the leader compare.
  ghost predicate Agree(f: Follower, l: Leader) {
    && (f.executed == Records(l.jobs) <==> DecksSent(l.jobs))
    && (DecksSent(l.jobs) ==> !f.died && (f.stopped <==> l.stopped))
    && (HarmlessDecks(BeforeQuit(l)) ==>
          !f.died && (f.stopped <==> l.stopped && Missing(BeforeQuit(l)) % 2 == 0))
    && (l.stopped ==>
          (f.stopped && f.received == |l.broadcast| <==> !Derailed(BeforeQuit(l)) && !Astray(BeforeQuit(l))))
    && (!l.stopped ==> (f.stopped || f.died <==> Derailed(BeforeQuit(l))))
  }

  lemma FollowerAgrees(leads: seq<Action>, s: System)
    requires s == Run(Init(1), leads) && s.followers == [FRESH] && !Busy(s.leader) && CleanSubmissions(leads)
    ensures Agree(Followed(s.leader.broadcast), s.leader)
  {
    var b := s.leader.broadcast;
    var hears := ReceiveAll(s, |b|);
    RunConcat(Init(1), leads, hears);
    CleanTogether(leads, hears);
    assert Run(Init(1), leads + hears) == s.(followers := [Followed(b)]);
    Invariant(1, leads);
    CleanLog(1, leads);
    assert LogInv(s.leader);
    hide Run, Init, DecksSent, CleanSubmissions, Followed, LogInv, FollowerInv, QueueInv, ClockInv, AllCanonical;
    FollowerExecutes(leads + hears, s);
    FollowerStops(s.leader);
  }

  lemma FollowerExecutes(actions: seq<Action>, s: System)
    requires Run(Init(1), actions) == s.(followers := [Followed(s.leader.broadcast)])
    requires CleanSubmissions(actions) && LogInv(s.leader) && !Busy(s.leader)
    ensures var f, l := Followed(s.leader.broadcast), s.leader;
      && (f.executed == Records(l.jobs) <==> DecksSent(l.jobs))
      && (DecksSent(l.jobs) ==> !f.died && (f.stopped <==> l.stopped))
  {
    var b, l := s.leader.broadcast, s.leader;
    var f := Followed(b);
    FaithfulExactly(1, actions, 0);
    StepsRead(b, b, |b|);
    if DecksSent(l.jobs) {
      AllInStep(1, actions, 0);
      assert Delivered(l.jobs) == l.jobs;
    }
    hide Run, Init, CleanSubmissions, Wire, JobInv, StepTimes, Canonical, Followed;
    if f.executed == Records(l.jobs) {
      forall i | 0 <= i < |l.jobs|
        ensures l.jobs[i].cmd.RunDeck? ==> l.jobs[i].deck.Some?
      {
        assert Good(RecordOf(l.jobs[i]));
      }
    }
  }

  lemma FollowerStops(l: Leader)
    requires LogInv(l) && AllCanonical(l.jobs) && !Busy(l)
    ensures var f, rs := Followed(l.broadcast), BeforeQuit(l);
      && (HarmlessDecks(rs) ==> !f.died && (f.stopped <==> l.stopped && Missing(rs) % 2 == 0))
      && (l.stopped ==> (f.stopped && f.received == |l.broadcast| <==> !Derailed(rs) && !Astray(rs)))
      && (!l.stopped ==> (f.stopped || f.died <==> Derailed(rs)))
  {
    WithQuit(l);
    var rs := BeforeQuit(l);
    assert l.broadcast == Wire(Records(l.jobs)) && (l.stopped <==> Quitting(l));
    hide LogInv, AllCanonical, Followed, Wire, Clean, Derailed, Astray, BeforeQuit, Quitting, HarmlessDecks, Missing;
    if HarmlessDecks(rs) {
      AstrayByCount(rs);
    }
    if Quitting(l) {
      QuitHeardExactly(rs);
    } else {
      HeardExactly(rs);
      PhaseAfter(rs);
    }
  }

  lemma IdleLog(s: System)
    requires Inv(s) && !Busy(s.leader)
    ensures var l := s.leader;
      && l.broadcast == Wire(Records(l.jobs)) && l.finished == FromQueue(l.jobs) && Delivered(l.jobs) == l.jobs
      && (forall i :: 0 <= i < |l.finished + l.queue| ==> (l.finished + l.queue)[i].id == i)
      && (l.stopped <==> Quitting(l))
  {
    hide Wire, JobInv, FollowerInv, ClockInv, FromQueue;
  }

  // The two loops as programs: a new controller runs any script on a new queue,
  // and another processor runs its loop on all that was broadcast.
  method RunBoth(script: seq<Tick>) returns (ctrl: GeniusCtrl, stopped: bool, f: Follower, ghost counts: seq<Count>)
    ensures Played(script, Play(counts, ctrl.finished, ctrl.cmdQueue.queue, ctrl.jobs, ctrl.cmdQueue.locked, stopped))
    ensures fresh(ctrl) && fresh(ctrl.cmdQueue)
    ensures ctrl.broadcast == Wire(Records(ctrl.jobs)) && ctrl.finished == FromQueue(ctrl.jobs)
    ensures var all := ctrl.finished + ctrl.cmdQueue.queue; forall i :: 0 <= i < |all| ==> all[i].id == i
    ensures f.executed == Records(ctrl.jobs) <==> DecksSent(ctrl.jobs)
    ensures DecksSent(ctrl.jobs) ==> !f.died && (f.stopped <==> stopped)
    ensures stopped ==> ctrl.jobs != [] && Last(ctrl.jobs).cmd.Quit?
    ensures var rs := Records(if stopped then ctrl.jobs[..|ctrl.jobs| - 1] else ctrl.jobs);
      HarmlessDecks(rs) ==> !f.died && (f.stopped <==> stopped && Missing(rs) % 2 == 0)
  {
    hide RunScript, Wire, FromQueue, DecksSent, Followed, HarmlessDecks, Missing, Derailed, Astray, Played;
    var q := new CmdQueue();
    ctrl := new GeniusCtrl(q);
    assert ctrl.View(MAX_IDLE, false) == START;
    var nopCnt;
    nopCnt, stopped := ctrl.Run(script);
    counts := ScriptTheorem(script);
    f := Follow(ctrl.broadcast);
  }

  // ---- A deck that cannot be read ------------------------------------------------------------

  // A run without a readable deck that loses a command: the follower takes the
  // text of quit for the deck and waits on after the leader has stopped.
  ghost predicate LosesQuit(actions: seq<Action>) {
    var s := Run(Init(1), actions);
    && CleanSubmissions(actions) && !DecksSent(s.leader.jobs)
    && s.leader.stopped && |s.followers| == 1
    && s.followers[0] == Follower(|s.leader.broadcast|, [Record(RunDeck("a"), Some(ToStr(Quit)))], None, false, false)
  }

  // Processor 0 fails to find the deck "a" and then executes quit.
  const MISSING_DECK: seq<Tick> :=
    [Tick([ToStr(RunDeck("a")), ToStr(Quit)], Outcome(None, true)), Tick([], Outcome(None, true))]

  lemma TwoArrivals(l: Leader, s: string, t: string)
    ensures AddAll(l, []) == l && AddAll(l, [s, t]) == AddText(AddText(l, s), t)
  {
    hide AddText;
    assert [s, t][1..] == [t] && [t][1..] == [];
    assert AddAll(AddText(l, s), [t]) == AddText(AddText(l, s), t);
  }

  lemma MissingDeckQueue(x: Command, y: Command)
    requires Canonical(x) && Canonical(y)
    ensures AddAll(START, [ToStr(x), ToStr(y)]) == START.(queue := [Entry(0, x), Entry(1, y)], nextId := 2)
  {
    PrintParse(x);
    PrintParse(y);
    TwoArrivals(START, ToStr(x), ToStr(y));
    hide Parse, ToStr, Canonical, AddAll;
  }

  // An iteration on an idle leader whose do() raises before it sends anything.
  lemma BeginsAndFails(l: Leader)
    requires l.queue != [] && !l.stopped && !l.locked && !Busy(l)
    ensures var e := l.queue[0];
      Iterate(l, Outcome(None, true)) == l.(
        queue := l.queue[1..], broadcast := l.broadcast + [ToStr(e.cmd)], finished := l.finished + [e],
        jobs := l.jobs + [Job(Some(e.id), e.cmd, None, if e.cmd.Quit? then Returned else Raised)],
        stopped := e.cmd.Quit?)
  {
    hide ToStr;
    var b := Poll(l);
    assert b.jobs[..|b.jobs| - 1] == l.jobs;
  }

  lemma MissingDeckRuns(l: Leader, x: Command)
    requires l == START.(queue := [Entry(0, x), Entry(1, Quit)], nextId := 2) && x.RunDeck?
    ensures var l1 := Iterate(l, Outcome(None, true));
      var l2 := Iterate(l1, Outcome(None, true));
      && !l1.stopped && l2.stopped && l2.broadcast == [ToStr(x), ToStr(Quit)]
      && |l2.jobs| == 2 && l2.jobs[0] == Job(Some(0), x, None, Raised)
  {
    hide ToStr, Iterate;
    BeginsAndFails(l);
    var l1 := Iterate(l, Outcome(None, true));
    assert Last(l1.jobs).end.Raised? && l1.queue == [Entry(1, Quit)];
    BeginsAndFails(l1);
  }

  lemma TwoTicks(l: Leader, t: Tick, u: Tick)
    requires !l.stopped
    ensures var l1 := Iterate(AddAll(l, t.arrivals), t.outcome);
      !l1.stopped ==> RunScript(l, [t, u]) == Iterate(AddAll(l1, u.arrivals), u.outcome)
  {
    hide AddAll, Iterate;
    var l1 := Iterate(AddAll(l, t.arrivals), t.outcome);
    assert [t, u][1..] == [u] && [u][1..] == [];
    assert RunScript(l, [t, u]) == RunScript(l1, [u]);
    assert RunScript(Iterate(AddAll(l1, u.arrivals), u.outcome), []) == Iterate(AddAll(l1, u.arrivals), u.outcome);
  }

  lemma MissingDeckLeader()
    ensures var l := RunScript(START, MISSING_DECK);
      l.stopped && l.broadcast == [ToStr(RunDeck("a")), ToStr(Quit)] && !DecksSent(l.jobs)
  {
    var fails, a := Outcome(None, true), RunDeck("a");
    MissingDeckQueue(a, Quit);
    TwoTicks(START, Tick([ToStr(a), ToStr(Quit)], fails), Tick([], fails));
    assert MISSING_DECK == [Tick([ToStr(a), ToStr(Quit)], fails), Tick([], fails)];
    hide AddAll, Iterate, ToStr, RunScript, MISSING_DECK;
    var l1 := START.(queue := [Entry(0, a), Entry(1, Quit)], nextId := 2);
    MissingDeckRuns(l1, a);
    TwoArrivals(Iterate(l1, fails), [], []);
  }

  lemma MissingDeckFollower()
    ensures Followed([ToStr(RunDeck("a")), ToStr(Quit)])
         == Follower(2, [Record(RunDeck("a"), Some(ToStr(Quit)))], None, false, false)
  {
    PrintParse(RunDeck("a"));
    var b := [ToStr(RunDeck("a")), ToStr(Quit)];
    assert Canonical(RunDeck("a"));
    hide Parse, ToStr, Canonical;
    assert StepTimes(FRESH, b, 1) == Step(FRESH, b);
    assert StepTimes(FRESH, b, 2) == Step(Step(FRESH, b), b);
  }

  lemma MissingDeckExample()
    ensures exists actions :: LosesQuit(actions)
  {
    MissingDeckLeader();
    MissingDeckFollower();
    assert Init(1).leader == START && Init(1).followers == [FRESH];
    hide RunScript, Step, StepTimes, DecksSent, Run, Init, ToStr, MISSING_DECK, CleanSubmissions;
    var leads := ScriptIsRun(Init(1), MISSING_DECK);
    var s := Run(Init(1), leads);
    var hears := ReceiveAll(s, 2);
    RunConcat(Init(1), leads, hears);
    CleanTogether(leads, hears);
    assert LosesQuit(leads + hears);
  }
}
