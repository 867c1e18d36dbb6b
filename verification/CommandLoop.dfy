// The replicated command loop: front-end threads submit commands, processor 0
// executes them and broadcasts their text, every other processor parses the
// broadcasts and executes what it reads.
module CommandLoop {
  import opened Wrappers

  import opened CommandText

  // A command object; id stands for its identity (the caller waits on its event).
  datatype Entry = Entry(id: nat, cmd: Command)

  // How far do() of a command has come on processor 0.
  datatype End = Running | Returned | Raised

  // A command the leader has broadcast: whose object it is (None for a heartbeat
  // made by the loop itself), the deck do() has broadcast, and how far do() is.
  datatype Job = Job(id: Option<nat>, cmd: Command, deck: Option<string>, end: End)

  const MAX_IDLE: nat := 10

  // Processor 0 with its queue.  `finished` lists the submitted commands in the
  // order in which their events are set.
  datatype Leader = Leader(queue: seq<Entry>, nextId: nat, locked: bool, nopCnt: nat, broadcast: seq<string>,
                           jobs: seq<Job>, finished: seq<Entry>, stopped: bool)

  const START := Leader([], 0, false, MAX_IDLE, [], [], [], false)

  // addCmd with a string.  When parsing raises, the lock stays taken.
  ghost function AddText(l: Leader, s: string): Leader {
    if l.locked then l
    else
      match Parse(s)
      case Ok(cmd) => AddObject(l, cmd)
      case ValueError => l.(locked := true)
  }

  // addCmd with a command object.
  function AddObject(l: Leader, cmd: Command): Leader {
    if l.locked then l else l.(queue := l.queue + [Entry(l.nextId, cmd)], nextId := l.nextId + 1)
  }

  function Last(jobs: seq<Job>): Job
    requires jobs != []
  {
    jobs[|jobs| - 1]
  }

  function WithLast(jobs: seq<Job>, j: Job): seq<Job>
    requires jobs != []
  {
    jobs[..|jobs| - 1] + [j]
  }

  // Inside do(), or about to leave the loop.
  predicate Busy(l: Leader) {
    l.jobs != [] && Last(l.jobs).end.Running?
  }

  // Broadcasting a command's text.
  function Begin(l: Leader, id: Option<nat>, cmd: Command): Leader {
    l.(broadcast := l.broadcast + [ToStr(cmd)], jobs := l.jobs + [Job(id, cmd, None, Running)])
  }

  // The loop on processor 0 up to do().  It blocks while the lock is taken.
  function Poll(l: Leader): Leader {
    if l.stopped || l.locked || Busy(l) then l
    else if l.queue != [] then
      Begin(l.(queue := l.queue[1..]), Some(l.queue[0].id), l.queue[0].cmd)
    else if l.nopCnt == 0 then
      Begin(l.(nopCnt := MAX_IDLE), None, Nop)
    else
      l.(nopCnt := l.nopCnt - 1)
  }

  // do() of run-deck broadcasts the deck's text.
  function SendDeck(l: Leader, text: string): Leader {
    if !Busy(l) || !Last(l.jobs).cmd.RunDeck? || Last(l.jobs).deck.Some? then l
    else l.(broadcast := l.broadcast + [text], jobs := WithLast(l.jobs, Last(l.jobs).(deck := Some(text))))
  }

  function EventOf(j: Job): seq<Entry> {
    if j.id.Some? then [Entry(j.id.value, j.cmd)] else []
  }

  // do() ends and the event is set.  A run-deck that has sent no deck can only
  // have raised; quit has no do(), the loop is left instead.
  function Finish(l: Leader, raises: bool): Leader {
    if !Busy(l) then l
    else
      var j := Last(l.jobs);
      var raised := !j.cmd.Quit? && (raises || (j.cmd.RunDeck? && j.deck.None?));
      l.(jobs := WithLast(l.jobs, j.(end := if raised then Raised else Returned)),
         finished := l.finished + EventOf(j),
         stopped := j.cmd.Quit?)
  }

  // ---- The program ------------------------------------------------------------

  class CmdQueue {
    var queue: seq<Entry>
    var nextId: nat
    var locked: bool

    constructor ()
      ensures queue == [] && nextId == 0 && !locked
    {
      queue, nextId, locked := [], 0, false;
    }

    // First command, or None.  The caller waits for the lock.
    method GetCmd() returns (r: Option<Entry>)
      requires !locked
      modifies this
      ensures !locked && nextId == old(nextId)
      ensures old(queue) == [] ==> r == None && queue == []
      ensures old(queue) != [] ==> r == Some(old(queue)[0]) && queue == old(queue)[1..]
    {
      locked := true;
      r := None;
      if |queue| > 0 {
        r := Some(queue[0]);
        queue := queue[1..];
      }
      locked := false;
    }

    // Appends the command a string stands for.  The lock is given back exactly
    // when the string can be parsed.
    method AddText(s: string) returns (r: Option<Entry>)
      requires !locked
      modifies this
      ensures r.Some? <==> Parse(s).Ok?
      ensures locked <==> r.None?
      ensures r.Some? ==> r.value == Entry(old(nextId), Parse(s).cmd)
      ensures queue == (if r.Some? then old(queue) + [r.value] else old(queue))
      ensures nextId == (if r.Some? then old(nextId) + 1 else old(nextId))
    {
      locked := true;
      var parsed := MakeCommand(s);
      if parsed.ValueError? {
        return None;
      }
      r := Some(Entry(nextId, parsed.cmd));
      queue := queue + [r.value];
      nextId := nextId + 1;
      locked := false;
    }

    // Appends a command object as it is.
    method AddObject(cmd: Command) returns (entry: Entry)
      requires !locked
      modifies this
      ensures !locked && entry == Entry(old(nextId), cmd) && nextId == old(nextId) + 1
      ensures queue == old(queue) + [entry]
    {
      locked := true;
      entry := Entry(nextId, cmd);
      queue := queue + [entry];
      nextId := nextId + 1;
      locked := false;
    }
  }

  // What do() turns out to do: the deck it gets to broadcast if it runs one, and
  // whether it raises.
  datatype Outcome = Outcome(deck: Option<string>, raises: bool)

  // What surrounds one iteration: strings submitted before it, and what do() will do.
  datatype Tick = Tick(arrivals: seq<string>, outcome: Outcome)

  ghost function AddAll(l: Leader, arrivals: seq<string>): Leader
    decreases |arrivals|
  {
    if arrivals == [] then l else AddAll(AddText(l, arrivals[0]), arrivals[1..])
  }

  function Do(l: Leader, o: Outcome): Leader {
    if o.deck.Some? then SendDeck(l, o.deck.value) else l
  }

  // A whole iteration.
  function Iterate(l: Leader, o: Outcome): Leader {
    Finish(Do(Poll(l), o), o.raises)
  }

  ghost function RunScript(l: Leader, script: seq<Tick>): Leader
    decreases |script|
  {
    if script == [] || l.stopped then l
    else RunScript(Iterate(AddAll(l, script[0].arrivals), script[0].outcome), script[1..])
  }

  class GeniusCtrl {
    const cmdQueue: CmdQueue
    var broadcast: seq<string>
    var jobs: seq<Job>
    var finished: seq<Entry>

    constructor (q: CmdQueue)
      ensures cmdQueue == q && broadcast == [] && jobs == [] && finished == []
    {
      cmdQueue, broadcast, jobs, finished := q, [], [], [];
    }

    ghost function View(nopCnt: nat, stopped: bool): Leader
      reads this, cmdQueue
    {
      Leader(cmdQueue.queue, cmdQueue.nextId, cmdQueue.locked, nopCnt, broadcast, jobs, finished, stopped)
    }

    method Submit(arrivals: seq<string>, ghost nopCnt: nat)
      modifies cmdQueue
      ensures View(nopCnt, false) == AddAll(old(View(nopCnt, false)), arrivals)
    {
      hide Parse;
      ghost var l0 := View(nopCnt, false);
      for i := 0 to |arrivals|
        invariant AddAll(l0, arrivals) == AddAll(View(nopCnt, false), arrivals[i..])
      {
        if cmdQueue.locked {
          LockedForGood(View(nopCnt, false), arrivals[i..]);
          return;
        }
        var r := cmdQueue.AddText(arrivals[i]);
        assert arrivals[i..][1..] == arrivals[i + 1..];
      }
    }

    // do() of the command broadcast last.
    method DoLast(o: Outcome, ghost nopCnt: nat) returns (raised: bool)
      requires jobs != [] && Last(jobs).end.Running? && Last(jobs).deck.None?
      modifies this`broadcast, this`jobs
      ensures View(nopCnt, false) == Do(old(View(nopCnt, false)), o)
      ensures jobs != [] && Last(jobs).end.Running? && Last(jobs).cmd == old(Last(jobs).cmd)
      ensures raised <==> o.raises || (Last(jobs).cmd.RunDeck? && Last(jobs).deck.None?)
    {
      var j := Last(jobs);
      if !j.cmd.RunDeck? {
        return o.raises;
      }
      if o.deck.None? {
        return true;
      }
      broadcast := broadcast + [o.deck.value];
      jobs := WithLast(jobs, j.(deck := o.deck));
      return o.raises;
    }

    method SetFinished(raised: bool, ghost nopCnt: nat)
      requires jobs != [] && Last(jobs).end.Running?
      requires raised ==> !Last(jobs).cmd.Quit?
      requires !raised ==> Last(jobs).cmd.RunDeck? ==> Last(jobs).deck.Some?
      modifies this`jobs, this`finished
      ensures View(nopCnt, old(Last(jobs)).cmd.Quit?) == Finish(old(View(nopCnt, false)), raised)
    {
      var j := Last(jobs);
      jobs := WithLast(jobs, j.(end := if raised then Raised else Returned));
      finished := finished + EventOf(j);
    }

    // Takes a command from the queue, or makes a heartbeat when it is time for
    // one, and broadcasts it.
    method BroadcastNext(nopCnt: nat) returns (nopCnt': nat, begun: bool)
      requires !cmdQueue.locked && !Busy(View(nopCnt, false))
      modifies this, cmdQueue
      ensures View(nopCnt', false) == Poll(old(View(nopCnt, false)))
      ensures begun <==> Busy(View(nopCnt', false))
      ensures begun <==> old(cmdQueue.queue) != [] || nopCnt == 0
      ensures var waiting := old(cmdQueue.queue);
        var (id, cmd) := if waiting == [] then (None, Nop) else (Some(waiting[0].id), waiting[0].cmd);
        && jobs == old(jobs) + (if begun then [Job(id, cmd, None, Running)] else [])
        && broadcast == old(broadcast) + (if begun then [ToStr(cmd)] else [])
      ensures nopCnt' == if old(cmdQueue.queue) != [] then nopCnt else if nopCnt == 0 then 10 else nopCnt - 1
    {
      hide ToStr;
      nopCnt' := nopCnt;
      var got := cmdQueue.GetCmd();
      var cmd, id := Nop, None;
      if got.None? {
        if nopCnt == 0 {
          nopCnt' := MAX_IDLE;
        } else {
          nopCnt' := nopCnt - 1;
          return nopCnt', false;
        }
      } else {
        cmd, id := got.value.cmd, Some(got.value.id);
      }
      broadcast := broadcast + [ToStr(cmd)];
      jobs := jobs + [Job(id, cmd, None, Running)];
      begun := true;
    }

    // Executes the command broadcast last; stopped when it is quit.
    method Execute(o: Outcome, ghost nopCnt: nat) returns (stopped: bool)
      requires jobs != [] && Last(jobs).end.Running? && Last(jobs).deck.None?
      modifies this`broadcast, this`jobs, this`finished
      ensures View(nopCnt, stopped) == Finish(Do(old(View(nopCnt, false)), o), o.raises)
      ensures !Busy(View(nopCnt, stopped)) && (stopped <==> old(Last(jobs)).cmd.Quit?)
      ensures var j, read := old(Last(jobs)), o.deck.Some?;
        var raised := !j.cmd.Quit? && (o.raises || (j.cmd.RunDeck? && !read));
        && jobs == old(jobs[..|jobs| - 1])
                + [Job(j.id, j.cmd, if j.cmd.RunDeck? then o.deck else None, if raised then Raised else Returned)]
        && broadcast == old(broadcast) + (if j.cmd.RunDeck? && read then [o.deck.value] else [])
        && finished == old(finished) + (if j.id.Some? then [Entry(j.id.value, j.cmd)] else [])
    {
      hide Finish, SendDeck;
      ghost var begun := View(nopCnt, false);
      FinishEnds(Do(begun, o), o.raises);
      DoneWith(begun, o);
      stopped := Last(jobs).cmd.Quit?;
      if stopped {
        SetFinished(false, nopCnt);
        QuitLeaves(begun, o);
      } else {
        var raised := DoLast(o, nopCnt);
        FinishRaised(View(nopCnt, false), o.raises, raised);
        SetFinished(raised, nopCnt);
      }
    }

    // The loop of run on processor 0, over any script of what the outside does.
    method Run(script: seq<Tick>) returns (nopCnt: nat, stopped: bool)
      requires jobs == [] || !Last(jobs).end.Running?
      modifies this, cmdQueue
      ensures View(nopCnt, stopped) == RunScript(old(View(MAX_IDLE, false)), script)
    {
      hide AddAll, Poll, Finish, SendDeck;
      ghost var l0 := View(MAX_IDLE, false);
      nopCnt, stopped := MAX_IDLE, false;
      var i := 0;
      while i < |script|
        invariant 0 <= i <= |script| && !stopped && !Busy(View(nopCnt, false))
        invariant RunScript(l0, script) == RunScript(View(nopCnt, false), script[i..])
      {
        var tick := script[i];
        assert script[i..][0] == tick && script[i..][1..] == script[i + 1..];
        i := i + 1;
        SubmitKeepsJobs(View(nopCnt, false), tick.arrivals);
        Submit(tick.arrivals, nopCnt);
        ghost var l := View(nopCnt, false);
        NothingToDo(l, tick.outcome);
        if cmdQueue.locked {
          continue;
        }
        var begun;
        nopCnt, begun := BroadcastNext(nopCnt);
        if begun {
          stopped := Execute(tick.outcome, nopCnt);
          if stopped {
            break;
          }
        }
      }
    }
  }

  lemma {:induction false} SubmitKeepsJobs(l: Leader, arrivals: seq<string>)
    ensures var l' := AddAll(l, arrivals);
      l'.jobs == l.jobs && l'.stopped == l.stopped && l'.nopCnt == l.nopCnt && l'.broadcast == l.broadcast
    decreases |arrivals|
  {
    hide Parse;
    if arrivals == [] {
    } else {
      SubmitKeepsJobs(AddText(l, arrivals[0]), arrivals[1..]);
    }
  }

  lemma {:induction false} LockedForGood(l: Leader, arrivals: seq<string>)
    requires l.locked
    ensures AddAll(l, arrivals) == l
  {
    if arrivals == [] {
    } else {
      LockedForGood(l, arrivals[1..]);
    }
  }

  // An iteration that begins no command ends with the poll, and with the lock
  // taken it does nothing at all.
  lemma NothingToDo(l: Leader, o: Outcome)
    ensures !Busy(Poll(l)) ==> Iterate(l, o) == Poll(l)
    ensures l.locked ==> Poll(l) == l
  {
  }

  // What do() leaves behind when it is over.
  lemma DoneWith(l: Leader, o: Outcome)
    requires Busy(l) && Last(l.jobs).deck.None?
    ensures var l', j, read := Finish(Do(l, o), o.raises), Last(l.jobs), o.deck.Some?;
      var raised := !j.cmd.Quit? && (o.raises || (j.cmd.RunDeck? && !read));
      && l'.jobs == l.jobs[..|l.jobs| - 1]
                  + [Job(j.id, j.cmd, if j.cmd.RunDeck? then o.deck else None, if raised then Raised else Returned)]
      && l'.broadcast == l.broadcast + (if j.cmd.RunDeck? && read then [o.deck.value] else [])
      && l'.finished == l.finished + (if j.id.Some? then [Entry(j.id.value, j.cmd)] else [])
  {
    var d := Do(l, o);
    assert d.jobs[..|d.jobs| - 1] == l.jobs[..|l.jobs| - 1];
  }

  // quit has no do() whose outcome could matter.
  lemma QuitLeaves(begun: Leader, o: Outcome)
    requires Busy(begun) && Last(begun.jobs).cmd.Quit?
    ensures Finish(Do(begun, o), o.raises) == Finish(begun, false)
  {
  }

  lemma FinishRaised(l: Leader, raises: bool, raised: bool)
    requires Busy(l) && !Last(l.jobs).cmd.Quit?
    requires raised <==> raises || (Last(l.jobs).cmd.RunDeck? && Last(l.jobs).deck.None?)
    ensures Finish(l, raises) == Finish(l, raised)
  {
  }

  lemma FinishEnds(l: Leader, raises: bool)
    ensures !Busy(Finish(l, raises))
    ensures Busy(l) ==> (Finish(l, raises).stopped <==> Last(l.jobs).cmd.Quit?)
  {
  }
}
