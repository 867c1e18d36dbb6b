// What a follower makes of decks that never come: exactly when it still hears
// the leader's quit.
module MissingDecks {
  import opened Wrappers

  import opened CommandText
  import opened Replication

  // Where a follower stands between two broadcasts.
  datatype Phase = Ready | Waiting | Stopped | Died

  function PhaseOf(f: Follower): Phase {
    if f.died then Died
    else if f.stopped then Stopped
    else if f.awaiting.Some? then Waiting
    else Ready
  }

  // A waiting follower takes any text for its deck; a ready one reads a command.
  ghost function Hear(p: Phase, text: string): Phase {
    match p
    case Waiting => Ready
    case Ready => AfterReading(Parse(text))
    case _ => p
  }

  function AfterReading(parsed: ParseResult): Phase {
    match parsed
    case ValueError => Died
    case Ok(cmd) => if cmd.RunDeck? then Waiting else if cmd.Quit? then Stopped else Ready
  }

  ghost function HearRecord(p: Phase, r: Record): Phase {
    var q := Hear(p, ToStr(r.cmd));
    if r.deck.Some? then Hear(q, r.deck.value) else q
  }

  ghost function Heard(rs: seq<Record>): Phase {
    if rs == [] then Ready else HearRecord(Heard(rs[..|rs| - 1]), rs[|rs| - 1])
  }

  // ---- The phase after all broadcasts --------------------------------------------------

  predicate Over(p: Phase) {
    p.Stopped? || p.Died?
  }

  lemma FollowedStep(b: seq<string>, text: string)
    ensures Followed(b + [text]) == Step(Followed(b), b + [text])
  {
    var k, b' := |b|, b + [text];
    StepsRead(b, b', k);
    assert StepTimes(FRESH, b', k + 1) == Step(StepTimes(FRESH, b', k), b');
    hide Step, StepTimes;
    assert |b'| == k + 1;
  }

  // What one broadcast more comes to, from the state the others have left: once
  // ended, nothing; a waiting follower takes it for its deck; any other parses it.
  lemma FollowerMeaning(b: seq<string>, text: string)
    ensures Followed([]) == Follower(0, [], None, false, false)
    ensures var f, f' := Followed(b), Followed(b + [text]);
      var n, done, c := |b| + 1, f.executed, Parse(text);
      f' ==
        if f.stopped || f.died then f
        else if f.awaiting.Some? then Follower(n, done + [Record(f.awaiting.value, Some(text))], None, false, false)
        else if c.ValueError? then Follower(n, done, None, false, true)
        else if c.cmd.RunDeck? then Follower(n, done, Some(c.cmd), false, false)
        else Follower(n, done + [Record(c.cmd, None)], None, c.cmd.Quit?, false)
  {
    FollowedStep(b, text);
    StepsRead(b, b, |b|);
    assert (b + [text])[|b|] == text;
    hide Parse, Followed, StepTimes;
  }

  // A follower that is not over has received everything, and hears the next text.
  lemma FollowedOneMore(b: seq<string>, text: string)
    ensures var f, f' := Followed(b), Followed(b + [text]);
      && PhaseOf(f') == Hear(PhaseOf(f), text)
      && (if Over(PhaseOf(f)) then f' == f else f'.received == |b| + 1)
  {
    FollowedStep(b, text);
    StepsRead(b, b, |b|);
    hide Parse, Followed, StepTimes;
    assert (b + [text])[|b|] == text;
  }

  lemma RecordHeard(b: seq<string>, r: Record)
    ensures PhaseOf(Followed(b + Messages(r))) == HearRecord(PhaseOf(Followed(b)), r)
  {
    hide Followed, PhaseOf, Hear, ToStr;
    var text := ToStr(r.cmd);
    FollowedOneMore(b, text);
    if r.deck.Some? {
      FollowedOneMore(b + [text], r.deck.value);
      assert b + Messages(r) == b + [text] + [r.deck.value];
    } else {
      assert b + Messages(r) == b + [text];
    }
  }

  // After the broadcasts of rs a follower is where the records taken one by one leave it.
  lemma {:induction false} PhaseAfter(rs: seq<Record>)
    ensures PhaseOf(Followed(Wire(rs))) == Heard(rs)
  {
    hide Followed, PhaseOf, HearRecord, Messages;
    if rs == [] {
      NothingHeard();
    } else {
      PhaseAfter(rs[..|rs| - 1]);
      RecordHeard(Wire(rs[..|rs| - 1]), rs[|rs| - 1]);
    }
  }

  lemma NothingHeard()
    ensures PhaseOf(Followed([])) == Ready
  {
  }

  lemma WireOneMore(rs: seq<Record>, r: Record)
    ensures Wire(rs + [r])
         == if r.deck.Some? then Wire(rs) + [ToStr(r.cmd)] + [r.deck.value] else Wire(rs) + [ToStr(r.cmd)]
  {
    assert (rs + [r])[..|rs|] == rs;
    hide ToStr;
  }

  // ---- Canonical commands ---------------------------------------------------------------

  // Canonical commands short of quit, and decks only at run-decks.
  ghost predicate Clean(rs: seq<Record>) {
    forall i :: 0 <= i < |rs| ==> CleanRecord(rs[i]) && !rs[i].cmd.Quit?
  }

  predicate CleanRecord(r: Record) {
    Canonical(r.cmd) && (r.deck.Some? ==> r.cmd.RunDeck?)
  }

  predicate DeckMissing(r: Record) {
    r.cmd.RunDeck? && r.deck.None?
  }

  // What a canonical command does: a ready follower does the same, unless it has
  // to wait for a deck that was not sent; a waiting one loses the command, and
  // reads the deck as a command where there is one.
  lemma CanonicalHeard(p: Phase, r: Record)
    requires CleanRecord(r)
    ensures HearRecord(p, r) ==
      match p {
        case Ready => if r.cmd.Quit? then Stopped else if DeckMissing(r) then Waiting else Ready
        case Waiting => if r.deck.Some? then AfterReading(Parse(r.deck.value)) else Ready
        case _ => p
      }
  {
    PrintParse(r.cmd);
    hide Parse, ToStr, Canonical;
  }

  // After rs a follower that is not over waits for a deck: the last one is
  // missing and it was ready, or it was waiting and read a deck that looks like
  // a run-deck.
  ghost predicate Astray(rs: seq<Record>) {
    rs != [] &&
    var front, r := rs[..|rs| - 1], rs[|rs| - 1];
    if DeckMissing(r) then !Astray(front)
    else r.deck.Some? && Astray(front) && AfterReading(Parse(r.deck.value)).Waiting?
  }

  // A deck that a waiting follower reads as quit, or cannot read as a command.
  ghost predicate DerailsAt(rs: seq<Record>, i: int) {
    0 <= i < |rs| && rs[i].deck.Some? && Astray(rs[..i]) && Over(AfterReading(Parse(rs[i].deck.value)))
  }

  ghost predicate Derailed(rs: seq<Record>) {
    exists i :: DerailsAt(rs, i)
  }

  lemma DerailedLast(rs: seq<Record>)
    requires rs != []
    ensures Derailed(rs) <==> Derailed(rs[..|rs| - 1]) || DerailsAt(rs, |rs| - 1)
  {
    var front := rs[..|rs| - 1];
    hide Astray, AfterReading, Parse;
    if i :| DerailsAt(rs, i) && i < |rs| - 1 {
      assert rs[..i] == front[..i] && DerailsAt(front, i);
    }
    if i :| DerailsAt(front, i) {
      assert rs[..i] == front[..i] && DerailsAt(rs, i);
    }
  }

  // Short of quit, a follower is over exactly when it is derailed, and otherwise
  // waits exactly when it is astray.
  lemma {:induction false} HeardExactly(rs: seq<Record>)
    requires Clean(rs)
    ensures Over(Heard(rs)) <==> Derailed(rs)
    ensures !Derailed(rs) ==> Heard(rs) == if Astray(rs) then Waiting else Ready
  {
    if rs == [] {
    } else {
      var front, r := rs[..|rs| - 1], rs[|rs| - 1];
      HeardExactly(front);
      DerailedLast(rs);
      CanonicalHeard(Heard(front), r);
      LastRecord(rs);
      hide Astray, Heard, HearRecord, Derailed, Parse, CleanRecord, AfterReading;
    }
  }

  lemma LastRecord(rs: seq<Record>)
    requires rs != []
    ensures var front, r := rs[..|rs| - 1], rs[|rs| - 1];
      && Heard(rs) == HearRecord(Heard(front), r)
      && (Astray(rs) <==>
            if DeckMissing(r) then !Astray(front)
            else r.deck.Some? && Astray(front) && AfterReading(Parse(r.deck.value)).Waiting?)
      && (DerailsAt(rs, |rs| - 1) <==>
            r.deck.Some? && Astray(front) && Over(AfterReading(Parse(r.deck.value))))
  {
    hide HearRecord, Parse;
  }

  // The leader's quit is heard exactly by a follower that is neither derailed nor astray.
  lemma QuitHeardExactly(rs: seq<Record>)
    requires Clean(rs)
    ensures var f, all := Followed(Wire(rs + [Record(Quit, None)])), Wire(rs + [Record(Quit, None)]);
      && (f.stopped && f.received == |all| <==> !Derailed(rs) && !Astray(rs))
      && (f.received == |all| ==> !f.died && (f.stopped <==> !Astray(rs)))
      && (!Derailed(rs) ==> f.received == |all|)
  {
    var quit := Record(Quit, None);
    HeardExactly(rs);
    PhaseAfter(rs);
    CanonicalHeard(Heard(rs), quit);
    WireOneMore(rs, quit);
    FollowedOneMore(Wire(rs), ToStr(Quit));
    PhaseAfter(rs + [quit]);
    LastRecord(rs + [quit]);
    assert (rs + [quit])[..|rs|] == rs;
    StepsRead(Wire(rs), Wire(rs), |Wire(rs)|);
    hide Wire, HearRecord, Heard, Hear, ToStr, CleanRecord, Astray, Derailed, StepTimes;
  }

  // ---- Ordinary decks -------------------------------------------------------------------

  // How many run-decks without a deck end rs.
  function Missing(rs: seq<Record>): nat {
    if rs != [] && DeckMissing(rs[|rs| - 1]) then 1 + Missing(rs[..|rs| - 1]) else 0
  }

  // Decks that are read as commands, because an odd number of decks right before
  // them are missing, change nothing when read.
  ghost predicate HarmlessDecks(rs: seq<Record>) {
    forall i :: 0 <= i < |rs| && rs[i].deck.Some? && Missing(rs[..i]) % 2 == 1 ==> Harmless(rs[i].deck.value)
  }

  ghost predicate Harmless(text: string) {
    AfterReading(Parse(text)).Ready?
  }

  // No opcode starts an ordinary deck, so it is taken for a nop.
  lemma OrdinaryDeckHarmless(text: string)
    requires forall op: Opcode :: !(Name(op) <= text)
    ensures Harmless(text)
  {
  }

  lemma MissingLast(rs: seq<Record>)
    requires rs != [] && HarmlessDecks(rs)
    ensures var front, r := rs[..|rs| - 1], rs[|rs| - 1];
      && HarmlessDecks(front)
      && Missing(rs) == (if DeckMissing(r) then 1 + Missing(front) else 0)
      && (r.deck.Some? && Missing(front) % 2 == 1 ==> Harmless(r.deck.value))
  {
    hide Harmless, Missing;
    var front := rs[..|rs| - 1];
    assert forall i :: 0 <= i < |front| ==> front[..i] == rs[..i];
    MissingUnfolds(rs);
  }

  lemma MissingUnfolds(rs: seq<Record>)
    requires rs != []
    ensures Missing(rs) == if DeckMissing(rs[|rs| - 1]) then 1 + Missing(rs[..|rs| - 1]) else 0
  {
  }

  // Then a follower is astray exactly when an odd number of decks at the end are
  // missing, and never derailed.
  lemma {:induction false} AstrayByCount(rs: seq<Record>)
    requires HarmlessDecks(rs)
    ensures !Derailed(rs) && (Astray(rs) <==> Missing(rs) % 2 == 1)
  {
    if rs == [] {
    } else {
      hide Astray, Derailed, DerailsAt, Missing, HarmlessDecks, Heard, HearRecord, Parse, AfterReading, DeckMissing;
      MissingLast(rs);
      AstrayByCount(rs[..|rs| - 1]);
      DerailedLast(rs);
      AstrayLast(rs);
    }
  }

  // One record more, with the decks before it harmless.
  lemma AstrayLast(rs: seq<Record>)
    requires rs != [] && HarmlessDecks(rs)
    requires var front := rs[..|rs| - 1]; Astray(front) <==> Missing(front) % 2 == 1
    ensures !DerailsAt(rs, |rs| - 1) && (Astray(rs) <==> Missing(rs) % 2 == 1)
  {
    hide Astray, DerailsAt, Missing, HarmlessDecks, Heard, HearRecord, Parse, AfterReading;
    MissingLast(rs);
    LastRecord(rs);
    Parity(Missing(rs[..|rs| - 1]));
  }

  lemma Parity(m: nat)
    ensures (1 + m) % 2 == 1 <==> m % 2 != 1
  {
  }
}
