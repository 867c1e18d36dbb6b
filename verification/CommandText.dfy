// The text form of controller commands: printing, and parsing with the regular
// expressions of each command.
module CommandText {
  import opened Wrappers

  // The commands that can be named in text, with the argument each one carries.
  datatype Command =
    | Nop
    | Quit
    | RunDeck(fname: string)
    | Reset
    | Chdir(dirName: string)
    | QueryStruct(queryStr: string)

  datatype Opcode = OpNop | OpQuit | OpRunDeck | OpReset | OpChdir | OpQueryStruct

  // fromStr either yields a command or raises ValueError.
  datatype ParseResult = Ok(cmd: Command) | ValueError

  const VALID_COMMANDS: seq<Opcode> := [OpNop, OpQuit, OpRunDeck, OpReset, OpChdir, OpQueryStruct]

  function Name(op: Opcode): string {
    match op
    case OpNop => "nop"
    case OpQuit => "quit"
    case OpRunDeck => "run-deck"
    case OpReset => "reset"
    case OpChdir => "chdir"
    case OpQueryStruct => "query-struct"
  }

  function OpcodeOf(c: Command): Opcode {
    match c
    case Nop => OpNop
    case Quit => OpQuit
    case RunDeck(_) => OpRunDeck
    case Reset => OpReset
    case Chdir(_) => OpChdir
    case QueryStruct(_) => OpQueryStruct
  }

  function ToStr(c: Command): string {
    match c
    case Nop => "nop"
    case Quit => "quit"
    case RunDeck(a) => "run-deck " + a
    case Reset => "reset"
    case Chdir(a) => "chdir " + a
    case QueryStruct(a) => "query-struct " + a
  }

  // ---- Characters and strings -------------------------------------------------

  predicate IsSpace(c: char) {
    c == ' ' || c == '\t' || c == '\n' || c == '\r' || c == '\U{0B}' || c == '\U{0C}'
  }

  // Index of the first character from k on that is not white space.
  function SkipSpace(s: string, k: nat): (r: nat)
    requires k <= |s|
    ensures k <= r <= |s| && (forall i :: k <= i < r ==> IsSpace(s[i])) && (r < |s| ==> !IsSpace(s[r]))
    decreases |s| - k
  {
    if k < |s| && IsSpace(s[k]) then SkipSpace(s, k + 1) else k
  }

  // Index of the first newline from k on, or the length.
  function LineEnd(s: string, k: nat): (r: nat)
    requires k <= |s|
    ensures k <= r <= |s| && (forall i :: k <= i < r ==> s[i] != '\n') && (r < |s| ==> s[r] == '\n')
    decreases |s| - k
  {
    if k < |s| && s[k] != '\n' then LineEnd(s, k + 1) else k
  }

  function RStrip(s: string): (r: string)
    ensures r <= s && (r != [] ==> !IsSpace(r[|r| - 1]))
    ensures forall i :: |r| <= i < |s| ==> IsSpace(s[i])
  {
    if s != [] && IsSpace(s[|s| - 1]) then RStrip(s[..|s| - 1]) else s
  }

  // ---- Regular expressions ------------------------------------------------------

  // The `$` of a pattern: the end, or just before a newline that ends the string.
  predicate AtEnd(s: string, j: int) {
    j == |s| || (0 <= j == |s| - 1 && s[j] == '\n')
  }

  // `\s+(.*)` matched from start on: white space up to k, the group up to j,
  // then `$` where the pattern is anchored.
  predicate ArgMatch(s: string, start: nat, anchored: bool, k: int, j: int) {
    && start < k <= j <= |s|
    && (forall i :: start <= i < k ==> IsSpace(s[i]))
    && (forall i :: k <= i < j ==> s[i] != '\n')
    && (anchored ==> AtEnd(s, j))
  }

  // The match a backtracking engine finds first: longest white space, then longest group.
  ghost predicate FirstMatch(s: string, start: nat, anchored: bool, k: int, j: int) {
    && ArgMatch(s, start, anchored, k, j)
    && (forall k', j' :: ArgMatch(s, start, anchored, k', j') ==> k' < k || (k' == k && j' <= j))
  }

  // The group's text, without backtracking.  Giving back white space or part of
  // the group never helps the anchor.
  function ArgGroup(s: string, start: nat, anchored: bool): (g: Option<string>)
    requires start <= |s|
    ensures g.Some? <==> exists k, j :: ArgMatch(s, start, anchored, k, j)
    ensures g.Some? ==> exists k, j :: FirstMatch(s, start, anchored, k, j) && g.value == s[k..j]
  {
    var k := SkipSpace(s, start);
    var j := LineEnd(s, k);
    if start < k && (anchored ==> AtEnd(s, j)) then
      assert FirstMatch(s, start, anchored, k, j);
      Some(s[k..j])
    else
      None
  }

  // `\s*$` matched from start on, with white space up to k.
  predicate BareMatch(s: string, start: nat, k: int) {
    start <= k <= |s| && (forall i :: start <= i < k ==> IsSpace(s[i])) && AtEnd(s, k)
  }

  function IsBare(s: string, start: nat): (b: bool)
    requires start <= |s|
    ensures b <==> exists k :: BareMatch(s, start, k)
  {
    var k := SkipSpace(s, start);
    assert k == |s| ==> BareMatch(s, start, k);
    assert k < |s| ==> !IsSpace(s[k]);
    k == |s|
  }

  // fromStr of the command with opcode op, on a string that starts with its name.
  function FromStr(op: Opcode, s: string): ParseResult
    requires Name(op) <= s
  {
    var start := |Name(op)|;
    match op
    case OpNop => if IsBare(s, start) then Ok(Nop) else ValueError
    case OpQuit => if IsBare(s, start) then Ok(Quit) else ValueError
    case OpReset => if IsBare(s, start) then Ok(Reset) else ValueError
    case OpRunDeck =>
      var g := ArgGroup(s, start, true);
      if g.Some? then Ok(RunDeck(RStrip(g.value))) else ValueError
    case OpChdir =>
      var g := ArgGroup(s, start, false);
      if g.Some? then Ok(Chdir(RStrip(g.value))) else ValueError
    case OpQueryStruct =>
      var g := ArgGroup(s, start, false);
      if g.Some? then Ok(QueryStruct(RStrip(g.value))) else ValueError
  }

  // ---- Choosing the command ------------------------------------------------------

  // No opcode is a prefix of a string that another opcode starts.
  lemma OpcodesPrefixFree(op: Opcode, op': Opcode, s: string)
    requires Name(op) <= s && Name(op') <= s
    ensures op == op'
  {
    var n, n' := Name(op), Name(op');
    assert forall i :: 0 <= i < |n| ==> s[i] == n[i];
    assert forall i :: 0 <= i < |n'| ==> s[i] == n'[i];
    assert s[0] == n[0] == n'[0] && s[1] == n[1] == n'[1] && s[2] == n[2] == n'[2];
  }

  // What a string means: the command of the one opcode it starts with, or a nop.
  ghost function Parse(s: string): ParseResult {
    if op :| Name(op) <= s then FromStr(op, s) else Ok(Nop)
  }

  ghost function OpcodeIndex(op: Opcode): (i: nat)
    ensures i < |VALID_COMMANDS| && VALID_COMMANDS[i] == op
  {
    match op
    case OpNop => 0
    case OpQuit => 1
    case OpRunDeck => 2
    case OpReset => 3
    case OpChdir => 4
    case OpQueryStruct => 5
  }

  lemma MeaningOfOther(s: string)
    requires forall j :: 0 <= j < |VALID_COMMANDS| ==> !(Name(VALID_COMMANDS[j]) <= s)
    ensures Parse(s) == Ok(Nop)
  {
    forall op: Opcode
      ensures !(Name(op) <= s)
    {
      var i := OpcodeIndex(op);
      assert VALID_COMMANDS[i] == op;
    }
  }

  // Tries every valid command in turn; a match that cannot be parsed raises.
  method MakeCommand(s: string) returns (r: ParseResult)
    ensures r == Parse(s)
    ensures (!("nop" <= s) && !("quit" <= s) && !("run-deck" <= s) && !("reset" <= s) && !("chdir" <= s)
      && !("query-struct" <= s)) ==> r == Ok(Nop)
  {
    var cmd: Option<Command> := None;
    for i := 0 to |VALID_COMMANDS|
      invariant cmd.None? ==> forall j :: 0 <= j < i ==> !(Name(VALID_COMMANDS[j]) <= s)
      invariant cmd.Some? ==> Parse(s) == Ok(cmd.value)
    {
      var op := VALID_COMMANDS[i];
      if Name(op) <= s {
        MeaningOfOpcode(op, s);
        var parsed := FromStr(op, s);
        if parsed.ValueError? {
          return ValueError;
        }
        cmd := Some(parsed.cmd);
      }
    }
    if cmd.None? {
      MeaningOfOther(s);
      cmd := Some(Nop);
    }
    return Ok(cmd.value);
  }

  lemma MeaningOfOpcode(op: Opcode, s: string)
    requires Name(op) <= s
    ensures Parse(s) == FromStr(op, s)
  {
    forall op' | Name(op') <= s
      ensures op' == op
    {
      OpcodesPrefixFree(op, op', s);
    }
  }

  // ---- Round trips -----------------------------------------------------------------

  // An argument that printing and parsing again leaves alone: one line, without
  // white space at either end.
  predicate CanonicalArg(a: string) {
    '\n' !in a && (a != [] ==> !IsSpace(a[0]) && !IsSpace(a[|a| - 1]))
  }

  predicate Canonical(c: Command) {
    match c
    case RunDeck(a) => CanonicalArg(a)
    case Chdir(a) => CanonicalArg(a)
    case QueryStruct(a) => CanonicalArg(a)
    case _ => true
  }

  lemma GroupIsCanonical(s: string, start: nat, anchored: bool)
    requires start <= |s| && ArgGroup(s, start, anchored).Some?
    ensures CanonicalArg(RStrip(ArgGroup(s, start, anchored).value))
  {
    var k := SkipSpace(s, start);
    var j := LineEnd(s, k);
    var r := RStrip(s[k..j]);
    forall i | 0 <= i < |r|
      ensures r[i] == s[k + i] != '\n'
    {
      assert r[i] == s[k..j][i];
    }
  }

  lemma PrintedArg(name: string, a: string, anchored: bool)
    requires CanonicalArg(a)
    ensures var g := ArgGroup(name + " " + a, |name|, anchored); g.Some? && RStrip(g.value) == a
  {
    hide RStrip;
    var s, k := name + " " + a, |name| + 1;
    assert s[|name|] == ' ' && s[k..] == a;
    assert SkipSpace(s, |name|) == k by {
      assert SkipSpace(s, |name|) == SkipSpace(s, k);
      if a != [] {
        assert s[k] == a[0];
      }
    }
    assert LineEnd(s, k) == |s| by {
      assert forall i :: k <= i < |s| ==> s[i] == a[i - k];
    }
    assert s[k..|s|] == a;
  }

  // Whatever parses is canonical.
  lemma ParsedIsCanonical(s: string)
    requires Parse(s).Ok?
    ensures Canonical(Parse(s).cmd)
  {
    if op :| Name(op) <= s {
      MeaningOfOpcode(op, s);
      if op.OpRunDeck? || op.OpChdir? || op.OpQueryStruct? {
        GroupIsCanonical(s, |Name(op)|, op.OpRunDeck?);
      }
    }
  }

  // A canonical argument comes back from the printed command.
  lemma PrintedGroup(op: Opcode, c: Command, a: string)
    requires op == OpcodeOf(c) && CanonicalArg(a) && (c == RunDeck(a) || c == Chdir(a) || c == QueryStruct(a))
    ensures Name(op) <= ToStr(c)
    ensures var g := ArgGroup(ToStr(c), |Name(op)|, op.OpRunDeck?); g.Some? && RStrip(g.value) == a
  {
    hide ArgGroup, RStrip, CanonicalArg;
    assert ToStr(c) == Name(op) + " " + a;
    PrintedArg(Name(op), a, op.OpRunDeck?);
  }

  // Printing and parsing again gives the command back exactly when its argument
  // is canonical.
  lemma PrintParse(c: Command)
    ensures Parse(ToStr(c)) == Ok(c) <==> Canonical(c)
  {
    var op, s := OpcodeOf(c), ToStr(c);
    assert Name(op) <= s;
    MeaningOfOpcode(op, s);
    if Parse(s) == Ok(c) {
      ParsedIsCanonical(s);
    }
    hide ArgGroup, RStrip, CanonicalArg, Parse;
    if Canonical(c) {
      match c
      case RunDeck(a) => PrintedGroup(op, c, a);
      case Chdir(a) => PrintedGroup(op, c, a);
      case QueryStruct(a) => PrintedGroup(op, c, a);
      case _ =>
    }
  }

  // Text becomes canonical after one parse.
  lemma CanonicalAfterOneParse(s: string)
    requires Parse(s).Ok?
    ensures Parse(ToStr(Parse(s).cmd)) == Parse(s)
  {
    ParsedIsCanonical(s);
    PrintParse(Parse(s).cmd);
  }

  // Even a command that does not survive printing is never taken for another kind.
  lemma KindSurvivesPrinting(c: Command)
    requires Parse(ToStr(c)).Ok?
    ensures OpcodeOf(Parse(ToStr(c)).cmd) == OpcodeOf(c)
  {
    assert Name(OpcodeOf(c)) <= ToStr(c);
    MeaningOfOpcode(OpcodeOf(c), ToStr(c));
  }

  // Exactly which strings are accepted, by the opcode they start with.
  lemma AcceptedExactly(op: Opcode, s: string)
    requires Name(op) <= s
    ensures var n := |Name(op)|;
      Parse(s).Ok? <==>
        match op {
          case OpChdir => n < |s| && IsSpace(s[n])
          case OpQueryStruct => n < |s| && IsSpace(s[n])
          case OpRunDeck => exists k :: OneLineFrom(s, n, k)
          case _ => forall i :: n <= i < |s| ==> IsSpace(s[i])
        }
  {
    MeaningOfOpcode(op, s);
    var n := |Name(op)|;
    var k := SkipSpace(s, n);
    if op.OpRunDeck? {
      RunDeckAccepts(s, n);
    }
  }

  // White space up to k, and after it no newline but perhaps one that ends the string.
  ghost predicate OneLineFrom(s: string, n: int, k: int) {
    && 0 <= n < k <= |s|
    && (forall i :: n <= i < k ==> IsSpace(s[i]))
    && (forall i :: k <= i < |s| - 1 ==> s[i] != '\n')
  }

  lemma RunDeckAccepts(s: string, n: nat)
    requires n <= |s|
    ensures ArgGroup(s, n, true).Some? <==> exists k :: OneLineFrom(s, n, k)
  {
    if ArgGroup(s, n, true).Some? {
      var k, j :| ArgMatch(s, n, true, k, j);
      assert OneLineFrom(s, n, k);
    }
    if k :| OneLineFrom(s, n, k) {
      assert ArgMatch(s, n, true, k, LineEnd(s, k));
    }
  }

  // ---- What strings say ---------------------------------------------------------------

  predicate Blank(w: string) {
    forall i :: 0 <= i < |w| ==> IsSpace(w[i])
  }

  // The name, white space up to k, a trimmed argument up to i, and white space
  // up to the end of the line at j.
  ghost predicate Divided(s: string, name: string, k: int, i: int, j: int) {
    && name <= s && |name| < k <= i <= j <= |s|
    && (forall m :: |name| <= m < k || i <= m < j ==> IsSpace(s[m]))
    && (forall m :: k <= m < j ==> s[m] != '\n') && (j < |s| ==> s[j] == '\n')
    && (if k == i then k == |s| else !IsSpace(s[k]) && !IsSpace(s[i - 1]))
  }

  // The argument of a command is the text between the white space after its
  // name and the white space at the end of its line.  Further lines are ignored,
  // but not after run-deck, which takes one newline at most.
  lemma ArgumentMeaning(s: string, k: int, i: int, j: int)
    ensures Divided(s, "chdir", k, i, j) ==> 0 <= k <= i <= |s| && Parse(s) == Ok(Chdir(s[k..i]))
    ensures Divided(s, "query-struct", k, i, j) ==> 0 <= k <= i <= |s| && Parse(s) == Ok(QueryStruct(s[k..i]))
    ensures Divided(s, "run-deck", k, i, j) ==>
      0 <= k <= i <= j <= |s|
      && Parse(s) == if s[j..] == [] || s[j..] == "\n" then Ok(RunDeck(s[k..i])) else ValueError
  {
    hide ArgGroup, RStrip, Divided, Parse;
    if Divided(s, Name(OpChdir), k, i, j) {
      DividedGroup(s, Name(OpChdir), k, i, j, false);
      MeaningOfOpcode(OpChdir, s);
    }
    if Divided(s, Name(OpQueryStruct), k, i, j) {
      DividedGroup(s, Name(OpQueryStruct), k, i, j, false);
      MeaningOfOpcode(OpQueryStruct, s);
    }
    if Divided(s, Name(OpRunDeck), k, i, j) {
      DividedGroup(s, Name(OpRunDeck), k, i, j, true);
      MeaningOfOpcode(OpRunDeck, s);
    }
  }

  lemma DividedGroup(s: string, name: string, k: int, i: int, j: int, anchored: bool)
    requires Divided(s, name, k, i, j)
    ensures name <= s && 0 <= k <= i <= j <= |s|
    ensures var g := ArgGroup(s, |name|, anchored);
      && (g.Some? <==> !anchored || s[j..] == [] || s[j..] == "\n")
      && (g.Some? ==> RStrip(g.value) == s[k..i])
  {
    assert SkipSpace(s, |name|) == k && LineEnd(s, k) == j;
    Stripped(s[k..j], i - k);
    assert s[k..j][..i - k] == s[k..i];
    hide RStrip, SkipSpace, LineEnd;
  }

  lemma Stripped(g: string, n: nat)
    requires n <= |g| && (forall m :: n <= m < |g| ==> IsSpace(g[m])) && (n > 0 ==> !IsSpace(g[n - 1]))
    ensures RStrip(g) == g[..n]
  {
    hide IsSpace;
    assert |RStrip(g)| == n;
  }

  // Every text with white space after the name divides like that.
  lemma ArgumentDivides(s: string, name: string) returns (k: int, i: int, j: int)
    requires name <= s && |name| < |s| && IsSpace(s[|name|])
    ensures Divided(s, name, k, i, j)
  {
    assert IsSpace('\n');
    hide IsSpace;
    k := SkipSpace(s, |name|);
    j := LineEnd(s, k);
    var g := s[k..j];
    var a := RStrip(g);
    i := k + |a|;
    hide SkipSpace, LineEnd, RStrip;
    assert forall m :: k <= m < j ==> s[m] == g[m - k];
    if a != [] {
      assert a[|a| - 1] == g[|a| - 1];
    }
  }

  // Without white space after the name there is no command.
  lemma NoArgument(op: Opcode, s: string)
    requires op.OpChdir? || op.OpQueryStruct? || op.OpRunDeck?
    requires Name(op) <= s && !(|Name(op)| < |s| && IsSpace(s[|Name(op)|]))
    ensures Parse(s) == ValueError
  {
    MeaningOfOpcode(op, s);
    hide Parse, RStrip, LineEnd, IsSpace;
  }

  // s is the name, one blank and the argument as it is, which the parser finds
  // there again if it is canonical.
  ghost predicate Printed(s: string, name: string, a: string) {
    && name <= s && |s| == |name| + 1 + |a| && s[|name|] == ' ' && s[|name| + 1..] == a
    && (CanonicalArg(a) ==> Divided(s, name, |name| + 1, |s|, |s|))
  }

  lemma PrintedDivides(a: string)
    ensures Printed(ToStr(RunDeck(a)), "run-deck", a)
    ensures Printed(ToStr(Chdir(a)), "chdir", a)
    ensures Printed(ToStr(QueryStruct(a)), "query-struct", a)
    ensures ToStr(Nop) == "nop" && ToStr(Quit) == "quit" && ToStr(Reset) == "reset"
  {
    hide Printed;
    OneBlank("run-deck", "run-deck ", a);
    OneBlank("chdir", "chdir ", a);
    OneBlank("query-struct", "query-struct ", a);
  }

  lemma OneBlank(name: string, head: string, a: string)
    requires head == name + " "
    ensures Printed(head + a, name, a)
  {
    assert IsSpace(' ');
    hide IsSpace;
    var s, n := head + a, |name| + 1;
    assert s[..n] == head;
    assert forall m :: n <= m < |s| ==> s[m] == a[m - n];
  }

  // The commands without argument are their names, alone but for white space after them.
  lemma BareMeaning(w: string)
    ensures var blank := forall i :: 0 <= i < |w| ==> w[i] in [' ', '\t', '\n', '\r', '\U{0B}', '\U{0C}'];
      && Parse("nop" + w) == (if blank then Ok(Nop) else ValueError)
      && Parse("quit" + w) == (if blank then Ok(Quit) else ValueError)
      && Parse("reset" + w) == (if blank then Ok(Reset) else ValueError)
  {
    hide Parse;
    forall op | op in [OpNop, OpQuit, OpReset]
      ensures Parse(Name(op) + w) == FromStr(op, Name(op) + w)
      ensures IsBare(Name(op) + w, |Name(op)|) <==> Blank(w)
    {
      BareGroup(op, w);
    }
    assert Name(OpNop) == "nop" && Name(OpQuit) == "quit" && Name(OpReset) == "reset";
  }

  lemma BareGroup(op: Opcode, w: string)
    ensures Parse(Name(op) + w) == FromStr(op, Name(op) + w)
    ensures IsBare(Name(op) + w, |Name(op)|) <==> Blank(w)
  {
    hide Parse, Name, FromStr;
    MeaningOfOpcode(op, Name(op) + w);
    BareAfter(Name(op), w);
  }

  lemma BareAfter(name: string, w: string)
    ensures IsBare(name + w, |name|) <==> Blank(w)
  {
    hide IsSpace;
    var s, n := name + w, |name|;
    assert forall i :: n <= i < |s| ==> s[i] == w[i - n];
    assert forall i :: 0 <= i < |w| ==> w[i] == s[n + i];
    var k := SkipSpace(s, n);
    hide SkipSpace;
  }

  // A trailing word makes a bare command unparsable, and trailing blanks in an
  // argument that never was text are lost on the way.
  lemma LossyExamples()
    ensures Parse("quit now") == ValueError
    ensures Parse(ToStr(Chdir("a "))) != Ok(Chdir("a ")) && !Canonical(Chdir("a "))
  {
    MeaningOfOpcode(OpQuit, "quit now");
    assert !IsSpace("quit now"[5]);
    PrintParse(Chdir("a "));
  }
}
