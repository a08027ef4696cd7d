/** What the comparisons and the moves of the Start/Stop protocol are, one by one. */
module ProtocolMoves {
  import opened Protocol

  // The text that std::string makes of a cell: up to the terminator.
  function CellText(cell: string): string {
    if cell == "" || cell[0] == '\0' then "" else [cell[0]] + CellText(cell[1..])
  }

  // Reading as a message is comparing equal to it.
  lemma {:induction false} ReadsAsComparesEqual(cell: string)
    requires '\0' in cell
    ensures ReadsAs(cell, START) <==> CellText(cell) == "Start"
    ensures ReadsAs(cell, STOP) <==> CellText(cell) == "Stop"
  {
    hide CellText;
    TextOfMessage(cell, "Start");
    TextOfMessage(cell, "Stop");
    assert START == "Start" + "\0" && STOP == "Stop" + "\0";
  }

  lemma {:induction false} TextOfMessage(cell: string, word: string)
    requires '\0' in cell && '\0' !in word
    ensures word + "\0" <= cell <==> CellText(cell) == word
  {
    if word == "" {
      assert "" + "\0" <= cell <==> cell[0] == '\0';
    } else {
      assert word[0] in word && (word + "\0")[0] == word[0];
      assert cell == [cell[0]] + cell[1..] && word + "\0" == [word[0]] + (word[1..] + "\0");
      assert word + "\0" <= cell <==> cell[0] == word[0] && word[1..] + "\0" <= cell[1..];
      if cell[0] != '\0' {
        TextOfMessage(cell[1..], word[1..]);
        assert word == [word[0]] + word[1..];
      }
    }
  }

  // The calls of a child that may fail: setting up its transport and each send.
  ghost predicate MayFail(c: Config, s: State, i: nat)
    requires WellSized(c, s) && i < c.n
  {
    match s.children[i]
    case PubSetup => true
    case PubSend => s.sent[i] < c.total
    case SubSetup => true
    case SubInit => true
    case _ => false
  }

  // A call that fails ends the child, without Stop and without results, and nothing else
  // does; a send counts exactly when it succeeds.
  lemma {:induction false} FailureEndsChild(c: Config, s: State, i: nat, hint: nat, fail: bool)
    requires WellSized(c, s) && i < c.n && s.children[i] != Exited(false)
    ensures var s' := StepChild(c, s, i, hint, fail);
      && (s'.children[i] == Exited(false) <==> fail && MayFail(c, s, i))
      && (fail && MayFail(c, s, i) ==> s' == s.(children := s.children[i := Exited(false)]))
      && (s'.sent[i] == s.sent[i] + if s.children[i].PubSend? && s.sent[i] < c.total && !fail then 1 else 0)
  {
  }

  // Any byte that is left may be the next to be stored or fetched.
  lemma {:induction false} AnyByteMayBeNext(c: Config, s: State, i: nat, k: nat)
    requires WellSized(c, s) && i < c.n
    ensures s.children[i].PubStop? && k in s.children[i].pending ==>
      var s' := StepChild(c, s, i, k, false);
      s'.cells[i] == s.cells[i][k := STOP[k]] && s'.children[i] == PubStop(s.children[i].pending - {k})
    ensures s.children[i].SubWait? && k in Unread(s.children[i].got, START) ==>
      StepChild(c, s, i, k, false).children[i] == SubWait(s.children[i].got[k := s.cells[i][k]])
    ensures s.children[i].SubRun? && k in Unread(s.children[i].got, STOP) ==>
      StepChild(c, s, i, k, false).children[i] == SubRun(s.children[i].got[k := s.cells[i][k]])
  {
  }

  lemma {:induction false} AnyByteOfCoordinator(c: Config, s: State, k: nat)
    requires WellSized(c, s)
    ensures s.coord.Starting? && s.coord.cell < c.n && k in s.coord.pending ==>
      StepCoordinator(c, s, k).cells == s.cells[s.coord.cell := s.cells[s.coord.cell][k := START[k]]]
    ensures s.coord.Stopping? && s.coord.cell < c.n && !IsPub(s.coord.cell) && k in s.coord.pending ==>
      StepCoordinator(c, s, k).cells == s.cells[s.coord.cell := s.cells[s.coord.cell][k := STOP[k]]]
    ensures s.coord.Scanning? && s.coord.cell < c.n && IsPub(s.coord.cell) && k in Unread(s.coord.got, STOP) ==>
      StepCoordinator(c, s, k).coord ==
      Scanning(s.coord.cell, s.coord.count, s.coord.got[k := s.cells[s.coord.cell][k]])
  {
  }
}
