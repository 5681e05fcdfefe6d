/**
 * The check of a guarded write and the write itself are two calls. Between them the conversation can
 * be deleted and opened again, and then the write of an old generation does land. What remains is
 * that every write was current when it was checked.
 */
module FencingRace {
  import opened Fencing

  /** The fence, and the writes that were let through and have not reached the store yet. */
  datatype Race = Race(fence: Fence, pending: seq<Landed>)

  datatype Move =
    | Whole(step: Step)
    | Check(view: nat)
    | Land(position: nat)

  predicate Possible(race: Race, move: Move) {
    match move
    case Whole(step) => !step.Write? && Enabled(race.fence, step)
    case Check(v) => v < |race.fence.views|
    case Land(k) => k < |race.pending|
  }

  function Moved(race: Race, move: Move): Race
    requires Possible(race, move)
  {
    match move
    case Whole(step) => race.(fence := Next(race.fence, step))
    case Check(v) =>
      var view := race.fence.views[v];
      if IsCurrent(race.fence.table, view.conversation, view.generation)
      then race.(pending := race.pending + [Landed(v, view.conversation, view.generation)])
      else race
    case Land(k) =>
      Race(race.fence.(landed := race.fence.landed + [race.pending[k]]), race.pending[..k] + race.pending[k + 1..])
  }

  predicate AllPossible(race: Race, moves: seq<Move>)
    decreases |moves|, 0
  {
    moves == [] ||
    (AllPossible(race, moves[..|moves| - 1]) && Possible(Played(race, moves[..|moves| - 1]), moves[|moves| - 1]))
  }

  function Played(race: Race, moves: seq<Move>): Race
    requires AllPossible(race, moves)
    decreases |moves|, 1
  {
    if moves == [] then race else Moved(Played(race, moves[..|moves| - 1]), moves[|moves| - 1])
  }

  /** Some move of the run checked this write, and it was current then. */
  ghost predicate WasChecked(race: Race, moves: seq<Move>, write: Landed)
    requires AllPossible(race, moves)
  {
    exists n :: 0 <= n < |moves| && CheckedAt(race, moves, n, write)
  }

  ghost predicate CheckedAt(race: Race, moves: seq<Move>, n: nat, write: Landed)
    requires AllPossible(race, moves) && n < |moves|
  {
    && moves[n] == Check(write.view)
    && AllPossible(race, moves[..n])
    && IsCurrent(Played(race, moves[..n]).fence.table, write.conversation, write.generation)
  }

  lemma StillChecked(race: Race, moves: seq<Move>, write: Landed)
    requires moves != [] && AllPossible(race, moves) && WasChecked(race, moves[..|moves| - 1], write)
    ensures WasChecked(race, moves, write)
  {
    var front := moves[..|moves| - 1];
    var n :| 0 <= n < |front| && CheckedAt(race, front, n, write);
    assert front[..n] == moves[..n];
    assert CheckedAt(race, moves, n, write);
  }

  /** Over any interleaving of the split calls, whatever is pending or landed was current at its check. */
  lemma {:induction false} EveryWriteWasChecked(race: Race, moves: seq<Move>, write: Landed)
    requires race.pending == [] && race.fence.landed == [] && AllPossible(race, moves)
    requires write in Played(race, moves).pending || write in Played(race, moves).fence.landed
    ensures WasChecked(race, moves, write)
  {
    if moves != [] {
      var n := |moves| - 1;
      var before := Played(race, moves[..n]);
      if write in before.pending || write in before.fence.landed {
        EveryWriteWasChecked(race, moves[..n], write);
        StillChecked(race, moves, write);
      } else {
        assert CheckedAt(race, moves, n, write);
      }
    }
  }

  lemma PlayOn(race: Race, moves: seq<Move>, move: Move)
    requires AllPossible(race, moves) && Possible(Played(race, moves), move)
    ensures AllPossible(race, moves + [move]) && Played(race, moves + [move]) == Moved(Played(race, moves), move)
  {
    assert (moves + [move])[..|moves|] == moves;
  }

  /** How a stale write lands: checked, overtaken by a deletion and a new activation, carried out. */
  lemma StaleWriteLands(c: string)
    ensures var moves := [Whole(Open(c))] + [Check(0)] + [Whole(Delete(c))] + [Whole(Open(c))] + [Land(0)];
            && AllPossible(Race(EMPTY_FENCE, []), moves)
            && var after := Played(Race(EMPTY_FENCE, []), moves);
               after.fence.landed == [Landed(0, c, 0)] && GenerationOf(after.fence.table, c) == 1
  {
    var start := Race(EMPTY_FENCE, []);
    var moves := [Whole(Open(c))];
    assert [] + moves == moves;
    PlayOn(start, [], Whole(Open(c)));
    PlayOn(start, moves, Check(0));
    PlayOn(start, moves + [Check(0)], Whole(Delete(c)));
    PlayOn(start, moves + [Check(0)] + [Whole(Delete(c))], Whole(Open(c)));
    PlayOn(start, moves + [Check(0)] + [Whole(Delete(c))] + [Whole(Open(c))], Land(0));
  }

  /** Between check and write only the deletion of its own conversation makes a write stale. */
  lemma TurnsStaleIff(race: Race, write: Landed, move: Move)
    requires IsCurrent(race.fence.table, write.conversation, write.generation) && Possible(race, move)
    ensures !IsCurrent(Moved(race, move).fence.table, write.conversation, write.generation)
            <==> move == Whole(Delete(write.conversation))
  {}

  /** Generations never go back, and a deletion passes the current one. */
  lemma {:induction false} PassedStaysPassed(race: Race, moves: seq<Move>, c: string, generation: int)
    requires AllPossible(race, moves)
    ensures GenerationOf(race.fence.table, c) <= GenerationOf(Played(race, moves).fence.table, c)
    ensures IsCurrent(race.fence.table, c, generation) && Whole(Delete(c)) in moves
            ==> generation < GenerationOf(Played(race, moves).fence.table, c)
  {
    if moves != [] {
      var n := |moves| - 1;
      PassedStaysPassed(race, moves[..n], c, generation);
      assert moves == moves[..n] + [moves[n]];
    }
  }

  /**
   * Over any stretch of moves, a write that was current at its beginning, as every write is at its
   * check, is current at its end if and only if its conversation was not deleted in between, whoever
   * opened it again since.
   */
  lemma {:induction false} StaysCurrentIff(race: Race, moves: seq<Move>, write: Landed)
    requires AllPossible(race, moves) && IsCurrent(race.fence.table, write.conversation, write.generation)
    ensures IsCurrent(Played(race, moves).fence.table, write.conversation, write.generation)
            <==> Whole(Delete(write.conversation)) !in moves
  {
    if Whole(Delete(write.conversation)) in moves {
      PassedStaysPassed(race, moves, write.conversation, write.generation);
    } else if moves != [] {
      var n := |moves| - 1;
      assert moves == moves[..n] + [moves[n]];
      StaysCurrentIff(race, moves[..n], write);
      TurnsStaleIff(Played(race, moves[..n]), write, moves[n]);
    }
  }

  /** The writes that passed their check during a run, with multiplicity. */
  ghost function Admitted(race: Race, moves: seq<Move>): multiset<Landed>
    requires AllPossible(race, moves)
  {
    if moves == [] then multiset{}
    else
      var front, move := moves[..|moves| - 1], moves[|moves| - 1];
      Admitted(race, front) + (if move.Check? then AdmittedBy(Played(race, front).fence, move.view) else multiset{})
  }

  ghost function AdmittedBy(fence: Fence, v: nat): multiset<Landed>
    requires v < |fence.views|
  {
    var view := fence.views[v];
    if IsCurrent(fence.table, view.conversation, view.generation) then multiset{Landed(v, view.conversation, view.generation)} else multiset{}
  }

  lemma LandingMoves(pending: seq<Landed>, landed: seq<Landed>, k: nat)
    requires k < |pending|
    ensures multiset(pending[..k] + pending[k + 1..]) + multiset(landed + [pending[k]]) == multiset(pending) + multiset(landed)
  {
    assert pending == pending[..k] + [pending[k]] + pending[k + 1..];
  }

  lemma WholeStepsLandNothing(fence: Fence, step: Step)
    requires Enabled(fence, step) && !step.Write?
    ensures Next(fence, step).landed == fence.landed
  {
  }

  /** No write is lost, doubled or made up: pending and landed together are the admitted ones. */
  lemma {:induction false} EveryAdmittedLandsOnce(race: Race, moves: seq<Move>)
    requires race.pending == [] && race.fence.landed == [] && AllPossible(race, moves)
    ensures multiset(Played(race, moves).pending) + multiset(Played(race, moves).fence.landed) == Admitted(race, moves)
  {
    if moves != [] {
      var front, move := moves[..|moves| - 1], moves[|moves| - 1];
      var before := Played(race, front);
      EveryAdmittedLandsOnce(race, front);
      match move
      case Whole(step) => WholeStepsLandNothing(before.fence, step);
      case Check(_) =>
      case Land(k) => LandingMoves(before.pending, before.fence.landed, k);
    }
  }
}
