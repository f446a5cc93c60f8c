/**
 * The rules of game.js's App class that decide something about the puzzle:
 * the star rating and progress record written when a level is finished, and
 * the hint search for the first valid move together with its replay.
 */
module AppRules {
  import opened Wrappers
  import opened Board
  import opened Engine

  // ---------------------------------------------------------------------
  // Star rating and progress

  /** Stars for finishing a level in `moves` moves against its par `minMoves`. */
  function Stars(moves: int, minMoves: int): (stars: nat)
    ensures 1 <= stars <= 3
    ensures stars == 3 <==> moves <= minMoves
    ensures stars >= 2 <==> moves <= minMoves + 3
  {
    if moves <= minMoves then 3 else if moves <= minMoves + 3 then 2 else 1
  }

  /** Fewer moves never earn fewer stars. */
  lemma StarsMonotone(fewer: int, more: int, minMoves: int)
    requires fewer <= more
    ensures Stars(fewer, minMoves) >= Stars(more, minMoves)
  {
  }

  function Max(a: int, b: int): int
  {
    if a >= b then a else b
  }

  /** The saved progress: best stars per level and the highest unlocked level. */
  datatype Progress = Progress(stars: map<int, nat>, unlocked: int)

  /** levelComplete's bookkeeping for finishing level `curLvl` in `moves` moves. */
  function RecordCompletion(p: Progress, curLvl: int, moves: int, minMoves: int): (q: Progress)
    ensures curLvl in q.stars
    ensures q.stars[curLvl] == Stars(moves, minMoves) || (curLvl in p.stars && q.stars[curLvl] == p.stars[curLvl])
    ensures q.stars[curLvl] >= Stars(moves, minMoves)
    ensures forall l :: l in p.stars ==> l in q.stars && q.stars[l] >= p.stars[l]
    ensures forall l :: l in q.stars && l != curLvl ==> l in p.stars && q.stars[l] == p.stars[l]
    ensures q.unlocked >= p.unlocked && q.unlocked >= curLvl + 1
    ensures q.unlocked == p.unlocked || q.unlocked == curLvl + 1
  {
    var before := if curLvl in p.stars then p.stars[curLvl] else 0;
    Progress(p.stars[curLvl := Max(before, Stars(moves, minMoves))], Max(p.unlocked, curLvl + 1))
  }

  /** Recording the same result twice leaves the progress as recording it once. */
  lemma RecordCompletionIdempotent(p: Progress, curLvl: int, moves: int, minMoves: int)
    ensures var q := RecordCompletion(p, curLvl, moves, minMoves);
      RecordCompletion(q, curLvl, moves, minMoves) == q
  {
    var q := RecordCompletion(p, curLvl, moves, minMoves);
    assert q.stars[curLvl := q.stars[curLvl]] == q.stars;
  }

  // ---------------------------------------------------------------------
  // Hints

  /**
   * The hint search: the first (from, to) in loop order, skipping empty and
   * locked sources, for which isValidMove holds.
   */
  method FindHint(s: Snapshot) returns (hint: Option<(nat, nat)>)
    ensures hint.Some? ==> ValidMove(s, hint.value.0, hint.value.1)
    ensures hint.Some? ==> s.cylinders[hint.value.0] != [] && hint.value.0 !in s.lockedPoles
    ensures hint.Some? ==>
      forall f, t :: 0 <= f < hint.value.0 && 0 <= t < |s.cylinders| ==> !ValidMove(s, f, t)
    ensures hint.Some? ==> forall t :: 0 <= t < hint.value.1 ==> !ValidMove(s, hint.value.0, t)
    ensures hint.None? <==> forall f, t :: 0 <= f < |s.cylinders| && 0 <= t < |s.cylinders| ==> !ValidMove(s, f, t)
  {
    var f := 0;
    while f < |s.cylinders|
      invariant 0 <= f <= |s.cylinders|
      invariant forall f', t :: 0 <= f' < f && 0 <= t < |s.cylinders| ==> !ValidMove(s, f', t)
    {
      if s.cylinders[f] != [] && f !in s.lockedPoles {
        var t := 0;
        while t < |s.cylinders|
          invariant 0 <= t <= |s.cylinders|
          invariant forall t' :: 0 <= t' < t ==> !ValidMove(s, f, t')
        {
          if ValidMove(s, f, t) {
            return Some((f, t));
          }
          t := t + 1;
        }
      }
      f := f + 1;
    }
    return None;
  }

  /** What the hint handler does with the pair it found: interact(from), then interact(to). */
  function ReplayHint(s: Snapshot, from: int, to: int): (r: (Snapshot, Option<Outcome>))
    requires SelectionReadable(s)
    ensures SelectionReadable(r.0)
  {
    Tap(Tap(s, from).0, to)
  }

  /** From an idle state the replay plays exactly the hinted move. */
  lemma ReplayHintFromIdle(s: Snapshot, from: int, to: int)
    requires SelectionReadable(s) && s.selected == -1 && ValidMove(s, from, to)
    ensures ReplayHint(s, from, to).1.Some? && ReplayHint(s, from, to).1.value.Moved?
    ensures ReplayHint(s, from, to).1.value.from == from && ReplayHint(s, from, to).1.value.to == to
    ensures ReplayHint(s, from, to).0.cylinders == Transfer(s.cylinders, from, to)
  {
    var s1 := Tap(s, from).0;
    assert s1 == s.(selected := from);
  }

  /**
   * With a peg already selected the replay can miss the hinted move: here the
   * selected peg is the hinted source, so the first tap deselects it and the
   * second taps an empty peg, and the board does not change.
   */
  lemma ReplayHintCanMissMove()
    ensures var s := Snapshot([["red"], []], 0, 0, 20, 4, false, [], []);
      && ValidMove(s, 0, 1) && !ValidMove(s, 0, 0)
      && ReplayHint(s, 0, 1).1 == None
      && ReplayHint(s, 0, 1).0.cylinders == s.cylinders
  {
  }

  /** The replay with the current selection cleared first: it always plays the hinted move. */
  function ReplayHintFixed(s: Snapshot, from: int, to: int): (r: (Snapshot, Option<Outcome>))
    requires SelectionReadable(s)
    ensures ValidMove(s, from, to) ==>
      && r.1.Some? && r.1.value.Moved? && r.1.value.from == from && r.1.value.to == to
      && r.0.cylinders == Transfer(s.cylinders, from, to)
  {
    var idle := s.(selected := -1);
    if ValidMove(s, from, to) then ReplayHintFromIdle(idle, from, to); ReplayHint(idle, from, to)
    else ReplayHint(idle, from, to)
  }
}
