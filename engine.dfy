/**
 * The move engine: the GameState class of game.js.
 *
 * The fields of a GameState are gathered in a Snapshot value. Tap, UndoLast,
 * Load and ValidMove are interact, undo, loadLevel and isValidMove as
 * functions of a snapshot; the class's methods change the fields in place and
 * are proved to follow those functions, and the lemmas below state what the
 * functions guarantee.
 */
module Engine {
  import opened Wrappers
  import opened Board

  /** One entry of moveHistory: enough to reverse the move. */
  datatype MoveRecord = MoveRecord(from: nat, to: nat, ring: Ring)

  /** The three result tags of an accepted move. */
  datatype MoveKind = Drop | Complete | LevelComplete

  /** The tagged object that interact returns; a `null` return is None. */
  datatype Outcome =
    | Locked
    | Select(from: nat)
    | Deselect
    | Wrong
    | Moved(kind: MoveKind, from: nat, to: nat, ring: Ring, unlocked: bool)

  /** The fields of a GameState; `selected` is selectedCylinder, -1 for none. */
  datatype Snapshot = Snapshot(
    cylinders: Pegs,
    selected: int,
    moves: int,
    minMoves: int,
    capacity: int,
    isMystery: bool,
    lockedPoles: seq<int>,
    history: seq<MoveRecord>)

  /** The level description loadLevel reads; absent properties are None. */
  datatype LoadConfig = LoadConfig(ringsPerColor: Option<int>, mystery: bool, locked: Option<seq<int>>)
  datatype LevelData = LevelData(cylinders: Option<Pegs>, minMoves: Option<int>, config: LoadConfig)

  // ---------------------------------------------------------------------
  // The move rule and the history it produces

  /** The rule a move from the selected peg must satisfy to be accepted. */
  predicate Legal(b: Pegs, capacity: int, m: MoveRecord)
  {
    && m.from < |b| && m.to < |b| && m.from != m.to
    && b[m.from] != [] && m.ring == Top(b[m.from])
    && |b[m.to]| < capacity
    && (b[m.to] == [] || Top(b[m.to]) == m.ring)
  }

  /** The board reached by playing `history` from `b0`, or None if some move was not legal. */
  function Replay(b0: Pegs, capacity: int, history: seq<MoveRecord>): Option<Pegs>
    decreases |history|
  {
    if history == [] then Some(b0)
    else
      var m := history[|history| - 1];
      match Replay(b0, capacity, history[..|history| - 1])
      case None => None
      case Some(b) => if Legal(b, capacity, m) then Some(Transfer(b, m.from, m.to)) else None
  }

  /** The selected peg, if any, exists and has a ring to move. */
  predicate SelectionReadable(s: Snapshot)
  {
    s.selected == -1 || (0 <= s.selected < |s.cylinders| && s.cylinders[s.selected] != [])
  }

  /** A selected peg is never empty and never locked. */
  predicate SelectionOk(s: Snapshot)
  {
    SelectionReadable(s) && (s.selected == -1 || s.selected !in s.lockedPoles)
  }

  /** The invariant of a GameState whose board was loaded as `b0`. */
  predicate Consistent(s: Snapshot, b0: Pegs)
  {
    && SelectionOk(s)
    && s.moves == |s.history|
    && Replay(b0, s.capacity, s.history) == Some(s.cylinders)
  }

  /** The pegs named by the last history entry exist. */
  predicate UndoReadable(s: Snapshot)
  {
    s.history == [] ||
    (s.history[|s.history| - 1].from < |s.cylinders| && s.history[|s.history| - 1].to < |s.cylinders|)
  }

  // ---------------------------------------------------------------------
  // The operations, as functions of a snapshot

  function MinMovesOrDefault(given: Option<int>): (m: int)
    ensures m >= 1
    ensures given.Some? && given.value >= 1 ==> m == given.value
    ensures given.None? || given.value < 1 ==> m == 20
  {
    if given.Some? && given.value >= 1 then given.value else 20
  }

  function CapacityOrDefault(given: Option<int>): (c: int)
    ensures c != 0
    ensures given.Some? && given.value != 0 ==> c == given.value
    ensures given.None? || given.value == 0 ==> c == 4
  {
    if given.Some? && given.value != 0 then given.value else 4
  }

  /** loadLevel: no effect without a board; otherwise a fresh game on that board. */
  function Load(s: Snapshot, data: Option<LevelData>): (r: Snapshot)
    ensures data.None? || data.value.cylinders.None? ==> r == s
    ensures data.Some? && data.value.cylinders.Some? ==>
      && Consistent(r, data.value.cylinders.value)
      && r.cylinders == data.value.cylinders.value
      && r.selected == -1 && r.moves == 0 && r.history == []
      && r.minMoves == MinMovesOrDefault(data.value.minMoves)
      && r.capacity == CapacityOrDefault(data.value.config.ringsPerColor)
      && r.isMystery == data.value.config.mystery
      && r.lockedPoles == (if data.value.config.locked.Some? then data.value.config.locked.value else [])
  {
    match data
    case None => s
    case Some(d) =>
      match d.cylinders
      case None => s
      case Some(b) =>
        Snapshot(b, -1, 0, MinMovesOrDefault(d.minMoves), CapacityOrDefault(d.config.ringsPerColor),
                 d.config.mystery, if d.config.locked.Some? then d.config.locked.value else [], [])
  }

  /** interact(index): one tap on a peg. */
  function Tap(s: Snapshot, index: int): (r: (Snapshot, Option<Outcome>))
    requires SelectionReadable(s)
    ensures SelectionReadable(r.0) && (SelectionOk(s) ==> SelectionOk(r.0))
  {
    if index < 0 || index >= |s.cylinders| then (s, None)
    else if index in s.lockedPoles then (s, Some(Locked))
    else if s.selected == -1 then
      if s.cylinders[index] != [] then (s.(selected := index), Some(Select(index))) else (s, None)
    else if s.selected == index then (s.(selected := -1), Some(Deselect))
    else
      var from, to := s.selected, index;
      var ring := Top(s.cylinders[from]);
      var target := s.cylinders[to];
      var validColor := target == [] || Top(target) == ring;
      var hasSpace := |target| < s.capacity;
      if !validColor || !hasSpace then (s, Some(Wrong))
      else
        var b := Transfer(s.cylinders, from, to);
        var levelDone := IsLevelComplete(b, s.capacity);
        var pegDone := IsPegComplete(b[to], s.capacity);
        var unlocked := pegDone && |s.lockedPoles| > 0;
        var kind := if levelDone then LevelComplete else if pegDone then Complete else Drop;
        (s.(cylinders := b, moves := s.moves + 1, history := s.history + [MoveRecord(from, to, ring)],
            selected := -1, lockedPoles := if unlocked then [] else s.lockedPoles),
         Some(Moved(kind, from, to, ring, unlocked)))
  }

  /** undo(): takes back the last recorded move; locks are not restored. */
  function UndoLast(s: Snapshot): (r: (Snapshot, Option<MoveRecord>))
    requires UndoReadable(s)
    ensures r.1.None? <==> s.history == []
    ensures r.1.None? ==> r.0 == s
    ensures r.1.Some? ==>
      && r.0.history + [r.1.value] == s.history
      && r.0.moves == s.moves - 1 && r.0.selected == -1
    ensures r.0.lockedPoles == s.lockedPoles && r.0.capacity == s.capacity
    ensures r.0.minMoves == s.minMoves && r.0.isMystery == s.isMystery
    ensures |r.0.cylinders| == |s.cylinders|
  {
    if s.history == [] then (s, None)
    else
      var m := s.history[|s.history| - 1];
      var b := s.cylinders[m.to := Pop(s.cylinders[m.to])];
      (s.(cylinders := b[m.from := b[m.from] + [m.ring]], history := s.history[..|s.history| - 1],
          moves := s.moves - 1, selected := -1),
       Some(m))
  }

  /** isValidMove(from, to): would a move from `from` to `to` be accepted? */
  function ValidMove(s: Snapshot, from: int, to: int): (ok: bool)
    ensures ok <==>
      && 0 <= from < |s.cylinders| && 0 <= to < |s.cylinders|
      && from !in s.lockedPoles && to !in s.lockedPoles
      && s.cylinders[from] != []
      && Legal(s.cylinders, s.capacity, MoveRecord(from, to, Top(s.cylinders[from])))
  {
    if from == to then false
    else if from < 0 || from >= |s.cylinders| then false
    else if to < 0 || to >= |s.cylinders| then false
    else if from in s.lockedPoles || to in s.lockedPoles then false
    else if s.cylinders[from] == [] then false
    else if |s.cylinders[to]| >= s.capacity then false
    else if s.cylinders[to] == [] then true
    else Top(s.cylinders[to]) == Top(s.cylinders[from])
  }

  // ---------------------------------------------------------------------
  // Properties

  /** Playing legal moves keeps the peg count, the rings of every colour and the capacity bound. */
  lemma {:induction false} ReplayPreserves(b0: Pegs, capacity: int, history: seq<MoveRecord>)
    requires Replay(b0, capacity, history).Some?
    ensures |Replay(b0, capacity, history).value| == |b0|
    ensures Rings(Replay(b0, capacity, history).value) == Rings(b0)
    ensures WithinCapacity(b0, capacity) ==> WithinCapacity(Replay(b0, capacity, history).value, capacity)
    decreases |history|
  {
    if history != [] {
      var m := history[|history| - 1];
      var h := history[..|history| - 1];
      ReplayPreserves(b0, capacity, h);
      var b := Replay(b0, capacity, h).value;
      TransferConserves(b, m.from, m.to);
      if WithinCapacity(b0, capacity) {
        TransferWithinCapacity(b, m.from, m.to, capacity);
      }
    }
  }

  /** A tap never creates or destroys rings, keeps the peg count and the capacity bound, and leaves the level's settings alone. */
  lemma TapConserves(s: Snapshot, index: int)
    requires SelectionReadable(s)
    ensures var t := Tap(s, index).0;
      && |t.cylinders| == |s.cylinders| && Rings(t.cylinders) == Rings(s.cylinders)
      && (WithinCapacity(s.cylinders, s.capacity) ==> WithinCapacity(t.cylinders, s.capacity))
      && t.capacity == s.capacity && t.minMoves == s.minMoves && t.isMystery == s.isMystery
  {
    var (t, o) := Tap(s, index);
    if o.Some? && o.value.Moved? {
      TransferConserves(s.cylinders, s.selected, index);
      if WithinCapacity(s.cylinders, s.capacity) {
        TransferWithinCapacity(s.cylinders, s.selected, index, s.capacity);
      }
    }
  }

  /** Every state a game reaches keeps the ring multiset of the loaded board and its capacity bound. */
  lemma ConsistentConserves(s: Snapshot, b0: Pegs)
    requires Consistent(s, b0)
    ensures |s.cylinders| == |b0| && Rings(s.cylinders) == Rings(b0)
    ensures WithinCapacity(b0, s.capacity) ==> WithinCapacity(s.cylinders, s.capacity)
  {
    ReplayPreserves(b0, s.capacity, s.history);
  }

  /** Appending one legal move to a replayable history. */
  lemma ReplayAppend(b0: Pegs, capacity: int, history: seq<MoveRecord>, m: MoveRecord)
    requires Replay(b0, capacity, history).Some? && Legal(Replay(b0, capacity, history).value, capacity, m)
    ensures Replay(b0, capacity, history + [m]) ==
      Some(Transfer(Replay(b0, capacity, history).value, m.from, m.to))
  {
    assert (history + [m])[..|history|] == history;
  }

  /** interact keeps the GameState invariant. */
  lemma TapKeepsConsistent(s: Snapshot, b0: Pegs, index: int)
    requires Consistent(s, b0)
    ensures Consistent(Tap(s, index).0, b0)
  {
    var r := Tap(s, index);
    if r.1.Some? && r.1.value.Moved? {
      var m := MoveRecord(r.1.value.from, r.1.value.to, r.1.value.ring);
      ReplayAppend(b0, s.capacity, s.history, m);
    }
  }

  /** The first four cases of interact, in priority order; none of them touches the board. */
  lemma TapGuards(s: Snapshot, index: int)
    requires SelectionReadable(s)
    ensures index < 0 || index >= |s.cylinders| ==> Tap(s, index) == (s, None)
    ensures 0 <= index < |s.cylinders| && index in s.lockedPoles ==> Tap(s, index) == (s, Some(Locked))
    ensures 0 <= index < |s.cylinders| && index !in s.lockedPoles && s.selected == -1 ==>
      Tap(s, index) == if s.cylinders[index] != [] then (s.(selected := index), Some(Select(index))) else (s, None)
    ensures 0 <= index < |s.cylinders| && index !in s.lockedPoles && s.selected == index ==>
      Tap(s, index) == (s.(selected := -1), Some(Deselect))
  {
  }

  /** Selecting a peg and tapping it again gives back exactly the state before. */
  lemma SelectThenDeselect(s: Snapshot, i: int)
    requires SelectionReadable(s) && s.selected == -1
    requires 0 <= i < |s.cylinders| && i !in s.lockedPoles && s.cylinders[i] != []
    ensures Tap(s, i).1 == Some(Select(i))
    ensures Tap(Tap(s, i).0, i) == (s, Some(Deselect))
  {
  }

  /**
   * A tap on another unlocked peg while a peg is selected is accepted iff the
   * target has room and is empty or shows the same colour on top; otherwise it
   * is `wrong` and nothing changes, the selection included.
   */
  lemma MoveAcceptedIff(s: Snapshot, index: int)
    requires SelectionReadable(s) && s.selected != -1
    requires 0 <= index < |s.cylinders| && index !in s.lockedPoles && index != s.selected
    ensures Tap(s, index).1.Some?
    ensures Tap(s, index).1.value.Moved? <==>
      && |s.cylinders[index]| < s.capacity
      && (s.cylinders[index] == [] || Top(s.cylinders[index]) == Top(s.cylinders[s.selected]))
    ensures !Tap(s, index).1.value.Moved? ==> Tap(s, index) == (s, Some(Wrong))
  {
  }

  /** isValidMove agrees with what interact does once `from` is selected. */
  lemma ValidMoveAgreesWithTap(s: Snapshot, from: int, to: int)
    requires SelectionOk(s) && s.selected == from && from != -1
    ensures ValidMove(s, from, to) <==> Tap(s, to).1.Some? && Tap(s, to).1.value.Moved?
  {
  }

  /** An accepted move moves exactly the source's top ring, records it, and changes nothing else. */
  lemma MoveEffect(s: Snapshot, index: int)
    requires SelectionReadable(s)
    requires Tap(s, index).1.Some? && Tap(s, index).1.value.Moved?
    ensures var (t, o) := Tap(s, index);
      && o.value.from == s.selected && o.value.to == index && o.value.from != o.value.to
      && o.value.ring == Top(s.cylinders[s.selected])
      && Legal(s.cylinders, s.capacity, MoveRecord(o.value.from, o.value.to, o.value.ring))
      && t.cylinders[o.value.from] + [o.value.ring] == s.cylinders[o.value.from]
      && t.cylinders[o.value.to] == s.cylinders[o.value.to] + [o.value.ring]
      && (forall i :: 0 <= i < |s.cylinders| && i != o.value.from && i != o.value.to ==> t.cylinders[i] == s.cylinders[i])
      && t.moves == s.moves + 1
      && t.history == s.history + [MoveRecord(o.value.from, o.value.to, o.value.ring)]
      && t.selected == -1
  {
  }

  /**
   * The tag of an accepted move: levelComplete iff every peg is empty or full
   * of one colour, else complete iff the target peg is; `unlocked` (and the
   * clearing of all locks) iff the target completed while locks existed.
   */
  lemma MoveClassification(s: Snapshot, index: int)
    requires SelectionReadable(s)
    requires Tap(s, index).1.Some? && Tap(s, index).1.value.Moved?
    ensures var (t, o) := Tap(s, index);
      && (o.value.kind == LevelComplete <==> IsLevelComplete(t.cylinders, s.capacity))
      && (o.value.kind == Complete <==>
            !IsLevelComplete(t.cylinders, s.capacity) && IsPegComplete(t.cylinders[o.value.to], s.capacity))
      && (o.value.unlocked <==> IsPegComplete(t.cylinders[o.value.to], s.capacity) && |s.lockedPoles| > 0)
      && t.lockedPoles == (if o.value.unlocked then [] else s.lockedPoles)
  {
  }

  /** Undoing a move just made restores the board, counter and history exactly; only the locks stay cleared. */
  lemma UndoAfterMove(s: Snapshot, index: int)
    requires SelectionReadable(s)
    requires Tap(s, index).1.Some? && Tap(s, index).1.value.Moved?
    ensures UndoReadable(Tap(s, index).0)
    ensures var (t, o) := Tap(s, index);
      UndoLast(t) == (s.(selected := -1, lockedPoles := t.lockedPoles),
                      Some(MoveRecord(o.value.from, o.value.to, o.value.ring)))
  {
    MoveEffect(s, index);
    var (t, o) := Tap(s, index);
    var f, d, ring := o.value.from, o.value.to, o.value.ring;
    assert t.cylinders[d] == s.cylinders[d] + [ring];
    assert Pop(t.cylinders[d]) == s.cylinders[d];
    var b1 := t.cylinders[d := s.cylinders[d]];
    assert b1[f] + [ring] == s.cylinders[f];
    assert b1[f := b1[f] + [ring]] == s.cylinders;
    assert t.history[..|t.history| - 1] == s.history;
  }

  /** Undoing a legal move by its record restores the board. */
  lemma UndoTransfer(b: Pegs, capacity: int, m: MoveRecord)
    requires Legal(b, capacity, m)
    ensures var t := Transfer(b, m.from, m.to);
      var b1 := t[m.to := Pop(t[m.to])];
      b1[m.from := b1[m.from] + [m.ring]] == b
  {
    var t := Transfer(b, m.from, m.to);
    assert Pop(t[m.to]) == b[m.to] by {
      assert t[m.to] == b[m.to] + [m.ring];
    }
  }

  /** undo keeps the invariant, and the board it leaves is the replay of the shortened history. */
  lemma UndoKeepsConsistent(s: Snapshot, b0: Pegs)
    requires Consistent(s, b0)
    ensures UndoReadable(s)
    ensures Consistent(UndoLast(s).0, b0)
  {
    if s.history != [] {
      var m := s.history[|s.history| - 1];
      var h := s.history[..|s.history| - 1];
      var prev := Replay(b0, s.capacity, h);
      assert prev.Some? && Legal(prev.value, s.capacity, m);
      UndoTransfer(prev.value, s.capacity, m);
    }
  }

  // ---------------------------------------------------------------------
  // The class itself

  class GameState {
    var cylinders: Pegs
    var selectedCylinder: int
    var moves: int
    var minMoves: int
    var capacity: int
    var isMystery: bool
    var lockedPoles: seq<int>
    var moveHistory: seq<MoveRecord>
    /** The board as last loaded; the current board replays moveHistory from it. */
    ghost var initial: Pegs

    function State(): Snapshot
      reads this
    {
      Snapshot(cylinders, selectedCylinder, moves, minMoves, capacity, isMystery, lockedPoles, moveHistory)
    }

    ghost predicate Valid()
      reads this
    {
      Consistent(State(), initial)
    }

    constructor ()
      ensures Valid()
      ensures State() == Snapshot([], -1, 0, 0, 4, false, [], [])
    {
      cylinders := [];
      selectedCylinder := -1;
      moves := 0;
      minMoves := 0;
      capacity := 4;
      isMystery := false;
      lockedPoles := [];
      moveHistory := [];
      initial := [];
    }

    method LoadLevel(data: Option<LevelData>)
      requires Valid()
      modifies this
      ensures Valid()
      ensures State() == Load(old(State()), data)
      ensures data.Some? && data.value.cylinders.Some? ==> initial == data.value.cylinders.value
      ensures data.None? || data.value.cylinders.None? ==> initial == old(initial)
    {
      if data.None? || data.value.cylinders.None? {
        return;
      }
      var d := data.value;
      cylinders := d.cylinders.value;
      minMoves := MinMovesOrDefault(d.minMoves);
      capacity := CapacityOrDefault(d.config.ringsPerColor);
      isMystery := d.config.mystery;
      lockedPoles := if d.config.locked.Some? then d.config.locked.value else [];
      selectedCylinder := -1;
      moves := 0;
      moveHistory := [];
      initial := cylinders;
    }

    method Interact(index: int) returns (r: Option<Outcome>)
      requires Valid()
      modifies this
      ensures Valid() && initial == old(initial)
      ensures (State(), r) == Tap(old(State()), index)
    {
      ghost var s0 := State();
      TapKeepsConsistent(s0, initial, index);
      if index < 0 || index >= |cylinders| {
        r := None;
      } else if index in lockedPoles {
        r := Some(Locked);
      } else if selectedCylinder == -1 {
        if cylinders[index] != [] {
          selectedCylinder := index;
          r := Some(Select(index));
        } else {
          r := None;
        }
      } else if selectedCylinder == index {
        selectedCylinder := -1;
        r := Some(Deselect);
      } else {
        r := MoveSelectedTo(index);
      }
    }

    /** The last case of interact: a move from the selected peg onto peg `to`. */
    method MoveSelectedTo(to: int) returns (r: Option<Outcome>)
      requires SelectionReadable(State()) && selectedCylinder != -1
      requires 0 <= to < |cylinders| && to !in lockedPoles && to != selectedCylinder
      modifies this
      ensures initial == old(initial)
      ensures (State(), r) == Tap(old(State()), to)
    {
      ghost var s0 := State();
      var from := selectedCylinder;
      var fromCyl, toCyl := cylinders[from], cylinders[to];
      var ring := fromCyl[|fromCyl| - 1];
      var validColor := |toCyl| == 0 || toCyl[|toCyl| - 1] == ring;
      var hasSpace := |toCyl| < capacity;
      if !validColor || !hasSpace {
        return Some(Wrong);
      }
      cylinders := cylinders[from := fromCyl[..|fromCyl| - 1]];
      cylinders := cylinders[to := toCyl + [ring]];
      assert cylinders == Transfer(s0.cylinders, from, to);
      moves := moves + 1;
      moveHistory := moveHistory + [MoveRecord(from, to, ring)];
      selectedCylinder := -1;
      var isLevelComplete := IsLevelComplete(cylinders, capacity);
      var isCylComplete := IsPegComplete(cylinders[to], capacity);
      var unlocked := false;
      if isCylComplete && |lockedPoles| > 0 {
        lockedPoles := [];
        unlocked := true;
      }
      var kind := if isLevelComplete then LevelComplete else if isCylComplete then Complete else Drop;
      r := Some(Moved(kind, from, to, ring, unlocked));
    }

    method Undo() returns (m: Option<MoveRecord>)
      requires Valid()
      modifies this
      ensures Valid() && initial == old(initial)
      ensures (State(), m) == UndoLast(old(State()))
    {
      UndoKeepsConsistent(State(), initial);
      if |moveHistory| == 0 {
        return None;
      }
      var last := moveHistory[|moveHistory| - 1];
      moveHistory := moveHistory[..|moveHistory| - 1];
      cylinders := cylinders[last.to := Pop(cylinders[last.to])];
      cylinders := cylinders[last.from := cylinders[last.from] + [last.ring]];
      moves := moves - 1;
      selectedCylinder := -1;
      m := Some(last);
    }
  }
}
