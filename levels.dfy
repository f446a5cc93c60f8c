/**
 * The level generator of levels.js: the palette, the difficulty table
 * LEVEL_CONFIGS, and LevelManager's getConfig, selectColors and
 * generateLevel. The random shuffle of the palette is an input (`shuffled`,
 * any ordering of the palette); the other random draws of generateLevel are
 * nondeterministic choices, so everything proved about it holds for every
 * outcome of the dice.
 */
module Levels {
  import opened Wrappers
  import opened Board
  import Engine

  /** The palette: the keys of RING_COLORS, in declaration order. */
  const COLOR_KEYS: seq<Ring> := ["red", "blue", "green", "yellow", "purple", "orange", "pink", "cyan"]

  /** One row of LEVEL_CONFIGS; a row without `locked` has none and one without `mystery` is not a mystery level. */
  datatype Config = Config(colors: nat, cylinders: nat, ringsPerColor: nat, emptyCylinders: nat, locked: seq<nat>, mystery: bool)

  /** The number of rows of LEVEL_CONFIGS; every later level uses the last row. */
  const LEVEL_COUNT: nat := 60

  /** LEVEL_CONFIGS[index]: the row of level index + 1 (the table, as a function of the index). */
  function LevelConfig(index: int): (c: Config)
    requires 0 <= index < LEVEL_COUNT
    ensures WellFormedRow(c)
  {
    if index == 0 then Config(2, 4, 4, 2, [], false)  // level 1
    else if index == 1 then Config(2, 4, 4, 2, [], false)  // level 2
    else if index == 2 then Config(3, 5, 4, 2, [], false)  // level 3
    else if index == 3 then Config(3, 5, 4, 2, [], false)  // level 4
    else if index == 4 then Config(3, 5, 4, 2, [2], false)  // level 5
    else if index == 5 then Config(4, 6, 4, 2, [], false)  // level 6
    else if index == 6 then Config(4, 6, 4, 2, [], false)  // level 7
    else if index == 7 then Config(4, 6, 4, 2, [0], false)  // level 8
    else if index == 8 then Config(4, 6, 4, 2, [], false)  // level 9
    else if index == 9 then Config(5, 7, 4, 2, [], true)  // level 10
    else if index == 10 then Config(5, 7, 4, 2, [], false)  // level 11
    else if index == 11 then Config(5, 7, 4, 2, [1], false)  // level 12
    else if index == 12 then Config(5, 7, 4, 2, [], false)  // level 13
    else if index == 13 then Config(5, 7, 4, 2, [], false)  // level 14
    else if index == 14 then Config(5, 7, 4, 2, [], true)  // level 15
    else if index == 15 then Config(6, 8, 4, 2, [], false)  // level 16
    else if index == 16 then Config(6, 8, 4, 2, [0], false)  // level 17
    else if index == 17 then Config(6, 8, 4, 2, [], false)  // level 18
    else if index == 18 then Config(6, 8, 4, 2, [], false)  // level 19
    else if index == 19 then Config(6, 8, 4, 2, [], true)  // level 20
    else if index == 20 then Config(4, 6, 5, 2, [], false)  // level 21
    else if index == 21 then Config(4, 6, 5, 2, [2], false)  // level 22
    else if index == 22 then Config(5, 7, 5, 2, [], false)  // level 23
    else if index == 23 then Config(5, 7, 5, 2, [], false)  // level 24
    else if index == 24 then Config(5, 7, 5, 2, [], true)  // level 25
    else if index == 25 then Config(6, 8, 5, 2, [], false)  // level 26
    else if index == 26 then Config(6, 8, 5, 2, [1], false)  // level 27
    else if index == 27 then Config(6, 8, 5, 2, [], false)  // level 28
    else if index == 28 then Config(7, 9, 5, 2, [], false)  // level 29
    else if index == 29 then Config(7, 9, 5, 2, [], true)  // level 30
    else if index == 30 then Config(7, 9, 5, 2, [2], false)  // level 31
    else if index == 31 then Config(8, 10, 5, 2, [], false)  // level 32
    else if index == 32 then Config(8, 10, 5, 2, [], false)  // level 33
    else if index == 33 then Config(8, 10, 5, 2, [], false)  // level 34
    else if index == 34 then Config(8, 10, 5, 2, [], true)  // level 35
    else if index == 35 then Config(8, 10, 5, 2, [], false)  // level 36
    else if index == 36 then Config(7, 9, 5, 2, [3], false)  // level 37
    else if index == 37 then Config(7, 9, 5, 2, [], false)  // level 38
    else if index == 38 then Config(6, 8, 5, 2, [], false)  // level 39
    else if index == 39 then Config(6, 9, 5, 3, [], true)  // level 40
    else if index == 40 then Config(4, 6, 6, 2, [], false)  // level 41
    else if index == 41 then Config(5, 7, 6, 2, [0], false)  // level 42
    else if index == 42 then Config(5, 7, 6, 2, [], false)  // level 43
    else if index == 43 then Config(6, 8, 6, 2, [], false)  // level 44
    else if index == 44 then Config(6, 8, 6, 2, [], true)  // level 45
    else if index == 45 then Config(6, 8, 6, 2, [], false)  // level 46
    else if index == 46 then Config(7, 9, 6, 2, [2], false)  // level 47
    else if index == 47 then Config(7, 9, 6, 2, [], false)  // level 48
    else if index == 48 then Config(8, 10, 6, 2, [], false)  // level 49
    else if index == 49 then Config(8, 10, 6, 2, [], true)  // level 50
    else if index == 50 then Config(8, 10, 6, 2, [], false)  // level 51
    else if index == 51 then Config(8, 10, 6, 2, [1], false)  // level 52
    else if index == 52 then Config(8, 10, 6, 2, [], false)  // level 53
    else if index == 53 then Config(8, 10, 6, 2, [], false)  // level 54
    else if index == 54 then Config(8, 10, 6, 2, [], true)  // level 55
    else if index == 55 then Config(8, 10, 6, 2, [], false)  // level 56
    else if index == 56 then Config(8, 10, 6, 2, [], false)  // level 57
    else if index == 57 then Config(8, 10, 6, 2, [], false)  // level 58
    else if index == 58 then Config(8, 10, 6, 2, [], false)  // level 59
    else Config(8, 10, 6, 2, [], true)  // level 60
  }

  /** What every row of the table satisfies. */
  predicate WellFormedRow(c: Config)
  {
    && c.cylinders == c.colors + c.emptyCylinders
    && 2 <= c.colors <= |COLOR_KEYS|
    && 2 <= c.emptyCylinders
    && 4 <= c.ringsPerColor <= 6
    && |c.locked| <= 1
    && (forall i :: 0 <= i < |c.locked| ==> c.locked[i] < c.cylinders)
  }

  /** getConfig: the row of the level, with every level past the table using the last row. */
  function GetConfig(levelNum: int): (c: Config)
    requires levelNum >= 1
    ensures WellFormedRow(c)
    ensures levelNum <= LEVEL_COUNT ==> c == LevelConfig(levelNum - 1)
    ensures levelNum >= LEVEL_COUNT ==> c == LevelConfig(LEVEL_COUNT - 1)
  {
    LevelConfig(if levelNum - 1 <= LEVEL_COUNT - 1 then levelNum - 1 else LEVEL_COUNT - 1)
  }

  /** The mystery levels are every fifth level from level 10 on, and level 60 onwards. */
  lemma MysteryLevels(levelNum: int)
    requires levelNum >= 1
    ensures GetConfig(levelNum).mystery <==> levelNum in {10, 15, 20, 25, 30, 35, 40, 45, 50, 55} || levelNum >= LEVEL_COUNT
  {
  }

  /** Eleven levels lock one peg; which peg is fixed per level. */
  lemma LockedLevels(levelNum: int)
    requires levelNum >= 1
    ensures GetConfig(levelNum).locked != [] <==> levelNum in {5, 8, 12, 17, 22, 27, 31, 37, 42, 47, 52}
    ensures levelNum == 5 ==> GetConfig(levelNum).locked == [2]
    ensures levelNum == 8 ==> GetConfig(levelNum).locked == [0]
  {
  }

  // ---------------------------------------------------------------------
  // Choosing the colours

  /** `shuffled` is some ordering of the whole palette. */
  predicate IsShuffleOfKeys(shuffled: seq<Ring>)
  {
    multiset(shuffled) == multiset(COLOR_KEYS)
  }

  predicate Distinct(s: seq<Ring>)
  {
    forall i, j :: 0 <= i < j < |s| ==> s[i] != s[j]
  }

  lemma {:induction false} DistinctCountAtMostOne(s: seq<Ring>, x: Ring)
    requires Distinct(s)
    ensures multiset(s)[x] <= 1
    decreases |s|
  {
    if s != [] {
      var init := s[..|s| - 1];
      assert s == init + [s[|s| - 1]];
      assert Distinct(init);
      DistinctCountAtMostOne(init, x);
      if x == s[|s| - 1] {
        assert x !in init;
      }
    }
  }

  /** A reordering of distinct colours lists the same colours, each once. */
  lemma PermutationDistinct(s: seq<Ring>, keys: seq<Ring>)
    requires multiset(s) == multiset(keys) && Distinct(keys)
    ensures |s| == |keys| && Distinct(s)
    ensures forall i :: 0 <= i < |s| ==> s[i] in keys
  {
    assert |multiset(s)| == |s|;
    forall i, j | 0 <= i < j < |s| ensures s[i] != s[j] {
      // s[i] already occurs before j, and occurs at most once in all.
      assert s == s[..j] + [s[j]] + s[j + 1..];
      assert s[i] in s[..j];
      DistinctCountAtMostOne(keys, s[i]);
    }
    forall i | 0 <= i < |s| ensures s[i] in keys {
      assert s[i] in multiset(s);
    }
  }

  lemma PaletteDistinct()
    ensures Distinct(COLOR_KEYS)
  {
  }

  /** Any ordering of the palette lists distinct palette colours. */
  lemma ShuffleDistinct(shuffled: seq<Ring>)
    requires IsShuffleOfKeys(shuffled)
    ensures |shuffled| == |COLOR_KEYS| && Distinct(shuffled)
    ensures forall i :: 0 <= i < |shuffled| ==> shuffled[i] in COLOR_KEYS
  {
    PaletteDistinct();
    PermutationDistinct(shuffled, COLOR_KEYS);
  }

  /** selectColors: the first `count` colours of a shuffled palette, or all of them. */
  function SelectColors(count: nat, shuffled: seq<Ring>): (selected: seq<Ring>)
    requires IsShuffleOfKeys(shuffled)
    ensures |selected| == if count <= |COLOR_KEYS| then count else |COLOR_KEYS|
    ensures selected == shuffled[..|selected|]
  {
    shuffled[..if count <= |shuffled| then count else |shuffled|]
  }

  /** The selected colours are distinct palette colours. */
  lemma SelectedColorsDistinct(count: nat, shuffled: seq<Ring>)
    requires IsShuffleOfKeys(shuffled)
    ensures Distinct(SelectColors(count, shuffled))
    ensures multiset(SelectColors(count, shuffled)) <= multiset(COLOR_KEYS)
  {
    ShuffleDistinct(shuffled);
    var n := |SelectColors(count, shuffled)|;
    PrefixDistinct(shuffled, n);
    PrefixSubMultiset(shuffled, n);
  }

  lemma PrefixDistinct(s: seq<Ring>, n: nat)
    requires Distinct(s) && n <= |s|
    ensures Distinct(s[..n])
  {
  }

  lemma PrefixSubMultiset(s: seq<Ring>, n: nat)
    requires n <= |s|
    ensures multiset(s[..n]) <= multiset(s)
  {
    assert s == s[..n] + s[n..];
  }

  // ---------------------------------------------------------------------
  // The solved board

  function Repeat(c: Ring, n: nat): Peg
  {
    seq(n, _ => c)
  }

  lemma {:induction false} RepeatCount(c: Ring, n: nat, x: Ring)
    ensures multiset(Repeat(c, n))[x] == if x == c then n else 0
  {
    if n > 0 {
      assert Repeat(c, n) == Repeat(c, n - 1) + [c];
      RepeatCount(c, n - 1, x);
    }
  }

  /** One full single-coloured peg per selected colour, in order. */
  function FullPegs(selected: seq<Ring>, ringsPerColor: nat): (b: Pegs)
    ensures |b| == |selected|
    ensures forall i :: 0 <= i < |selected| ==> b[i] == Repeat(selected[i], ringsPerColor)
    decreases |selected|
  {
    if selected == [] then []
    else FullPegs(selected[..|selected| - 1], ringsPerColor) + [Repeat(selected[|selected| - 1], ringsPerColor)]
  }

  function EmptyPegs(n: nat): Pegs
  {
    seq(n, _ => [])
  }

  /** The solved state: full pegs of the selected colours, then empty pegs up to `cylinders`. */
  function SolvedBoard(selected: seq<Ring>, ringsPerColor: nat, cylinders: nat): (b: Pegs)
    requires |selected| <= cylinders
    ensures |b| == cylinders
    ensures forall i :: 0 <= i < |selected| ==> IsPegComplete(b[i], ringsPerColor) && b[i] == Repeat(selected[i], ringsPerColor)
    ensures forall i :: |selected| <= i < cylinders ==> b[i] == []
  {
    FullPegs(selected, ringsPerColor) + EmptyPegs(cylinders - |selected|)
  }

  lemma {:induction false} EmptyPegsRings(n: nat)
    ensures Rings(EmptyPegs(n)) == multiset{}
  {
    if n > 0 {
      assert EmptyPegs(n)[..n - 1] == EmptyPegs(n - 1);
      EmptyPegsRings(n - 1);
    }
  }

  lemma {:induction false} FullPegsRings(selected: seq<Ring>, ringsPerColor: nat, x: Ring)
    requires Distinct(selected)
    ensures Rings(FullPegs(selected, ringsPerColor))[x] == if x in selected then ringsPerColor else 0
    decreases |selected|
  {
    if selected != [] {
      var init, last := selected[..|selected| - 1], selected[|selected| - 1];
      var b := FullPegs(selected, ringsPerColor);
      assert b == FullPegs(init, ringsPerColor) + [Repeat(last, ringsPerColor)];
      RingsAppend(FullPegs(init, ringsPerColor), [Repeat(last, ringsPerColor)]);
      assert Distinct(init);
      FullPegsRings(init, ringsPerColor, x);
      RepeatCount(last, ringsPerColor, x);
      assert selected == init + [last];
      assert last !in init;
    }
  }

  lemma MulStep(n: nat, r: int)
    ensures (n + 1) * r == n * r + r
  {
  }

  lemma {:induction false} FullPegsSize(selected: seq<Ring>, ringsPerColor: nat)
    ensures |Rings(FullPegs(selected, ringsPerColor))| == |selected| * ringsPerColor
    decreases |selected|
  {
    if selected != [] {
      var init, last := selected[..|selected| - 1], selected[|selected| - 1];
      var b := FullPegs(selected, ringsPerColor);
      assert b[..|b| - 1] == FullPegs(init, ringsPerColor);
      assert Rings(b) == Rings(FullPegs(init, ringsPerColor)) + multiset(Repeat(last, ringsPerColor));
      assert |multiset(Repeat(last, ringsPerColor))| == ringsPerColor;
      FullPegsSize(init, ringsPerColor);
      MulStep(|init|, ringsPerColor);
    }
  }

  /** In the solved state each selected colour occurs exactly ringsPerColor times, and no other colour occurs. */
  lemma SolvedBoardRings(selected: seq<Ring>, ringsPerColor: nat, cylinders: nat)
    requires |selected| <= cylinders && Distinct(selected)
    ensures forall x ::
      Rings(SolvedBoard(selected, ringsPerColor, cylinders))[x] == (if x in selected then ringsPerColor else 0)
    ensures |Rings(SolvedBoard(selected, ringsPerColor, cylinders))| == |selected| * ringsPerColor
  {
    var full, empty := FullPegs(selected, ringsPerColor), EmptyPegs(cylinders - |selected|);
    RingsAppend(full, empty);
    EmptyPegsRings(cylinders - |selected|);
    forall x ensures Rings(SolvedBoard(selected, ringsPerColor, cylinders))[x] == if x in selected then ringsPerColor else 0 {
      FullPegsRings(selected, ringsPerColor, x);
    }
    FullPegsSize(selected, ringsPerColor);
  }

  lemma {:induction false} MulMono(a: nat, b: nat, r: nat)
    requires a <= b
    ensures a * r <= b * r
    decreases b - a
  {
    if a < b {
      MulMono(a, b - 1, r);
      MulStep(b - 1, r);
    }
  }

  /**
   * A solved board of at least two colours and with at least two empty pegs
   * holds two pegs' worth of rings and has room for two more.
   */
  lemma SolvedBoardRoomy(selected: seq<Ring>, ringsPerColor: nat, cylinders: nat)
    requires Distinct(selected) && 2 <= |selected| && |selected| + 2 <= cylinders && ringsPerColor >= 1
    ensures RoomyBoard(SolvedBoard(selected, ringsPerColor, cylinders), ringsPerColor)
  {
    SolvedBoardRings(selected, ringsPerColor, cylinders);
    MulMono(2, |selected|, ringsPerColor);
    MulMono(|selected| + 2, cylinders, ringsPerColor);
    MulStep(|selected|, ringsPerColor);
    MulStep(|selected| + 1, ringsPerColor);
  }

  // ---------------------------------------------------------------------
  // The scramble

  /** The number of scramble steps: 25 + (ringsPerColor - 4) * 10 + floor(levelNum * 2.5). */
  function ScrambleMoves(levelNum: int, ringsPerColor: int): (n: int)
    ensures var levelFactor := n - 25 - (ringsPerColor - 4) * 10;
      2 * levelFactor <= 5 * levelNum < 2 * levelFactor + 2
  {
    25 + (ringsPerColor - 4) * 10 + (5 * levelNum) / 2
  }

  /** A move the scramble may pick: a ring off a non-empty peg onto another peg that is not full; colours are not compared. */
  predicate ScrambleStepOk(b: Pegs, ringsPerColor: int, from: int, to: int)
  {
    0 <= from < |b| && 0 <= to < |b| && from != to && b[from] != [] && |b[to]| < ringsPerColor
  }

  /**
   * A candidate of one scramble step: a scramble move whose source is not the
   * previous step's target, unless the reversal coin allowed it.
   */
  predicate IsCandidate(b: Pegs, ringsPerColor: int, lastTo: int, allowBack: bool, from: int, to: int)
  {
    ScrambleStepOk(b, ringsPerColor, from, to) && (from == lastTo ==> allowBack)
  }

  /** The scramble ignores the colour rule: it may put a ring on a different colour. */
  lemma ScrambleIgnoresColour()
    ensures var b: Pegs := [["red"], ["blue"]];
      IsCandidate(b, 4, -1, false, 0, 1) && !Engine.Legal(b, 4, Engine.MoveRecord(0, 1, "red"))
  {
  }

  /** The board reached by applying scramble `steps` to `b0`, or None if some step was not a scramble move. */
  function Scrambled(b0: Pegs, ringsPerColor: int, steps: seq<(nat, nat)>): Option<Pegs>
    decreases |steps|
  {
    if steps == [] then Some(b0)
    else
      var (from, to) := steps[|steps| - 1];
      match Scrambled(b0, ringsPerColor, steps[..|steps| - 1])
      case None => None
      case Some(b) => if ScrambleStepOk(b, ringsPerColor, from, to) then Some(Transfer(b, from, to)) else None
  }

  /** Any run of scramble moves keeps the peg count, every colour's ring count and the capacity bound. */
  lemma {:induction false} ScrambledPreserves(b0: Pegs, ringsPerColor: int, steps: seq<(nat, nat)>)
    requires Scrambled(b0, ringsPerColor, steps).Some?
    ensures |Scrambled(b0, ringsPerColor, steps).value| == |b0|
    ensures Rings(Scrambled(b0, ringsPerColor, steps).value) == Rings(b0)
    ensures WithinCapacity(b0, ringsPerColor) ==> WithinCapacity(Scrambled(b0, ringsPerColor, steps).value, ringsPerColor)
    decreases |steps|
  {
    if steps != [] {
      var (from, to) := steps[|steps| - 1];
      var init := steps[..|steps| - 1];
      ScrambledPreserves(b0, ringsPerColor, init);
      var b := Scrambled(b0, ringsPerColor, init).value;
      TransferConserves(b, from, to);
      if WithinCapacity(b0, ringsPerColor) {
        TransferWithinCapacity(b, from, to, ringsPerColor);
      }
    }
  }

  /** One round of the scramble loop: the reversal coin, and the move played if there was a candidate. */
  datatype Round = Played(coin: bool, from: nat, to: nat) | Skipped(coin: bool)

  ghost predicate NoCandidate(b: Pegs, ringsPerColor: int, lastTo: int, allowBack: bool)
  {
    forall f, t :: !IsCandidate(b, ringsPerColor, lastTo, allowBack, f, t)
  }

  /**
   * The board and the last target after the scramble `rounds` from `b0`, or
   * None if some round broke the loop's rules: a played move must be a
   * candidate for the board, the previous target and that round's coin, and a
   * round may pass only when it has no candidate.
   */
  ghost function RunRounds(b0: Pegs, ringsPerColor: int, rounds: seq<Round>): Option<(Pegs, int)>
    decreases |rounds|
  {
    if rounds == [] then Some((b0, -1))
    else
      match RunRounds(b0, ringsPerColor, rounds[..|rounds| - 1])
      case None => None
      case Some((b, lastTo)) =>
        match rounds[|rounds| - 1]
        case Played(coin, f, t) =>
          if IsCandidate(b, ringsPerColor, lastTo, coin, f, t) then Some((Transfer(b, f, t), t as int)) else None
        case Skipped(coin) =>
          if NoCandidate(b, ringsPerColor, lastTo, coin) then Some((b, lastTo)) else None
  }

  /** The moves of the rounds that played one, in order. */
  function PlayedSteps(rounds: seq<Round>): seq<(nat, nat)>
    decreases |rounds|
  {
    if rounds == [] then []
    else
      var r := rounds[|rounds| - 1];
      PlayedSteps(rounds[..|rounds| - 1]) + (if r.Played? then [(r.from, r.to)] else [])
  }

  // ---------------------------------------------------------------------
  // Why every scramble round on a level's board has a candidate

  /** The number of rings on the pegs other than peg `k` (on all pegs when `k` is no index). */
  function RingsExcept(b: Pegs, k: int): nat
    decreases |b|
  {
    if b == [] then 0
    else RingsExcept(b[..|b| - 1], k) + (if k == |b| - 1 then 0 else |b[|b| - 1]|)
  }

  /** The free places on the pegs other than peg `k` (on all pegs when `k` is no index). */
  function RoomExcept(b: Pegs, capacity: int, k: int): int
    decreases |b|
  {
    if b == [] then 0
    else RoomExcept(b[..|b| - 1], capacity, k) + (if k == |b| - 1 then 0 else capacity - |b[|b| - 1]|)
  }

  lemma {:induction false} RingsExceptTotal(b: Pegs)
    ensures RingsExcept(b, -1) == |Rings(b)|
    decreases |b|
  {
    if b != [] {
      RingsExceptTotal(b[..|b| - 1]);
    }
  }

  lemma {:induction false} ExceptNoIndex(b: Pegs, capacity: int, k: int)
    requires k < 0 || k >= |b|
    ensures RingsExcept(b, k) == RingsExcept(b, -1)
    ensures RoomExcept(b, capacity, k) == RoomExcept(b, capacity, -1)
    decreases |b|
  {
    if b != [] {
      ExceptNoIndex(b[..|b| - 1], capacity, k);
    }
  }

  /** Leaving out peg `k` leaves out exactly its rings and its room. */
  lemma {:induction false} ExceptSplit(b: Pegs, capacity: int, k: int)
    requires 0 <= k < |b|
    ensures RingsExcept(b, -1) == RingsExcept(b, k) + |b[k]|
    ensures RoomExcept(b, capacity, -1) == RoomExcept(b, capacity, k) + capacity - |b[k]|
    decreases |b|
  {
    var init := b[..|b| - 1];
    if k < |b| - 1 {
      ExceptSplit(init, capacity, k);
    } else {
      ExceptNoIndex(init, capacity, k);
    }
  }

  /** The rings and the free places on all pegs add up to capacity * |b|. */
  lemma {:induction false} RoomTotal(b: Pegs, capacity: int)
    ensures RoomExcept(b, capacity, -1) + RingsExcept(b, -1) == |b| * capacity
    decreases |b|
  {
    if b != [] {
      RoomTotal(b[..|b| - 1], capacity);
      MulStep(|b| - 1, capacity);
    }
  }

  lemma {:induction false} NonEmptyOtherThan(b: Pegs, k: int)
    requires RingsExcept(b, k) > 0
    ensures exists i :: 0 <= i < |b| && i != k && b[i] != []
    decreases |b|
  {
    var n := |b| - 1;
    if k != n && b[n] != [] {
      assert 0 <= n < |b| && n != k && b[n] != [];
    } else {
      NonEmptyOtherThan(b[..n], k);
      var i :| 0 <= i < n && i != k && b[..n][i] != [];
      assert 0 <= i < |b| && i != k && b[i] != [];
    }
  }

  lemma {:induction false} RoomOtherThan(b: Pegs, capacity: int, k: int)
    requires RoomExcept(b, capacity, k) > 0
    ensures exists i :: 0 <= i < |b| && i != k && |b[i]| < capacity
    decreases |b|
  {
    var n := |b| - 1;
    if k != n && |b[n]| < capacity {
      assert 0 <= n < |b| && n != k && |b[n]| < capacity;
    } else {
      RoomOtherThan(b[..n], capacity, k);
      var i :| 0 <= i < n && i != k && |b[..n][i]| < capacity;
      assert 0 <= i < |b| && i != k && |b[i]| < capacity;
    }
  }

  /** A board within capacity holding at least two pegs' worth of rings and with room for two more pegs' worth. */
  predicate RoomyBoard(b: Pegs, capacity: int)
  {
    && capacity >= 1 && WithinCapacity(b, capacity)
    && 2 * capacity <= |Rings(b)|
    && |Rings(b)| + 2 * capacity <= |b| * capacity
  }

  /**
   * On such a board every scramble round has a candidate, whatever the last
   * target and the coin: some non-empty peg other than the last target, and
   * some peg other than it with room.
   */
  lemma CandidateExists(b: Pegs, capacity: int, lastTo: int, allowBack: bool)
    requires RoomyBoard(b, capacity)
    ensures exists f, t :: IsCandidate(b, capacity, lastTo, allowBack, f, t)
  {
    RingsExceptTotal(b);
    RoomTotal(b, capacity);
    assert b != [];
    var k := if 0 <= lastTo < |b| then lastTo else 0;
    ExceptSplit(b, capacity, k);
    NonEmptyOtherThan(b, k);
    var f :| 0 <= f < |b| && f != k && b[f] != [];
    ExceptSplit(b, capacity, f);
    RoomOtherThan(b, capacity, f);
    var t :| 0 <= t < |b| && t != f && |b[t]| < capacity;
    assert IsCandidate(b, capacity, lastTo, allowBack, f, t);
  }

  /** The inner loops of one scramble step: every candidate move, and nothing else. */
  method ScrambleCandidates(state: Pegs, ringsPerColor: int, lastTo: int, allowBack: bool)
    returns (moves: seq<(nat, nat)>)
    ensures forall k :: 0 <= k < |moves| ==> IsCandidate(state, ringsPerColor, lastTo, allowBack, moves[k].0, moves[k].1)
    ensures forall f, t :: IsCandidate(state, ringsPerColor, lastTo, allowBack, f, t) ==> (f, t) in moves
  {
    moves := [];
    for from := 0 to |state|
      invariant forall k :: 0 <= k < |moves| ==> IsCandidate(state, ringsPerColor, lastTo, allowBack, moves[k].0, moves[k].1)
      invariant forall f, t :: f < from && IsCandidate(state, ringsPerColor, lastTo, allowBack, f, t) ==> (f, t) in moves
    {
      if state[from] == [] {
        continue;
      }
      if from == lastTo && !allowBack {
        continue;
      }
      for to := 0 to |state|
        invariant forall k :: 0 <= k < |moves| ==> IsCandidate(state, ringsPerColor, lastTo, allowBack, moves[k].0, moves[k].1)
        invariant forall f, t :: f < from && IsCandidate(state, ringsPerColor, lastTo, allowBack, f, t) ==> (f, t) in moves
        invariant forall t :: t < to && IsCandidate(state, ringsPerColor, lastTo, allowBack, from, t) ==> (from, t) in moves
      {
        if from == to {
          continue;
        }
        if |state[to]| >= ringsPerColor {
          continue;
        }
        moves := moves + [(from, to)];
      }
    }
  }

  // ---------------------------------------------------------------------
  // generateLevel

  /** The par of a level: max(5, ceil(actualMoves / 2)). */
  function ParMoves(actualMoves: nat): (par: nat)
    ensures par >= 5 && 2 * par >= actualMoves
    ensures par == 5 || 2 * par <= actualMoves + 1
  {
    if (actualMoves + 1) / 2 >= 5 then (actualMoves + 1) / 2 else 5
  }

  /** What generateLevel returns. */
  datatype Level = Level(levelNum: int, config: Config, cylinders: Pegs, selectedColors: seq<Ring>, minMoves: int)

  /** What every generated level satisfies, whatever the dice did. */
  ghost predicate WellFormedLevel(level: Level)
  {
    && WellFormedRow(level.config)
    && |level.selectedColors| == level.config.colors && Distinct(level.selectedColors)
    && |level.cylinders| == level.config.cylinders
    && WithinCapacity(level.cylinders, level.config.ringsPerColor)
    && (forall x :: Rings(level.cylinders)[x] == if x in level.selectedColors then level.config.ringsPerColor else 0)
    && |Rings(level.cylinders)| == level.config.colors * level.config.ringsPerColor
    && level.minMoves >= 5
  }

  /** generateLevel's first loops: the solved state, built peg by peg and ring by ring. */
  method BuildSolvedState(selectedColors: seq<Ring>, ringsPerColor: nat, cylinders: nat) returns (state: Pegs)
    requires |selectedColors| <= cylinders
    ensures state == SolvedBoard(selectedColors, ringsPerColor, cylinders)
  {
    state := [];
    for i := 0 to |selectedColors|
      invariant state == FullPegs(selectedColors[..i], ringsPerColor)
    {
      var cylinder: Peg := [];
      for r := 0 to ringsPerColor
        invariant cylinder == Repeat(selectedColors[i], r)
      {
        cylinder := cylinder + [selectedColors[i]];
      }
      assert selectedColors[..i + 1][..i] == selectedColors[..i];
      state := state + [cylinder];
    }
    assert selectedColors[..|selectedColors|] == selectedColors;
    for i := 0 to cylinders - |selectedColors|
      invariant state == FullPegs(selectedColors, ringsPerColor) + EmptyPegs(i)
    {
      state := state + [[]];
    }
  }

  /**
   * generateLevel's scramble loop: `scrambleMoves` rounds, each of which
   * tosses the reversal coin, collects the candidates and, if there are any,
   * plays one of them. `rounds` records every round, `steps` the moves played.
   * On a board with enough rings and room every round plays a move.
   */
  method Scramble(solved: Pegs, ringsPerColor: nat, scrambleMoves: int)
    returns (state: Pegs, actualMoves: nat, ghost steps: seq<(nat, nat)>, ghost rounds: seq<Round>)
    ensures |rounds| == if scrambleMoves < 0 then 0 else scrambleMoves
    ensures RunRounds(solved, ringsPerColor, rounds).Some? && RunRounds(solved, ringsPerColor, rounds).value.0 == state
    ensures PlayedSteps(rounds) == steps
    ensures Scrambled(solved, ringsPerColor, steps) == Some(state)
    ensures actualMoves == |steps| <= |rounds|
    ensures RoomyBoard(solved, ringsPerColor) ==> actualMoves == |rounds|
    ensures |state| == |solved| && Rings(state) == Rings(solved)
    ensures WithinCapacity(solved, ringsPerColor) ==> WithinCapacity(state, ringsPerColor)
  {
    state := solved;
    var lastFrom: int, lastTo: int := -1, -1;
    actualMoves := 0;
    steps, rounds := [], [];
    for i := 0 to if scrambleMoves < 0 then 0 else scrambleMoves
      invariant |rounds| == i
      invariant RunRounds(solved, ringsPerColor, rounds) == Some((state, lastTo))
      invariant PlayedSteps(rounds) == steps
      invariant actualMoves == |steps| <= i
      invariant Scrambled(solved, ringsPerColor, steps) == Some(state)
      invariant RoomyBoard(solved, ringsPerColor) ==> actualMoves == i
    {
      var allowBack: bool :| true;
      var moves := ScrambleCandidates(state, ringsPerColor, lastTo, allowBack);
      if RoomyBoard(solved, ringsPerColor) {
        ScrambledPreserves(solved, ringsPerColor, steps);
        CandidateExists(state, ringsPerColor, lastTo, allowBack);
      }
      assert (rounds + [Skipped(allowBack)])[..|rounds|] == rounds;
      if |moves| > 0 {
        var pick :| 0 <= pick < |moves|;
        var (from, to) := moves[pick];
        assert IsCandidate(state, ringsPerColor, lastTo, allowBack, from, to);
        ghost var before := state;
        var ring := state[from][|state[from]| - 1];
        var popped := state[from := state[from][..|state[from]| - 1]];
        state := popped[to := popped[to] + [ring]];
        assert state == Transfer(before, from, to);
        lastFrom, lastTo := from, to;
        actualMoves := actualMoves + 1;
        assert (steps + [(from, to)])[..|steps|] == steps;
        assert (rounds + [Played(allowBack, from, to)])[..|rounds|] == rounds;
        steps := steps + [(from, to)];
        rounds := rounds + [Played(allowBack, from, to)];
      } else {
        rounds := rounds + [Skipped(allowBack)];
      }
    }
    ScrambledPreserves(solved, ringsPerColor, steps);
  }

  /**
   * generateLevel: build the solved board, scramble it with
   * ScrambleMoves(levelNum, ringsPerColor) scramble rounds, and set the par
   * from the number of moves actually played. On every level of the table
   * each round plays a move, so the par follows from the level alone.
   */
  method GenerateLevel(levelNum: int, shuffled: seq<Ring>) returns (level: Level, ghost steps: seq<(nat, nat)>, ghost rounds: seq<Round>)
    requires levelNum >= 1 && IsShuffleOfKeys(shuffled)
    ensures level.levelNum == levelNum && level.config == GetConfig(levelNum)
    ensures level.selectedColors == SelectColors(level.config.colors, shuffled)
    ensures WellFormedLevel(level)
    ensures var solved := SolvedBoard(level.selectedColors, level.config.ringsPerColor, level.config.cylinders);
      && RunRounds(solved, level.config.ringsPerColor, rounds).Some?
      && RunRounds(solved, level.config.ringsPerColor, rounds).value.0 == level.cylinders
      && PlayedSteps(rounds) == steps
      && Scrambled(solved, level.config.ringsPerColor, steps) == Some(level.cylinders)
    ensures |rounds| == |steps| == ScrambleMoves(levelNum, level.config.ringsPerColor)
    ensures level.minMoves == ParMoves(ScrambleMoves(levelNum, level.config.ringsPerColor))
  {
    var config := GetConfig(levelNum);
    var selectedColors := SelectColors(config.colors, shuffled);
    SelectedColorsDistinct(config.colors, shuffled);
    var solved := BuildSolvedState(selectedColors, config.ringsPerColor, config.cylinders);
    SolvedBoardRoomy(selectedColors, config.ringsPerColor, config.cylinders);
    var state, actualMoves;
    state, actualMoves, steps, rounds := Scramble(solved, config.ringsPerColor, ScrambleMoves(levelNum, config.ringsPerColor));
    SolvedBoardRings(selectedColors, config.ringsPerColor, config.cylinders);
    level := Level(levelNum, config, state, selectedColors, ParMoves(actualMoves));
  }

  /**
   * The level description a generated level hands to loadLevel: its board,
   * par and settings, with no locked pegs read as an absent list.
   */
  function ToLevelData(level: Level): (d: Engine.LevelData)
    ensures d.cylinders == Some(level.cylinders) && d.minMoves == Some(level.minMoves)
    ensures d.config.ringsPerColor == Some(level.config.ringsPerColor as int) && d.config.mystery == level.config.mystery
    ensures (if d.config.locked.Some? then d.config.locked.value else []) == level.config.locked
  {
    Engine.LevelData(
      Some(level.cylinders),
      Some(level.minMoves),
      Engine.LoadConfig(Some(level.config.ringsPerColor), level.config.mystery,
                        if level.config.locked == [] then None else Some(level.config.locked)))
  }

  /**
   * Loading a generated level: none of loadLevel's fallbacks fires, the
   * capacity is the level's ringsPerColor, and the loaded game starts within
   * capacity with colors * ringsPerColor rings.
   */
  lemma LoadGeneratedLevel(s: Engine.Snapshot, level: Level)
    requires WellFormedLevel(level)
    ensures var t := Engine.Load(s, Some(ToLevelData(level)));
      && Engine.Consistent(t, level.cylinders)
      && t.cylinders == level.cylinders
      && t.minMoves == level.minMoves
      && t.capacity == level.config.ringsPerColor
      && WithinCapacity(t.cylinders, t.capacity)
      && |Rings(t.cylinders)| == level.config.colors * t.capacity
      && t.lockedPoles == level.config.locked
      && (forall i :: 0 <= i < |t.lockedPoles| ==> 0 <= t.lockedPoles[i] < |t.cylinders|)
  {
  }
}
