/**
 * Pegs and boards, shared by the move engine (game.js) and the level
 * generator (levels.js). A ring is its colour key; a peg lists its rings
 * bottom first, so the top ring is the last element.
 */
module Board {

  type Ring = string
  type Peg = seq<Ring>
  type Pegs = seq<Peg>

  function Top(p: Peg): Ring
    requires p != []
  {
    p[|p| - 1]
  }

  /** Array.prototype.pop: drops the last ring; an empty peg stays empty. */
  function Pop(p: Peg): (r: Peg)
    ensures p != [] ==> r + [Top(p)] == p
    ensures p == [] ==> r == []
  {
    if p == [] then [] else p[..|p| - 1]
  }

  /** Every ring on the peg has the colour of its bottom ring. */
  predicate SingleColoured(p: Peg)
  {
    forall i :: 0 <= i < |p| ==> p[i] == p[0]
  }

  /**
   * A peg is finished when it is full and holds one colour: it is exactly
   * `capacity` copies of its bottom ring.
   */
  predicate IsPegComplete(p: Peg, capacity: int): (r: bool)
    ensures r <==> |p| == capacity && (p == [] || p == seq(|p|, _ => p[0]))
  {
    |p| == capacity && SingleColoured(p)
  }

  /**
   * The level is finished when every peg is empty or finished; then every
   * peg holds no ring or `capacity` rings, and (for a non-negative capacity)
   * the board is within capacity.
   */
  predicate IsLevelComplete(b: Pegs, capacity: int): (r: bool)
    ensures r && capacity >= 0 ==> WithinCapacity(b, capacity)
    ensures r ==> forall i :: 0 <= i < |b| ==> |b[i]| == 0 || |b[i]| == capacity
  {
    forall i :: 0 <= i < |b| ==> b[i] == [] || IsPegComplete(b[i], capacity)
  }

  predicate WithinCapacity(b: Pegs, capacity: int)
  {
    forall i :: 0 <= i < |b| ==> |b[i]| <= capacity
  }

  /** All rings on the board, as a multiset of colours; |Rings(b)| is the ring count. */
  function Rings(b: Pegs): multiset<Ring>
  {
    if b == [] then multiset{} else Rings(b[..|b| - 1]) + multiset(b[|b| - 1])
  }

  /** Takes the top ring of peg `from` and puts it on peg `to`. */
  function Transfer(b: Pegs, from: nat, to: nat): (r: Pegs)
    requires from < |b| && to < |b| && from != to && b[from] != []
    ensures |r| == |b|
    ensures r[from] + [Top(b[from])] == b[from]
    ensures r[to] == b[to] + [Top(b[from])]
    ensures forall i :: 0 <= i < |b| && i != from && i != to ==> r[i] == b[i]
  {
    b[from := Pop(b[from])][to := b[to] + [Top(b[from])]]
  }

  lemma {:induction false} RingsAppend(b: Pegs, c: Pegs)
    ensures Rings(b + c) == Rings(b) + Rings(c)
    decreases |c|
  {
    if c == [] {
      assert b + c == b;
    } else {
      var c' := c[..|c| - 1];
      assert (b + c)[..|b + c| - 1] == b + c';
      RingsAppend(b, c');
      assert c[..|c| - 1] == c';
    }
  }

  /** Replacing one peg changes the ring multiset by exactly that peg's rings. */
  lemma {:induction false} RingsUpdate(b: Pegs, i: nat, p: Peg)
    requires i < |b|
    ensures Rings(b[i := p]) + multiset(b[i]) == Rings(b) + multiset(p)
  {
    var before, after := b[..i], b[i + 1..];
    assert b == before + [b[i]] + after;
    assert b[i := p] == before + [p] + after;
    RingsAppend(before + [b[i]], after);
    RingsAppend(before + [p], after);
    assert (before + [b[i]])[..i] == before;
    assert (before + [p])[..i] == before;
  }

  lemma Cancel<T>(x: multiset<T>, y: multiset<T>, z: multiset<T>)
    requires x + z == y + z
    ensures x == y
  {
    forall e ensures x[e] == y[e] {
      assert (x + z)[e] == (y + z)[e];
    }
  }

  /** Popping a peg removes exactly its top ring from the board. */
  lemma RingsPop(b: Pegs, i: nat)
    requires i < |b| && b[i] != []
    ensures Rings(b[i := Pop(b[i])]) + multiset{Top(b[i])} == Rings(b)
  {
    var rest := Pop(b[i]);
    assert multiset(b[i]) == multiset(rest) + multiset{Top(b[i])} by {
      assert b[i] == rest + [Top(b[i])];
    }
    RingsUpdate(b, i, rest);
    Cancel(Rings(b[i := rest]) + multiset{Top(b[i])}, Rings(b), multiset(rest));
  }

  /** Pushing a ring on a peg adds exactly that ring to the board. */
  lemma RingsPush(b: Pegs, i: nat, x: Ring)
    requires i < |b|
    ensures Rings(b[i := b[i] + [x]]) == Rings(b) + multiset{x}
  {
    RingsUpdate(b, i, b[i] + [x]);
    assert multiset(b[i] + [x]) == multiset(b[i]) + multiset{x};
    Cancel(Rings(b[i := b[i] + [x]]), Rings(b) + multiset{x}, multiset(b[i]));
  }

  /** A transfer neither creates nor destroys rings, of any colour. */
  lemma TransferConserves(b: Pegs, from: nat, to: nat)
    requires from < |b| && to < |b| && from != to && b[from] != []
    ensures Rings(Transfer(b, from, to)) == Rings(b)
    ensures |Rings(Transfer(b, from, to))| == |Rings(b)|
  {
    var b1 := b[from := Pop(b[from])];
    RingsPop(b, from);
    RingsPush(b1, to, Top(b[from]));
    assert b1[to := b1[to] + [Top(b[from])]] == Transfer(b, from, to);
  }

  /** A transfer onto a peg with room keeps every peg within capacity. */
  lemma TransferWithinCapacity(b: Pegs, from: nat, to: nat, capacity: int)
    requires from < |b| && to < |b| && from != to && b[from] != []
    requires WithinCapacity(b, capacity) && |b[to]| < capacity
    ensures WithinCapacity(Transfer(b, from, to), capacity)
  {
  }
}
