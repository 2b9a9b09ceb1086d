/**
 * The drag-and-drop arithmetic puzzle: nine pieces, each with a fixed correct
 * slot and a current slot, shuffled with Fisher-Yates, rearranged by swapping
 * two pieces on a drop, with a one-second tick counter and a best time that
 * only ever improves.
 *
 * Pieces are referred to by their index `p` in the piece table (the piece with id `p + 1`).
 */
module Puzzle {
  import opened Wrappers

  datatype Piece = Piece(id: nat, value: string, position: nat)

  /** The faces of the puzzle "3 + 4 × 5 - 2 = 21", in their correct order. */
  const Faces: seq<string> := ["3", "+", "4", "×", "5", "-", "2", "=", "21"]

  /** Entry `p` of the piece table: id `p + 1`, face `Faces[p]`, correct slot `p`. */
  function PieceAt(p: nat): (piece: Piece)
    requires p < PieceCount
    ensures piece.id == p + 1 && piece.position == p
  {
    Piece(p + 1, Faces[p], p)
  }

  const PieceCount: nat := 9

  /** Piece `p` sits in its correct slot. */
  predicate InPlace(current: seq<nat>, p: nat)
    requires p < |current| && p < PieceCount
  {
    current[p] == PieceAt(p).position
  }

  // ---------------------------------------------------------------- shuffle

  /**
   * The draws of `Math.floor(Math.random() * (i + 1))`: the draw used at step
   * `i` lies in `0..i`.
   */
  predicate ValidDraws(draws: seq<nat>, n: nat) {
    |draws| == n && forall i :: 0 < i < n ==> draws[i] <= i
  }

  /** `s` with the elements at `i` and `j` exchanged. */
  function SwapAt<T>(s: seq<T>, i: nat, j: nat): (r: seq<T>)
    requires i < |s| && j < |s|
    ensures |r| == |s| && r[i] == s[j] && r[j] == s[i]
    ensures forall k :: 0 <= k < |s| && k != i && k != j ==> r[k] == s[k]
  {
    s[i := s[j]][j := s[i]]
  }

  /** The Fisher-Yates steps `i`, `i - 1`, ..., `1` applied to `s`. */
  function ShuffleDown<T>(s: seq<T>, draws: seq<nat>, i: nat): seq<T>
    requires i < |s| && ValidDraws(draws, |s|)
    decreases i
  {
    if i == 0 then s else ShuffleDown(SwapAt(s, i, draws[i]), draws, i - 1)
  }

  /** The order `shuffleArray` leaves `s` in, for the given draws. */
  function Shuffled<T>(s: seq<T>, draws: seq<nat>): seq<T>
    requires ValidDraws(draws, |s|)
  {
    if |s| == 0 then s else ShuffleDown(s, draws, |s| - 1)
  }

  predicate Distinct<T(==)>(s: seq<T>) {
    forall i, j :: 0 <= i < j < |s| ==> s[i] != s[j]
  }

  lemma {:induction false} ShuffleDownPermutes<T>(s: seq<T>, draws: seq<nat>, i: nat)
    requires i < |s| && ValidDraws(draws, |s|)
    ensures |ShuffleDown(s, draws, i)| == |s|
    ensures multiset(ShuffleDown(s, draws, i)) == multiset(s)
    ensures Distinct(s) ==> Distinct(ShuffleDown(s, draws, i))
    decreases i
  {
    if i > 0 {
      var t := SwapAt(s, i, draws[i]);
      assert multiset(t) == multiset(s) by {
        assert t == s[i := s[draws[i]]][draws[i] := s[i]];
      }
      if Distinct(s) {
        forall a, b | 0 <= a < b < |t| ensures t[a] != t[b] {
          var a' := if a == i then draws[i] else if a == draws[i] then i else a;
          var b' := if b == i then draws[i] else if b == draws[i] then i else b;
          assert t[a] == s[a'] && t[b] == s[b'] && a' != b';
        }
      }
      ShuffleDownPermutes(t, draws, i - 1);
    }
  }

  /** Shuffling only reorders: the result holds the same elements, and distinct ones stay distinct. */
  lemma ShuffledIsPermutation<T>(s: seq<T>, draws: seq<nat>)
    requires ValidDraws(draws, |s|)
    ensures |Shuffled(s, draws)| == |s|
    ensures multiset(Shuffled(s, draws)) == multiset(s)
    ensures Distinct(s) ==> Distinct(Shuffled(s, draws))
  {
    if |s| > 0 {
      ShuffleDownPermutes(s, draws, |s| - 1);
    }
  }

  /** `shuffleArray`: Fisher-Yates in place, swapping `a[i]` with `a[draws[i]]` for `i` from the top down to 1. */
  method ShuffleArray<T>(a: array<T>, draws: seq<nat>)
    requires ValidDraws(draws, a.Length)
    modifies a
    ensures a[..] == Shuffled(old(a[..]), draws)
    ensures multiset(a[..]) == multiset(old(a[..]))
  {
    var i := a.Length - 1;
    while i > 0
      invariant a.Length == 0 ==> i == -1
      invariant a.Length > 0 ==> 0 <= i < a.Length && Shuffled(old(a[..]), draws) == ShuffleDown(a[..], draws, i)
    {
      var j := draws[i];
      ghost var before := a[..];
      a[i], a[j] := a[j], a[i];
      assert a[..] == SwapAt(before, i, j);
      i := i - 1;
    }
    assert a.Length == 0 ==> a[..] == old(a[..]);
    ShuffledIsPermutation(old(a[..]), draws);
  }

  // ---------------------------------------------------------------- board

  /**
   * `board` lists the pieces in board order and `current` gives each piece's
   * current slot; each is the other's inverse, so the slots are a permutation
   * of `0..PieceCount-1` and the board is in ascending slot order.
   */
  predicate IsArrangement(board: seq<nat>, current: seq<nat>) {
    |board| == PieceCount && |current| == PieceCount
    && (forall k :: 0 <= k < |board| ==> board[k] < PieceCount && current[board[k]] == k)
    && (forall p :: 0 <= p < |current| ==> current[p] < PieceCount && board[current[p]] == p)
  }

  /** The current slots are a permutation of `0..PieceCount-1`. */
  predicate IsSlotPermutation(current: seq<nat>) {
    |current| == PieceCount
    && (forall p :: 0 <= p < |current| ==> current[p] < PieceCount)
    && Distinct(current)
  }

  lemma ArrangementIsPermutation(board: seq<nat>, current: seq<nat>)
    requires IsArrangement(board, current)
    ensures IsSlotPermutation(current)
    ensures forall i, j :: 0 <= i < j < |board| ==> current[board[i]] < current[board[j]]
    ensures Distinct(board)
  {
    forall p, q | 0 <= p < q < |current| ensures current[p] != current[q] {
      assert board[current[p]] == p && board[current[q]] == q;
    }
  }

  /** The slots after `swapElements(p, q)`: the two pieces trade slots. */
  function SwapSlots(current: seq<nat>, p: nat, q: nat): (r: seq<nat>)
    requires p < |current| && q < |current|
    ensures |r| == |current| && r[p] == current[q] && r[q] == current[p]
    ensures forall o :: 0 <= o < |current| && o != p && o != q ==> r[o] == current[o]
  {
    current[p := current[q]][q := current[p]]
  }

  /**
   * The board after the pieces are re-appended in ascending slot order: the
   * two swapped pieces trade places and nothing else moves.
   */
  function Resorted(board: seq<nat>, current: seq<nat>, p: nat, q: nat): seq<nat>
    requires IsArrangement(board, current) && p < PieceCount && q < PieceCount
  {
    board[current[q] := p][current[p] := q]
  }

  /** Swapping two pieces and re-sorting keeps board and slots inverse to each other. */
  lemma SwapKeepsArrangement(board: seq<nat>, current: seq<nat>, p: nat, q: nat)
    requires IsArrangement(board, current) && p < PieceCount && q < PieceCount
    ensures IsArrangement(Resorted(board, current, p, q), SwapSlots(current, p, q))
    ensures multiset(Resorted(board, current, p, q)) == multiset(board)
  {
    var b := Resorted(board, current, p, q);
    if p != q {
      assert b == SwapAt(board, current[q], current[p]);
      assert multiset(b) == multiset(board) by {
        assert b == board[current[q] := board[current[p]]][current[p] := board[current[q]]];
      }
    } else {
      assert b == board;
    }
  }

  /** How many of the pieces listed in `order` sit in their correct slot. */
  function CountInPlace(order: seq<nat>, current: seq<nat>): (n: nat)
    ensures n <= |order|
  {
    if order == [] then 0
    else
      var p := order[|order| - 1];
      CountInPlace(order[..|order| - 1], current)
      + (if p < |current| && p < PieceCount && InPlace(current, p) then 1 else 0)
  }

  /** Every listed piece is counted exactly when the count reaches the length of the list. */
  lemma {:induction false} CountInPlaceFull(order: seq<nat>, current: seq<nat>)
    requires forall k :: 0 <= k < |order| ==> order[k] < |current| && order[k] < PieceCount
    ensures CountInPlace(order, current) == |order| <==> forall k :: 0 <= k < |order| ==> InPlace(current, order[k])
  {
    if order != [] {
      var init := order[..|order| - 1];
      CountInPlaceFull(init, current);
      assert forall k :: 0 <= k < |init| ==> init[k] == order[k];
    }
  }

  /** The count over the board reaches `PieceCount` exactly when every piece is in place. */
  lemma SolvedIffAllInPlace(board: seq<nat>, current: seq<nat>)
    requires IsArrangement(board, current)
    ensures CountInPlace(board, current) == PieceCount <==> forall p :: 0 <= p < PieceCount ==> InPlace(current, p)
  {
    CountInPlaceFull(board, current);
    if CountInPlace(board, current) == PieceCount {
      forall p | 0 <= p < PieceCount ensures InPlace(current, p) {
        assert board[current[p]] == p;
      }
    }
  }

  /** The best time after finishing in `time` seconds, given the recorded one. */
  function Improved(best: Option<nat>, time: nat): (r: Option<nat>)
    ensures r.Some? && r.value <= time
    ensures best.Some? ==> r.value <= best.value
    ensures r.value == time || r == best
    ensures r != best <==> best.None? || time < best.value
  {
    if best.None? || time < best.value then Some(time) else best
  }

  /** The identity order `0, 1, ..., n-1` of the piece table. */
  function Identity(n: nat): (s: seq<nat>)
    ensures |s| == n && forall k :: 0 <= k < n ==> s[k] == k
  {
    seq(n, k requires 0 <= k < n => k)
  }

  /** The shuffled copy of the piece indices lists every piece exactly once. */
  lemma ShuffledLayout(draws: seq<nat>)
    requires ValidDraws(draws, PieceCount)
    ensures var b := Shuffled<nat>(Identity(PieceCount), draws);
      |b| == PieceCount && Distinct(b)
      && (forall k :: 0 <= k < |b| ==> b[k] < PieceCount)
      && (forall p :: 0 <= p < PieceCount ==> p in b)
  {
    var id := Identity(PieceCount);
    var b := Shuffled<nat>(id, draws);
    assert Distinct(id);
    ShuffledIsPermutation<nat>(id, draws);
    forall k | 0 <= k < |b| ensures b[k] < PieceCount {
      assert b[k] in multiset(b);
      assert b[k] in multiset(id);
    }
    forall p | 0 <= p < PieceCount ensures p in b {
      assert id[p] == p;
      assert p in multiset(id);
    }
  }

  /** Slots written as the index of each piece in a full, duplicate-free board order are its inverse. */
  lemma InverseIsArrangement(b: seq<nat>, cur: seq<nat>)
    requires |b| == PieceCount && |cur| == PieceCount
    requires forall k :: 0 <= k < |b| ==> b[k] < PieceCount && cur[b[k]] == k
    requires forall p :: 0 <= p < PieceCount ==> p in b
    ensures IsArrangement(b, cur)
  {
    forall p | 0 <= p < PieceCount ensures cur[p] < PieceCount && b[cur[p]] == p {
      assert p in b;
      var j :| 0 <= j < |b| && b[j] == p;
    }
  }

  /** The `forEach` of `initPuzzle`: the piece at board index `k` gets slot `k`. */
  method LayOut(b: seq<nat>) returns (cur: seq<nat>)
    requires |b| == PieceCount && Distinct(b)
    requires forall k :: 0 <= k < |b| ==> b[k] < PieceCount
    requires forall p :: 0 <= p < PieceCount ==> p in b
    ensures IsArrangement(b, cur)
  {
    cur := seq(PieceCount, _ => 0);
    var k := 0;
    while k < PieceCount
      invariant 0 <= k <= PieceCount && |cur| == PieceCount
      invariant forall j :: 0 <= j < k ==> cur[b[j]] == j
      invariant forall p :: 0 <= p < PieceCount ==> cur[p] < PieceCount
    {
      cur := cur[b[k] := k];
      k := k + 1;
    }
    InverseIsArrangement(b, cur);
  }

  /**
   * The board of `initPuzzle`: a shuffled copy of the pieces, each given the
   * board index it lands on as its current slot.
   */
  method ShuffledBoard(draws: seq<nat>) returns (b: seq<nat>, cur: seq<nat>)
    requires ValidDraws(draws, PieceCount)
    ensures IsArrangement(b, cur)
    ensures b == Shuffled<nat>(Identity(PieceCount), draws)
  {
    var order := new nat[PieceCount](k => k);
    assert order[..] == Identity(PieceCount);
    ShuffleArray(order, draws);
    b := order[..];
    ShuffledLayout(draws);
    cur := LayOut(b);
  }

  /**
   * One round of the loop of `checkAllPieces`: the piece at board index `k`
   * gets its `correct` mark set or cleared, and the count goes up when it is
   * in place.
   */
  method MarkAt(b: seq<nat>, cur: seq<nat>, m: seq<bool>, count: nat, k: nat) returns (m': seq<bool>, count': nat)
    requires IsArrangement(b, cur) && |m| == PieceCount && k < |b|
    requires forall q :: 0 <= q < PieceCount && cur[q] < k ==> m[q] == InPlace(cur, q)
    requires count == CountInPlace(b[..k], cur)
    ensures |m'| == PieceCount
    ensures forall q :: 0 <= q < PieceCount && cur[q] < k + 1 ==> m'[q] == InPlace(cur, q)
    ensures count' == CountInPlace(b[..k + 1], cur)
  {
    var p := b[k];
    assert b[..k + 1][..k] == b[..k];
    if cur[p] == PieceAt(p).position {
      m', count' := m[p := true], count + 1;
    } else {
      m', count' := m[p := false], count;
    }
    forall q | 0 <= q < PieceCount && cur[q] < k + 1 ensures m'[q] == InPlace(cur, q) {
      assert b[cur[q]] == q;
    }
  }

  /**
   * The loop of `checkAllPieces`: walks the board, marks each piece in place
   * or not, and counts the pieces it marks.
   */
  method MarkPieces(b: seq<nat>, cur: seq<nat>) returns (m: seq<bool>, count: nat)
    requires IsArrangement(b, cur)
    ensures |m| == PieceCount
    ensures forall p :: 0 <= p < PieceCount ==> m[p] == InPlace(cur, p)
    ensures count == CountInPlace(b, cur)
  {
    m := seq(PieceCount, _ => false);
    count := 0;
    var k := 0;
    while k < |b|
      invariant 0 <= k <= |b| && |m| == PieceCount
      invariant count == CountInPlace(b[..k], cur)
      invariant forall p :: 0 <= p < PieceCount && cur[p] < k ==> m[p] == InPlace(cur, p)
    {
      m, count := MarkAt(b, cur, m, count, k);
      k := k + 1;
    }
    assert b[..k] == b;
  }

  /** What a drag or drop event lands on. */
  datatype Target = PieceElement(piece: nat) | OtherElement

  /**
   * The page-wide game state. `board` is the order of the piece elements on
   * the board, `current[p]` and `marked[p]` are piece `p`'s
   * `data-current-position` attribute and its `correct` class, and `dragged`
   * is the piece whose drag is in progress.
   */
  class Game {
    var board: seq<nat>
    var current: seq<nat>
    var marked: seq<bool>
    var seconds: nat
    var solved: nat
    var active: bool
    var best: Option<nat>
    var dragged: Option<nat>

    ghost predicate Arranged()
      reads this
    {
      IsArrangement(board, current)
    }

    /** The state between two events: marks and count agree with the slots, and a drag never holds a locked piece. */
    ghost predicate Valid()
      reads this
    {
      Arranged()
      && |marked| == PieceCount
      && (forall p :: 0 <= p < PieceCount ==> marked[p] == InPlace(current, p))
      && solved == CountInPlace(board, current)
      && (dragged.Some? ==> dragged.value < PieceCount && !marked[dragged.value])
    }

    /** Page load: read the stored best time, then `initPuzzle`. */
    constructor (stored: Option<nat>, draws: seq<nat>)
      requires ValidDraws(draws, PieceCount)
      ensures Valid() && active && seconds == 0 && best == stored && dragged == None
      ensures board == Shuffled<nat>(Identity(PieceCount), draws)
    {
      board := [];
      current := [];
      marked := [];
      seconds := 0;
      solved := 0;
      active := false;
      best := stored;
      dragged := None;
      new;
      InitPuzzle(draws);
    }

    /**
     * `initPuzzle` (also the reset button): clear the counters, lay out a
     * shuffled copy of the pieces with slots `0..8` in board order, mark the
     * pieces already in place and start the clock.
     */
    method InitPuzzle(draws: seq<nat>)
      requires ValidDraws(draws, PieceCount)
      modifies this
      ensures Valid() && active && seconds == 0 && dragged == None
      ensures best == old(best)
      ensures board == Shuffled<nat>(Identity(PieceCount), draws)
    {
      // The shuffled board is built on a fresh copy of the pieces, which no
      // field refers to, so it is computed before the fields are reset.
      var b, cur := ShuffledBoard(draws);
      seconds := 0;
      solved := 0;
      board, current := b, cur;
      marked, solved := MarkPieces(b, cur);
      active := true;
      dragged := None;
    }

    /** `updateTimer`: one tick of the clock counts only while the game is active. */
    method Tick()
      modifies this`seconds
      ensures seconds == if active then old(seconds) + 1 else old(seconds)
    {
      if active {
        seconds := seconds + 1;
      }
    }

    /** `handleDragStart`: a drag starts only from a piece that is not locked in place. */
    method DragStart(target: Target) returns (started: bool)
      requires Valid()
      modifies this`dragged
      ensures Valid()
      ensures started <==> target.PieceElement? && target.piece < PieceCount && !InPlace(current, target.piece)
      ensures dragged == if started then Some(target.piece) else None
    {
      if target.OtherElement? || target.piece >= PieceCount || marked[target.piece] {
        started := false;
        dragged := None;
      } else {
        started := true;
        dragged := Some(target.piece);
      }
    }

    /**
     * `swapElements`: the two pieces trade slots and the board is rebuilt
     * in ascending slot order. Marks and count are left for `CheckAllPieces`.
     */
    method SwapElements(p: nat, q: nat)
      requires Arranged() && p < PieceCount && q < PieceCount
      modifies this`current, this`board
      ensures Arranged()
      ensures current == SwapSlots(old(current), p, q)
      ensures multiset(board) == multiset(old(board))
      ensures forall i, j :: 0 <= i < j < |board| ==> current[board[i]] < current[board[j]]
    {
      SwapKeepsArrangement(board, current, p, q);
      board := Resorted(board, current, p, q);
      current := SwapSlots(current, p, q);
      ArrangementIsPermutation(board, current);
    }

    /** `checkAllPieces`: re-marks every piece and recounts the pieces in place. */
    method CheckAllPieces()
      requires Arranged()
      modifies this`marked, this`solved
      ensures |marked| == PieceCount
      ensures forall p :: 0 <= p < PieceCount ==> marked[p] == InPlace(current, p)
      ensures solved == CountInPlace(board, current)
    {
      marked, solved := MarkPieces(board, current);
    }

    /** `checkPuzzleSolution`: when every piece is in place, stop the clock and keep the better time. */
    method CheckPuzzleSolution()
      modifies this`active, this`best
      ensures solved == PieceCount ==> !active && best == Improved(old(best), seconds)
      ensures solved != PieceCount ==> active == old(active) && best == old(best)
    {
      if solved == PieceCount {
        active := false;
        best := Improved(best, seconds);
      }
    }

    /**
     * `handleDrop`: drops onto something that is not a piece, onto the
     * dragged piece itself or onto a locked piece change nothing; otherwise
     * the two pieces swap, the board is re-checked and a win is detected.
     * The drop ends the drag.
     */
    method Drop(target: Target) returns (swapped: bool)
      requires Valid()
      modifies this
      ensures Valid() && dragged == None && seconds == old(seconds)
      ensures swapped <==> old(dragged).Some? && target.PieceElement? && target.piece < PieceCount
                           && target.piece != old(dragged).value && !old(InPlace(current, target.piece))
      ensures swapped ==> current == SwapSlots(old(current), old(dragged).value, target.piece)
      ensures !swapped ==> board == old(board) && current == old(current) && solved == old(solved)
                           && active == old(active) && best == old(best)
      ensures forall p :: 0 <= p < PieceCount && old(InPlace(current, p)) ==> current[p] == old(current[p])
      ensures swapped ==> (!active <==> !old(active) || solved == PieceCount)
      ensures swapped ==> best == if solved == PieceCount then Improved(old(best), seconds) else old(best)
    {
      var source := dragged;
      dragged := None;
      swapped := false;
      if target.OtherElement? || target.piece >= PieceCount {
        return;
      }
      if source.None? || source.value == target.piece || marked[target.piece] {
        return;
      }
      assert !InPlace(current, source.value) && !InPlace(current, target.piece);
      SwapAndCheck(source.value, target.piece);
      swapped := true;
    }

    /** The accepted drop: swap the two pieces, re-check the board, detect a win. */
    method SwapAndCheck(p: nat, q: nat)
      requires Arranged() && p < PieceCount && q < PieceCount && dragged == None
      modifies this`current, this`board, this`marked, this`solved, this`active, this`best
      ensures Valid()
      ensures current == SwapSlots(old(current), p, q)
      ensures !active <==> !old(active) || solved == PieceCount
      ensures best == if solved == PieceCount then Improved(old(best), seconds) else old(best)
    {
      SwapElements(p, q);
      CheckAllPieces();
      CheckPuzzleSolution();
    }
  }

  /** The game is won (the count reaches the number of pieces) exactly when every piece is in place. */
  lemma WonIffAllInPlace(g: Game)
    requires g.Valid()
    ensures g.solved == PieceCount <==> forall p :: 0 <= p < PieceCount ==> InPlace(g.current, p)
  {
    SolvedIffAllInPlace(g.board, g.current);
  }
}
