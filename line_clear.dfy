/**
 * Line clearing in moveDown (src/components/TetrisGame.tsx): a bottom-up scan
 * that splices out each full row it meets and unshifts an empty row on top.
 * Because the index is decremented right after a splice, the row that just
 * shifted into the spliced position is never examined in that pass.
 */
module TetrisLineClear {
  import opened TetrisBoard

  /** `row.every(cell => cell)`: no cell of the row is the empty string. */
  predicate Full(row: Row)
    ensures Full(row) <==> "" !in row
  {
    forall c :: 0 <= c < |row| ==> row[c] != ""
  }

  function EmptyRows(n: nat): Board
  {
    seq(n, _ => EmptyRow())
  }

  /**
   * Reference for the rows that survive a pass, stated on the ORIGINAL board
   * and processed from the bottom: a row that is not full is kept; a full row
   * is removed and the row directly above it is kept without being examined.
   */
  function Compact(rows: Board): (kept: Board)
    ensures |kept| <= |rows|
  {
    if rows == [] then []
    else if !Full(rows[|rows| - 1]) then Compact(rows[..|rows| - 1]) + [rows[|rows| - 1]]
    else if |rows| == 1 then []
    else Compact(rows[..|rows| - 2]) + [rows[|rows| - 2]]
  }

  /** Number of rows removed by one pass. */
  function ClearedCount(rows: Board): nat
  {
    |rows| - |Compact(rows)|
  }

  /** The board after one pass: one empty row on top for each removed row, then the kept rows. */
  function Cleared(rows: Board): Board
  {
    EmptyRows(ClearedCount(rows)) + Compact(rows)
  }

  /** Splicing out the row just above `done` and unshifting an empty row. */
  lemma SpliceRow(n: nat, pre: Board, row: Row, done: Board)
    ensures var nb := EmptyRows(n) + (pre + [row]) + done;
      var y := n + |pre|;
      y < |nb| && nb[y] == row &&
      [EmptyRow()] + nb[..y] + nb[y + 1..] == EmptyRows(n + 1) + pre + done
  {
    var nb := EmptyRows(n) + (pre + [row]) + done;
    var y := n + |pre|;
    assert nb[..y] == EmptyRows(n) + pre;
    assert nb[y + 1..] == done;
    assert [EmptyRow()] + EmptyRows(n) == EmptyRows(n + 1);
  }

  /** Compact on a prefix of the board, unfolded once at its last row. */
  lemma CompactPrefix(b: Board, k: nat)
    requires 1 <= k <= |b|
    ensures !Full(b[k - 1]) ==> Compact(b[..k]) == Compact(b[..k - 1]) + [b[k - 1]]
    ensures Full(b[k - 1]) && k == 1 ==> Compact(b[..k]) == []
    ensures Full(b[k - 1]) && k >= 2 ==> Compact(b[..k]) == Compact(b[..k - 2]) + [b[k - 2]]
  {
    var p := b[..k];
    assert p[|p| - 1] == b[k - 1];
    assert p[..|p| - 1] == b[..k - 1];
    if k >= 2 {
      assert p[|p| - 2] == b[k - 2];
      assert p[..|p| - 2] == b[..k - 2];
    }
  }

  /** The row the loop examines while unexamined original rows b[..k] remain is b[k-1]. */
  lemma ExaminedRow(b: Board, k: nat, n: nat, done: Board)
    requires 1 <= k <= |b|
    ensures var nb := EmptyRows(n) + b[..k] + done;
      n + k - 1 < |nb| && nb[n + k - 1] == b[k - 1]
  {
  }

  /** Loop step on a row that is not full: it joins the kept rows. */
  lemma KeepStep(b: Board, k: nat, n: nat, done: Board)
    requires 1 <= k <= |b| && !Full(b[k - 1])
    requires Compact(b) == Compact(b[..k]) + done
    ensures EmptyRows(n) + b[..k] + done == EmptyRows(n) + b[..k - 1] + ([b[k - 1]] + done)
    ensures Compact(b) == Compact(b[..k - 1]) + ([b[k - 1]] + done)
  {
    CompactPrefix(b, k);
    PrefixSplit(b, k, n, done);
  }

  lemma PrefixSplit(b: Board, k: nat, n: nat, done: Board)
    requires 1 <= k <= |b|
    ensures EmptyRows(n) + b[..k] + done == EmptyRows(n) + b[..k - 1] + ([b[k - 1]] + done)
  {
    assert b[..k] == b[..k - 1] + [b[k - 1]];
  }

  /** Loop step on a full row: it is spliced out and the row above it joins the kept rows. */
  lemma RemoveStep(b: Board, k: nat, n: nat, done: Board)
    requires 2 <= k <= |b| && Full(b[k - 1])
    requires Compact(b) == Compact(b[..k]) + done
    ensures var nb := EmptyRows(n) + b[..k] + done;
      [EmptyRow()] + nb[..n + k - 1] + nb[n + k..] == EmptyRows(n + 1) + b[..k - 2] + ([b[k - 2]] + done)
    ensures Compact(b) == Compact(b[..k - 2]) + ([b[k - 2]] + done)
  {
    CompactPrefix(b, k);
    SpliceFull(b, k, n, done);
  }

  lemma SpliceFull(b: Board, k: nat, n: nat, done: Board)
    requires 2 <= k <= |b|
    ensures var nb := EmptyRows(n) + b[..k] + done;
      [EmptyRow()] + nb[..n + k - 1] + nb[n + k..] == EmptyRows(n + 1) + b[..k - 2] + ([b[k - 2]] + done)
  {
    assert b[..k] == b[..k - 1] + [b[k - 1]];
    SpliceRow(n, b[..k - 1], b[k - 1], done);
    PrefixSplit(b, k - 1, n + 1, done);
  }

  /** Loop step on a full top row of the original board: nothing is left to examine. */
  lemma RemoveLastStep(b: Board, n: nat, done: Board)
    requires 1 <= |b| && Full(b[0])
    requires Compact(b) == Compact(b[..1]) + done
    ensures var nb := EmptyRows(n) + b[..1] + done;
      [EmptyRow()] + nb[..n] + nb[n + 1..] == EmptyRows(n + 1) + b[..0] + done
    ensures Compact(b) == Compact(b[..0]) + done
  {
    assert b[..1] == b[..0] + [b[0]];
    SpliceRow(n, b[..0], b[0], done);
    CompactPrefix(b, 1);
  }

  /**
   * The loop of moveDown: for y from BoardHeight - 1 down to 0, a full row y is
   * spliced out, an empty row is unshifted and linesCleared is incremented.
   */
  method ClearLines(b: Board) returns (nb: Board, linesCleared: nat)
    requires |b| == BoardHeight
    ensures linesCleared == ClearedCount(b)
    ensures nb == Cleared(b)
  {
    nb := b;
    linesCleared := 0;
    var y := BoardHeight - 1;
    // b[..k] is the part of the original board not yet examined; `done` is what
    // the pass keeps of the rows below it.
    ghost var k := |b|;
    ghost var done: Board := [];
    assert b[..k] == b;
    assert nb == EmptyRows(0) + b[..k] + done;
    while y >= 0
      invariant -1 <= y < BoardHeight
      invariant 0 <= k <= |b| && linesCleared + k + |done| == |b| == |nb|
      invariant nb == EmptyRows(linesCleared) + b[..k] + done
      invariant Compact(b) == Compact(b[..k]) + done
      invariant if k > 0 then y + 1 == linesCleared + k else y + 1 <= linesCleared
    {
      if k == 0 {
        assert nb[y] == EmptyRow();
        assert !Full(nb[y]) by { assert nb[y][0] == ""; }
      } else {
        ExaminedRow(b, k, linesCleared, done);
      }
      if Full(nb[y]) {
        if k >= 2 {
          RemoveStep(b, k, linesCleared, done);
        } else {
          RemoveLastStep(b, linesCleared, done);
        }
        nb := [EmptyRow()] + nb[..y] + nb[y + 1..];
        linesCleared := linesCleared + 1;
        if k >= 2 {
          done := [b[k - 2]] + done;
          k := k - 2;
        } else {
          k := 0;
        }
      } else if k > 0 {
        KeepStep(b, k, linesCleared, done);
        done := [b[k - 1]] + done;
        k := k - 1;
      }
      y := y - 1;
    }
    assert b[..0] == [];
  }

  /** Number of full rows of a board. */
  function FullCount(rows: Board): (n: nat)
    ensures n <= |rows|
  {
    if rows == [] then 0
    else FullCount(rows[..|rows| - 1]) + (if Full(rows[|rows| - 1]) then 1 else 0)
  }

  /** The rows that are not full, in their order. */
  function NonFullRows(rows: Board): Board
  {
    if rows == [] then []
    else NonFullRows(rows[..|rows| - 1]) + (if Full(rows[|rows| - 1]) then [] else [rows[|rows| - 1]])
  }

  /** Some full row lies directly above another full row. */
  predicate AdjacentFull(rows: Board)
  {
    exists i :: 1 <= i < |rows| && Full(rows[i - 1]) && Full(rows[i])
  }

  /** Dropping the last row of a board whose last row is not full keeps its adjacency. */
  lemma AdjacentFullDropLast(rows: Board)
    requires rows != [] && !Full(rows[|rows| - 1])
    ensures AdjacentFull(rows) <==> AdjacentFull(rows[..|rows| - 1])
  {
    var p := rows[..|rows| - 1];
    if AdjacentFull(rows) {
      var i :| 1 <= i < |rows| && Full(rows[i - 1]) && Full(rows[i]);
      assert 1 <= i < |p| && p[i - 1] == rows[i - 1] && p[i] == rows[i];
    }
    if AdjacentFull(p) {
      var i :| 1 <= i < |p| && Full(p[i - 1]) && Full(p[i]);
      assert rows[i - 1] == p[i - 1] && rows[i] == p[i];
    }
  }

  /** Above a row that is not full, adjacency can only occur two rows further up. */
  lemma AdjacentFullSkip(rows: Board)
    requires |rows| >= 2 && !Full(rows[|rows| - 2])
    ensures AdjacentFull(rows) <==> AdjacentFull(rows[..|rows| - 2])
  {
    var p2 := rows[..|rows| - 2];
    if AdjacentFull(rows) {
      var i :| 1 <= i < |rows| && Full(rows[i - 1]) && Full(rows[i]);
      assert 1 <= i < |p2| && p2[i - 1] == rows[i - 1] && p2[i] == rows[i];
    }
    if AdjacentFull(p2) {
      var i :| 1 <= i < |p2| && Full(p2[i - 1]) && Full(p2[i]);
      assert rows[i - 1] == p2[i - 1] && rows[i] == p2[i];
    }
  }

  /** The pass only removes full rows: what it keeps is a sub-multiset, and the difference is full. */
  lemma {:induction false} CompactKeepsRows(rows: Board)
    ensures multiset(Compact(rows)) <= multiset(rows)
    ensures forall r :: r in multiset(rows) - multiset(Compact(rows)) ==> Full(r)
    decreases |rows|
  {
    if rows != [] {
      var n := |rows|;
      var last := rows[n - 1];
      var p := rows[..n - 1];
      assert rows == p + [last];
      if !Full(last) {
        CompactKeepsRows(p);
        KeptLast(p, last);
      } else if n == 1 {
        assert multiset(rows) - multiset(Compact(rows)) == multiset{last};
      } else {
        var above := rows[n - 2];
        var p2 := rows[..n - 2];
        assert rows == p2 + [above] + [last];
        CompactKeepsRows(p2);
        RemovedLast(p2, above, last);
      }
    }
  }

  /** Multiset step of CompactKeepsRows when the last row is kept. */
  lemma KeptLast(p: Board, last: Row)
    requires multiset(Compact(p)) <= multiset(p)
    requires forall r :: r in multiset(p) - multiset(Compact(p)) ==> Full(r)
    requires !Full(last)
    ensures multiset(Compact(p + [last])) <= multiset(p + [last])
    ensures forall r :: r in multiset(p + [last]) - multiset(Compact(p + [last])) ==> Full(r)
  {
    var rows := p + [last];
    assert rows[..|rows| - 1] == p;
    assert Compact(rows) == Compact(p) + [last];
    assert multiset(rows) - multiset(Compact(rows)) == multiset(p) - multiset(Compact(p));
  }

  /** Multiset step of CompactKeepsRows when the full last row is removed and the one above kept. */
  lemma RemovedLast(p2: Board, above: Row, last: Row)
    requires multiset(Compact(p2)) <= multiset(p2)
    requires forall r :: r in multiset(p2) - multiset(Compact(p2)) ==> Full(r)
    requires Full(last)
    ensures multiset(Compact(p2 + [above] + [last])) <= multiset(p2 + [above] + [last])
    ensures forall r :: r in multiset(p2 + [above] + [last]) - multiset(Compact(p2 + [above] + [last])) ==> Full(r)
  {
    var rows := p2 + [above] + [last];
    assert rows[..|rows| - 2] == p2;
    assert Compact(rows) == Compact(p2) + [above];
    assert multiset(rows) - multiset(Compact(rows)) == (multiset(p2) - multiset(Compact(p2))) + multiset{last};
  }

  /**
   * One pass clears at most as many lines as the board has full rows, and
   * exactly that many if and only if no full row lies directly above another.
   */
  lemma {:induction false} ClearedCountBound(rows: Board)
    ensures ClearedCount(rows) <= FullCount(rows)
    ensures ClearedCount(rows) == FullCount(rows) <==> !AdjacentFull(rows)
    decreases |rows|
  {
    if rows != [] {
      var n := |rows|;
      var p := rows[..n - 1];
      if !Full(rows[n - 1]) {
        ClearedCountBound(p);
        AdjacentFullDropLast(rows);
      } else if n >= 2 {
        var p2 := rows[..n - 2];
        assert p[..n - 2] == p2 && p[n - 2] == rows[n - 2];
        ClearedCountBound(p2);
        if Full(rows[n - 2]) {
          assert AdjacentFull(rows) by { assert Full(rows[n - 1 - 1]) && Full(rows[n - 1]); }
        } else {
          AdjacentFullSkip(rows);
        }
      }
    }
  }

  /**
   * Without adjacent full rows the pass removes exactly the full rows: the
   * board becomes one empty row per full row on top of the other rows, in order.
   */
  lemma {:induction false} ClearsEveryFullRow(rows: Board)
    requires !AdjacentFull(rows)
    ensures Compact(rows) == NonFullRows(rows)
    ensures ClearedCount(rows) == FullCount(rows)
    ensures Cleared(rows) == EmptyRows(FullCount(rows)) + NonFullRows(rows)
    decreases |rows|
  {
    ClearedCountBound(rows);
    if rows != [] {
      var n := |rows|;
      var p := rows[..n - 1];
      if !Full(rows[n - 1]) {
        AdjacentFullDropLast(rows);
        ClearsEveryFullRow(p);
      } else if n >= 2 {
        var p2 := rows[..n - 2];
        assert p[..n - 2] == p2 && p[n - 2] == rows[n - 2];
        assert !Full(rows[n - 2]);
        assert forall i :: 0 <= i < |p2| ==> p2[i] == rows[i];
        ClearsEveryFullRow(p2);
      }
    }
  }

  /**
   * The index skip: when the two bottom rows are both full, the upper one is
   * never examined and ends up, still full, as the bottom row of the result.
   */
  lemma AdjacentFullRowSurvives(rows: Board)
    requires |rows| >= 2 && Full(rows[|rows| - 1]) && Full(rows[|rows| - 2])
    ensures |Cleared(rows)| == |rows|
    ensures Cleared(rows)[|rows| - 1] == rows[|rows| - 2]
    ensures Full(Cleared(rows)[|rows| - 1])
  {
  }

  /** A pass keeps a well-formed board well-formed: BoardHeight rows of BoardWidth cells. */
  lemma ClearedWellFormed(b: Board)
    requires WellFormedBoard(b)
    ensures WellFormedBoard(Cleared(b))
  {
    var c := Cleared(b);
    CompactKeepsRows(b);
    forall r | 0 <= r < |c|
      ensures |c[r]| == BoardWidth
    {
      if r >= ClearedCount(b) {
        var row := Compact(b)[r - ClearedCount(b)];
        assert row in multiset(Compact(b));
        assert row in b;
      }
    }
  }
}
