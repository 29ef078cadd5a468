/** `drawCodewords` of qr.ts: the zigzag placement of section 7.7.3 of ISO/IEC 18004:2015. */
module QrPlacement {
  import opened BitStrings
  import opened Wrappers

  type Cell = (int, int)

  /** A module is light, dark, or not drawn yet. */
  type Matrix = array2<Option<bool>>

  function Row(size: int, upward: bool, vert: int): int {
    if upward then size - 1 - vert else vert
  }

  /** Two columns, row by row, right cell first. */
  function Strip(size: nat, right: int, upward: bool): (cells: seq<Cell>)
    ensures |cells| == 2 * size
  {
    seq(2 * size, i requires 0 <= i < 2 * size => (Row(size, upward, i / 2), right - i % 2))
  }

  /** The whole walk from a right column on; column 6 is stepped over. */
  function Order(size: nat, right: int, upward: bool): seq<Cell>
    decreases right
  {
    if right <= 0 then []
    else
      var column := if right == 6 then 5 else right;
      Strip(size, column, upward) + Order(size, column - 2, !upward)
  }

  ghost predicate NoRepeats<T>(s: seq<T>) {
    forall i, j | 0 <= i < j < |s| :: s[i] != s[j]
  }

  /** The right columns an odd size of at least 7 leads to. */
  predicate OnWalk(right: int) {
    right == -1 || (right >= 6 && right % 2 == 0) || (1 <= right <= 5 && right % 2 == 1)
  }

  lemma StripCells(size: nat, right: int, upward: bool)
    ensures NoRepeats(Strip(size, right, upward))
    ensures forall y, x :: (y, x) in Strip(size, right, upward) <==> 0 <= y < size && right - 1 <= x <= right
  {
    var cells := Strip(size, right, upward);
    forall y, x | 0 <= y < size && right - 1 <= x <= right ensures (y, x) in cells {
      var i := 2 * Row(size, upward, y) + (right - x);
      assert i / 2 == Row(size, upward, y) && i % 2 == right - x;
      assert cells[i] == (y, x);
    }
    forall i, j | 0 <= i < j < |cells| ensures cells[i] != cells[j] {
      if i / 2 == j / 2 { assert i % 2 != j % 2; }
    }
  }

  /** The walk passes every cell outside column 6 exactly once. */
  lemma {:induction false} OrderCells(size: nat, right: int, upward: bool)
    requires OnWalk(right)
    ensures NoRepeats(Order(size, right, upward))
    ensures forall y, x :: (y, x) in Order(size, right, upward) <==> 0 <= y < size && 0 <= x <= right && x != 6
    decreases right
  {
    hide Strip;
    if right > 0 {
      var column := if right == 6 then 5 else right;
      StripCells(size, column, upward);
      OrderCells(size, column - 2, !upward);
      var strip, rest := Strip(size, column, upward), Order(size, column - 2, !upward);
      forall i, j | 0 <= i < |strip| && 0 <= j < |rest| ensures strip[i] != rest[j] {
        var (y, x) := strip[i];
        assert (y, x) in strip;
        assert rest[j] in rest;
      }
    }
  }

  /** The modules of the symbol as a value. */
  function Picture(matrix: Matrix): map<Cell, Option<bool>>
    reads matrix
  {
    map y, x | 0 <= y < matrix.Length0 && 0 <= x < matrix.Length1 :: (y, x) := matrix[y, x]
  }

  /** The cells that function patterns left open. */
  function Open(reserved: array2<bool>): set<Cell>
    reads reserved
  {
    set y, x | 0 <= y < reserved.Length0 && 0 <= x < reserved.Length1 && !reserved[y, x] :: (y, x)
  }

  /** The open cells of a walk, in walking order: the cells that codewords use. */
  function Free(open: set<Cell>, cells: seq<Cell>): seq<Cell> {
    if cells == [] then []
    else
      var last := cells[|cells| - 1];
      Free(open, cells[..|cells| - 1]) + if last in open then [last] else []
  }

  lemma {:induction false} FreeCells(open: set<Cell>, cells: seq<Cell>)
    ensures forall c :: c in Free(open, cells) <==> c in cells && c in open
    ensures NoRepeats(cells) ==> NoRepeats(Free(open, cells))
  {
    if cells != [] {
      var front := cells[..|cells| - 1];
      FreeCells(open, front);
      assert cells == front + [cells[|cells| - 1]];
    }
  }

  lemma FreeStep(open: set<Cell>, cells: seq<Cell>, cell: Cell)
    ensures Free(open, cells + [cell]) == if cell in open then Free(open, cells) + [cell] else Free(open, cells)
    ensures cell !in cells ==> cell !in Free(open, cells)
  {
    assert (cells + [cell])[..|cells|] == cells;
    FreeCells(open, cells);
  }

  /** The k-th bit of the stream; light once the stream has run out. */
  function StreamBit(bits: Bits, k: nat): bool {
    k < |bits| && bits[k] == 1
  }

  /** The walk over a symbol. */
  function Walk(size: nat): seq<Cell> {
    Order(size, size - 1, true)
  }

  /** Where column 6 is reserved, the walk reaches every unreserved cell of the symbol, once. */
  lemma WalkIsComplete(reserved: array2<bool>)
    requires reserved.Length0 == reserved.Length1 >= 7 && reserved.Length0 % 2 == 1
    requires forall y | 0 <= y < reserved.Length0 :: reserved[y, 6]
    ensures NoRepeats(Free(Open(reserved), Walk(reserved.Length0)))
    ensures forall c: Cell :: c in Free(Open(reserved), Walk(reserved.Length0)) <==> c in Open(reserved)
  {
    hide Order, Strip, Free, NoRepeats;
    var size := reserved.Length0;
    OrderCells(size, size - 1, true);
    FreeCells(Open(reserved), Walk(size));
    forall c: Cell | c in Open(reserved) ensures c in Walk(size) {
      assert (c.0, c.1) in Walk(size);
    }
  }

  /** Reading the free cells in order gives the stream, bit by bit. */
  ghost predicate Carries(picture: map<Cell, Option<bool>>, free: seq<Cell>, bits: Bits) {
    forall k | 0 <= k < |free| :: free[k] in picture && picture[free[k]] == Some(StreamBit(bits, k))
  }

  /** The same symbol outside these cells. */
  ghost predicate SameElsewhere(before: map<Cell, Option<bool>>, after: map<Cell, Option<bool>>, cells: seq<Cell>) {
    after.Keys == before.Keys && forall c | c in after && c !in cells :: after[c] == before[c]
  }

  /** Spending the next bit on a new cell continues the stream and leaves the rest alone. */
  lemma OneMore(before: map<Cell, Option<bool>>, picture: map<Cell, Option<bool>>, free: seq<Cell>, bits: Bits,
                cell: Cell)
    requires Carries(picture, free, bits) && SameElsewhere(before, picture, free)
    requires cell in picture && cell !in free
    ensures var next := picture[cell := Some(StreamBit(bits, |free|))];
            Carries(next, free + [cell], bits) && SameElsewhere(before, next, free + [cell])
  {
    var next := picture[cell := Some(StreamBit(bits, |free|))];
    forall k | 0 <= k < |free| + 1
      ensures (free + [cell])[k] in next && next[(free + [cell])[k]] == Some(StreamBit(bits, k))
    {
      if k < |free| { assert free[k] in free; }
    }
    forall c | c in next && c !in free + [cell] ensures next[c] == before[c] {
      assert c !in free && c != cell by {
        assert forall d :: d in free ==> d in free + [cell];
        assert cell in free + [cell];
      }
    }
  }

  /** The walk so far: the cells done carry the stream, `bitIndex` counts the bits spent, the rest is as it was. */
  ghost predicate Drawn(start: map<Cell, Option<bool>>, picture: map<Cell, Option<bool>>, open: set<Cell>, bits: Bits,
                        done: seq<Cell>, bitIndex: nat)
  {
    var free := Free(open, done);
    bitIndex == |free| && Carries(picture, free, bits) && SameElsewhere(start, picture, free)
  }

  /** What the innermost step makes of a symbol: a reserved cell is skipped, another one takes the next bit. */
  lemma DrawnStep(start: map<Cell, Option<bool>>, picture: map<Cell, Option<bool>>, open: set<Cell>, bits: Bits,
                  done: seq<Cell>, bitIndex: nat, cell: Cell)
    requires Drawn(start, picture, open, bits, done, bitIndex)
    requires cell in picture && cell !in done
    ensures cell !in open ==> Drawn(start, picture, open, bits, done + [cell], bitIndex)
    ensures cell in open ==>
              Drawn(start, picture[cell := Some(StreamBit(bits, bitIndex))], open, bits, done + [cell], bitIndex + 1)
  {
    FreeStep(open, done, cell);
    if cell in open { OneMore(start, picture, Free(open, done), bits, cell); }
  }

  /** The innermost step: skip a reserved cell, otherwise spend one bit on it. */
  method PlaceOne(matrix: Matrix, reserved: array2<bool>, bits: Bits, y: int, x: int, bitIndex: nat)
    returns (next: nat)
    requires matrix.Length0 == reserved.Length0 && matrix.Length1 == reserved.Length1
    requires 0 <= y < matrix.Length0 && 0 <= x < matrix.Length1
    modifies matrix
    ensures Open(reserved) == old(Open(reserved)) && (y, x) in old(Picture(matrix))
    ensures next == if (y, x) in Open(reserved) then bitIndex + 1 else bitIndex
    ensures var before := old(Picture(matrix));
            Picture(matrix) ==
              if (y, x) in Open(reserved) then before[(y, x) := Some(StreamBit(bits, bitIndex))] else before
    ensures matrix[y, x] ==
              if reserved[y, x] then old(matrix[y, x]) else Some(bitIndex < |bits| && bits[bitIndex] == 1)
  {
    if reserved[y, x] { return bitIndex; }
    matrix[y, x] := Some(StreamBit(bits, bitIndex));
    next := bitIndex + 1;
  }

  function Upto(done: seq<Cell>, strip: seq<Cell>, n: nat): seq<Cell>
    requires n <= |strip|
  {
    done + strip[..n]
  }

  lemma Ends(done: seq<Cell>, strip: seq<Cell>)
    ensures Upto(done, strip, 0) == done
    ensures Upto(done, strip, |strip|) == done + strip
  {
    assert strip[..|strip|] == strip;
  }

  lemma OneFurther(done: seq<Cell>, size: nat, right: int, upward: bool, vert: nat, dx: nat)
    requires vert < size && dx < 2 && NoRepeats(done + Strip(size, right, upward))
    ensures var at, strip := 2 * vert + dx, Strip(size, right, upward);
            var cell := (if upward then size - 1 - vert else vert, right - dx);
            && cell !in Upto(done, strip, at)
            && Upto(done, strip, at + 1) == Upto(done, strip, at) + [cell]
  {
    var at, strip := 2 * vert + dx, Strip(size, right, upward);
    var before := Upto(done, strip, at);
    assert at / 2 == vert && at % 2 == dx;
    forall i | 0 <= i < |before| ensures before[i] != strip[at] {
      assert before[i] == (done + strip)[i] && (done + strip)[|done| + at] == strip[at];
    }
  }

  /** The two inner loops: one pair of columns, from the bottom or from the top. */
  method DrawStrip(matrix: Matrix, reserved: array2<bool>, bits: Bits, right: int, upward: bool, bitIndex: nat,
                   ghost start: map<Cell, Option<bool>>, ghost done: seq<Cell>)
    returns (next: nat)
    requires matrix.Length0 == matrix.Length1 == reserved.Length0 == reserved.Length1
    requires 1 <= right < matrix.Length1
    requires NoRepeats(done + Strip(matrix.Length0, right, upward))
    requires Drawn(start, Picture(matrix), Open(reserved), bits, done, bitIndex)
    modifies matrix
    ensures Open(reserved) == old(Open(reserved))
    ensures Drawn(start, Picture(matrix), Open(reserved), bits, done + Strip(matrix.Length0, right, upward), next)
  {
    hide *;
    var size := matrix.Length0;
    ghost var strip, open := Strip(size, right, upward), Open(reserved);
    Ends(done, strip);
    next := bitIndex;
    for vert := 0 to size
      invariant open == Open(reserved) && Drawn(start, Picture(matrix), open, bits, Upto(done, strip, 2 * vert), next)
    {
      var y := if upward then size - 1 - vert else vert;
      for dx := 0 to 2
        invariant open == Open(reserved)
        invariant Drawn(start, Picture(matrix), open, bits, Upto(done, strip, 2 * vert + dx), next)
      {
        var x := right - dx;
        OneFurther(done, size, right, upward, vert, dx);
        ghost var picture, spent := Picture(matrix), next;
        next := PlaceOne(matrix, reserved, bits, y, x, next);
        DrawnStep(start, picture, open, bits, Upto(done, strip, 2 * vert + dx), spent, (y, x));
      }
    }
  }

  lemma NothingDrawn(start: map<Cell, Option<bool>>, open: set<Cell>, bits: Bits)
    ensures Drawn(start, start, open, bits, [], 0)
  {
  }

  lemma AllDrawn(start: map<Cell, Option<bool>>, picture: map<Cell, Option<bool>>, open: set<Cell>, bits: Bits,
                 done: seq<Cell>, bitIndex: nat)
    requires Drawn(start, picture, open, bits, done, bitIndex)
    ensures Carries(picture, Free(open, done), bits) && SameElsewhere(start, picture, Free(open, done))
  {
  }

  lemma WalkStarts(size: nat)
    requires size >= 7 && size % 2 == 1
    ensures NoRepeats(Walk(size)) && OnWalk(size - 1)
    ensures Walk(size) == [] + Order(size, size - 1, true)
  {
    OrderCells(size, size - 1, true);
  }

  lemma WalkEnds(total: seq<Cell>, done: seq<Cell>, size: nat, right: int, upward: bool)
    requires right <= 0 && total == done + Order(size, right, upward)
    ensures done == total
  {
  }

  /** One round of the outer loop, on the walk. */
  lemma WalkSplits(total: seq<Cell>, done: seq<Cell>, size: nat, right: int, upward: bool)
    requires OnWalk(right) && 0 < right < size
    requires NoRepeats(total) && total == done + Order(size, right, upward)
    ensures var column := if right == 6 then 5 else right;
            && 1 <= column < size && OnWalk(column - 2)
            && total == done + Strip(size, column, upward) + Order(size, column - 2, !upward)
            && NoRepeats(done + Strip(size, column, upward))
  {
    var column := if right == 6 then 5 else right;
    var before, rest := done + Strip(size, column, upward), Order(size, column - 2, !upward);
    assert total == before + rest;
    forall i, j | 0 <= i < j < |before| ensures before[i] != before[j] {
      assert before[i] == total[i] && before[j] == total[j];
    }
  }

  /** The stream, bit by bit: the codewords in order, the most significant bit first. */
  lemma StreamIs(codewords: seq<nat>, k: nat)
    ensures StreamBit(AllBits(codewords, 8), k) <==>
              k < 8 * |codewords| && codewords[k / 8] / Pow2(7 - k % 8) % 2 == 1
  {
    hide AllBits, Pow2;
    if k < 8 * |codewords| { AllBitsAt(codewords, 8, k / 8, k % 8); }
  }

  /** A 1 is dark. */
  lemma CarriedBits(picture: map<Cell, Option<bool>>, free: seq<Cell>, codewords: seq<nat>)
    requires Carries(picture, free, AllBits(codewords, 8))
    ensures forall k | 0 <= k < |free| ::
              && free[k] in picture
              && picture[free[k]] ==
                   Some(k < 8 * |codewords| && codewords[k / 8] / Pow2(7 - k % 8) % 2 == 1)
  {
    hide AllBits, Pow2, StreamBit;
    forall k | 0 <= k < |free|
      ensures free[k] in picture
      ensures picture[free[k]] ==
                Some(k < 8 * |codewords| && codewords[k / 8] / Pow2(7 - k % 8) % 2 == 1)
    {
      StreamIs(codewords, k);
    }
  }

  /**
   Every free cell of the walk gets its bit of the stream, light once the stream has run
   out; a stream longer than the capacity is cut. Nothing else is written.
   */
  method DrawCodewords(matrix: Matrix, reserved: array2<bool>, codewords: seq<nat>)
    requires matrix.Length0 == matrix.Length1 == reserved.Length0 == reserved.Length1
    requires matrix.Length0 >= 7 && matrix.Length0 % 2 == 1
    modifies matrix
    ensures Carries(Picture(matrix), Free(Open(reserved), Walk(matrix.Length0)), AllBits(codewords, 8))
    ensures SameElsewhere(old(Picture(matrix)), Picture(matrix), Free(Open(reserved), Walk(matrix.Length0)))
    ensures var free, picture := Free(Open(reserved), Walk(matrix.Length0)), Picture(matrix);
            forall k | 0 <= k < |free| ::
              && free[k] in picture
              && picture[free[k]] ==
                   Some(k < 8 * |codewords| && codewords[k / 8] / Pow2(7 - k % 8) % 2 == 1)
  {
    hide *;
    var size := matrix.Length0;
    var bits := AllBits(codewords, 8);
    ghost var start, open, total := Picture(matrix), Open(reserved), Walk(size);
    ghost var done: seq<Cell> := [];
    WalkStarts(size);
    NothingDrawn(start, open, bits);
    var bitIndex, upward, right := 0, true, size - 1;
    while right > 0
      invariant OnWalk(right) && right < size && NoRepeats(total)
      invariant total == done + Order(size, right, upward)
      invariant open == Open(reserved) && Drawn(start, Picture(matrix), open, bits, done, bitIndex)
      decreases right
    {
      WalkSplits(total, done, size, right, upward);
      if right == 6 { right := right - 1; }
      bitIndex := DrawStrip(matrix, reserved, bits, right, upward, bitIndex, start, done);
      done := done + Strip(size, right, upward);
      upward := !upward;
      right := right - 2;
    }
    AllDrawn(start, Picture(matrix), open, bits, done, bitIndex);
    WalkEnds(total, done, size, right, upward);
    CarriedBits(Picture(matrix), Free(open, total), codewords);
  }

  /**
   Two streams put the same modules on a symbol exactly when they agree on as many bits as
   there are free cells, light standing for the bits a stream does not have.
   */
  lemma ReadingDeterminesStream(picture: map<Cell, Option<bool>>, free: seq<Cell>, bits: Bits, others: Bits)
    requires Carries(picture, free, bits)
    ensures Carries(picture, free, others) <==> forall k | 0 <= k < |free| :: StreamBit(bits, k) == StreamBit(others, k)
  {
    if Carries(picture, free, others) {
      forall k | 0 <= k < |free| ensures StreamBit(bits, k) == StreamBit(others, k) {
        assert picture[free[k]] == Some(StreamBit(bits, k)) == Some(StreamBit(others, k));
      }
    }
  }

  // ---------------------------------------------------------------------------
  // The order of the walk
  // ---------------------------------------------------------------------------

  /** Which pair of columns a cell is in, counted from the right; column 6 belongs to none. */
  ghost function PairOf(size: int, x: int): int {
    if x > 6 then (size - 1 - x) / 2 else (size - 2 - x) / 2
  }

  /** In an even pair the walk goes up, in an odd one down; in a row the right cell comes first. */
  ghost predicate Precedes(size: int, c: Cell, d: Cell) {
    var p, q := PairOf(size, c.1), PairOf(size, d.1);
    || p < q
    || (p == q && ((c.0 == d.0 && c.1 > d.1) || (if p % 2 == 0 then c.0 > d.0 else c.0 < d.0)))
  }

  ghost predicate InOrder(size: int, cells: seq<Cell>) {
    forall i, j | 0 <= i < j < |cells| :: Precedes(size, cells[i], cells[j])
  }

  /** Both columns of a pair, the next pair, and everything further left. */
  lemma Pairs(size: nat, right: int)
    requires OnWalk(right) && 0 < right < size && right != 6 && size >= 7 && size % 2 == 1
    ensures PairOf(size, right - 1) == PairOf(size, right)
    ensures right > 2 ==> PairOf(size, if right == 8 then 5 else right - 2) == PairOf(size, right) + 1
    ensures forall u | 0 <= u <= right - 2 && u != 6 :: PairOf(size, u) > PairOf(size, right)
  {
  }

  lemma StripInOrder(size: nat, right: int, upward: bool)
    requires PairOf(size, right - 1) == PairOf(size, right)
    requires upward <==> PairOf(size, right) % 2 == 0
    ensures InOrder(size, Strip(size, right, upward))
  {
    hide PairOf;
    var cells := Strip(size, right, upward);
    forall i, j | 0 <= i < j < |cells| ensures Precedes(size, cells[i], cells[j]) {
      assert i / 2 == j / 2 ==> i % 2 < j % 2;
      assert cells[i].1 in {right, right - 1} && cells[j].1 in {right, right - 1};
    }
  }

  lemma StripInPair(size: nat, right: int, upward: bool)
    requires PairOf(size, right - 1) == PairOf(size, right)
    ensures forall i | 0 <= i < 2 * size :: PairOf(size, Strip(size, right, upward)[i].1) == PairOf(size, right)
  {
    hide PairOf;
    forall i | 0 <= i < 2 * size ensures Strip(size, right, upward)[i].1 in {right - 1, right} {}
  }

  lemma OrderInLaterPair(size: nat, right: int, upward: bool)
    requires OnWalk(right) && 0 < right < size && right != 6 && size >= 7 && size % 2 == 1
    ensures var rest := Order(size, right - 2, upward);
            forall j | 0 <= j < |rest| :: PairOf(size, rest[j].1) > PairOf(size, right)
  {
    hide PairOf, Order;
    Pairs(size, right);
    OrderCells(size, right - 2, upward);
    var rest := Order(size, right - 2, upward);
    forall j | 0 <= j < |rest| ensures PairOf(size, rest[j].1) > PairOf(size, right) {
      var (v, u) := rest[j];
      assert (v, u) in rest;
    }
  }

  lemma NothingInOrder(size: int)
    ensures InOrder(size, [])
  {
  }

  lemma AppendInOrder(size: int, left: seq<Cell>, right: seq<Cell>, pair: int)
    requires InOrder(size, left) && InOrder(size, right)
    requires forall i | 0 <= i < |left| :: PairOf(size, left[i].1) == pair
    requires forall j | 0 <= j < |right| :: PairOf(size, right[j].1) > pair
    ensures InOrder(size, left + right)
  {
    hide PairOf;
  }

  lemma {:induction false} OrderInOrder(size: nat, right: int, upward: bool)
    requires OnWalk(right) && right < size && size >= 7 && size % 2 == 1
    requires right > 0 ==> (upward <==> PairOf(size, if right == 6 then 5 else right) % 2 == 0)
    ensures InOrder(size, Order(size, right, upward))
    decreases right
  {
    hide Strip, PairOf, Precedes, InOrder;
    if right <= 0 {
      NothingInOrder(size);
    } else {
      var column := if right == 6 then 5 else right;
      var strip, rest := Strip(size, column, upward), Order(size, column - 2, !upward);
      Pairs(size, column);
      StripInOrder(size, column, upward);
      StripInPair(size, column, upward);
      OrderInLaterPair(size, column, !upward);
      OrderInOrder(size, column - 2, !upward);
      AppendInOrder(size, strip, rest, PairOf(size, column));
    }
  }

  lemma {:induction false} FreeInOrder(size: nat, open: set<Cell>, cells: seq<Cell>)
    requires InOrder(size, cells)
    ensures InOrder(size, Free(open, cells))
  {
    hide Precedes;
    if cells != [] {
      var n := |cells| - 1;
      var front, free := cells[..n], Free(open, cells[..n]);
      FreeInOrder(size, open, front);
      FreeCells(open, front);
      forall i | 0 <= i < |free| ensures Precedes(size, free[i], cells[n]) {
        assert free[i] in front;
        var k :| 0 <= k < n && front[k] == free[i];
        assert cells[k] == free[i];
      }
    }
  }

  /**
   The order in which the free cells are filled: pair of columns by pair from the right, up
   and down in turn, the right cell of a row first.
   */
  lemma WalkInOrder(size: nat, open: set<Cell>, i: nat, j: nat)
    requires size >= 7 && size % 2 == 1 && i < j < |Free(open, Walk(size))|
    ensures var c, d := Free(open, Walk(size))[i], Free(open, Walk(size))[j];
            var pair := (x: int) => if x > 6 then (size - 1 - x) / 2 else (size - 2 - x) / 2;
            || pair(c.1) < pair(d.1)
            || (pair(c.1) == pair(d.1)
                && ((c.0 == d.0 && c.1 > d.1) || (if pair(c.1) % 2 == 0 then c.0 > d.0 else c.0 < d.0)))
  {
    hide Order, Free;
    OrderInOrder(size, size - 1, true);
    FreeInOrder(size, open, Walk(size));
    var free := Free(open, Walk(size));
    assert Precedes(size, free[i], free[j]);
  }
}
