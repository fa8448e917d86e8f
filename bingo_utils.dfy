/**
 * The music-bingo engine: the board-size table, the seeded generator that
 * drives the shuffle of the song catalogue, the construction of a board
 * from the shuffled catalogue, and the check for a fully marked line.
 */
module BingoUtils {
  import opened JsCore

  datatype BingoSquare = BingoSquare(id: string, songTitle: string, marked: bool)

  datatype Dimensions = Dimensions(rows: nat, cols: nat)

  function Cells(d: Dimensions): nat
  {
    d.rows * d.cols
  }

  const BingoSongs: seq<string> := [
    "Ja, vi elsker dette landet",
    "Norge i rødt, hvitt og blått",
    "Alle fugler små de er",
    "Blåfjell 2: Når noen blir igjen",
    "Postgirobygget - En solskinnsdag",
    "Jahn Teigen - Mil etter mil",
    "a-ha - Take On Me",
    "Kygo - Firestone",
    "Sigrid - Mirror",
    "Karpe - Gunerius",
    "Gabrielle - Ring meg",
    "Astrid S - Hurts So Good",
    "DDE - Vinsjan på kaia",
    "Hellbillies - Liten by",
    "Seigmen - Hjernen er alene",
    "Röyksopp - Eple",
    "Datarock - Fa-Fa-Fa",
    "Katzenjammer - A Bar in Amsterdam",
    "Kaizers Orchestra - Kontroll på kontinentet",
    "Sissel Kyrkjebø - Solvguttene",
    "Madcon - Beggin",
    "Alan Walker - Faded",
    "Ylvis - The Fox",
    "Marcus & Martinus - Elektrisk",
    "Aurora - Runaway"
  ]

  /** The catalogue has 25 different titles. */
  lemma BingoSongsDistinct()
    ensures |BingoSongs| == 25 && Distinct(BingoSongs)
  {
  }

  // ---------------------------------------------------------------------------
  // Board sizes
  // ---------------------------------------------------------------------------

  /** getBoardDimensions: square boards of side 3, 4 or 5; an unknown tag falls back to 3x3. */
  function GetBoardDimensions(size: string): (d: Dimensions)
    ensures d.rows == d.cols && 3 <= d.rows <= 5
    ensures Cells(d) <= |BingoSongs|
  {
    if size == "3x3" then Dimensions(3, 3)
    else if size == "4x4" then Dimensions(4, 4)
    else if size == "5x5" then Dimensions(5, 5)
    else Dimensions(3, 3)
  }

  /** The size table, case by case. */
  lemma BoardDimensionsTable(size: string)
    ensures size == "4x4" ==> GetBoardDimensions(size) == Dimensions(4, 4)
    ensures size == "5x5" ==> GetBoardDimensions(size) == Dimensions(5, 5)
    ensures size != "4x4" && size != "5x5" ==> GetBoardDimensions(size) == Dimensions(3, 3)
  {
  }

  // ---------------------------------------------------------------------------
  // The seeded generator
  // ---------------------------------------------------------------------------

  const Multiplier: nat := 9301
  const Increment: nat := 49297
  const Modulus: nat := 233280

  /** The seed's 32-bit hash: the rolling hash over its UTF-16 code units. */
  function SeedHash(seed: string): (h: int)
    ensures IsInt32(h)
  {
    StringHash(Utf16(seed))
  }

  /** The generator starts from the magnitude of the seed hash. */
  function InitialState(seed: string): (s: nat)
    ensures s <= Two31
  {
    Abs(SeedHash(seed))
  }

  /** One step of the linear congruential generator. */
  function LcgNext(state: nat): (r: nat)
    ensures r < Modulus
  {
    (state * Multiplier + Increment) % Modulus
  }

  /** The generator's state after `k` steps. */
  function LcgIterate(state: nat, k: nat): (r: nat)
    ensures k > 0 ==> r < Modulus
  {
    if k == 0 then state else LcgNext(LcgIterate(state, k - 1))
  }

  /** The value returned for a state: state / 233280. */
  function RandomValue(state: nat): real
  {
    state as real / Modulus as real
  }

  /** The product in the generator step never leaves the range where doubles are exact integers. */
  lemma LcgStepExact(state: nat)
    requires state <= Two31
    ensures state * Multiplier + Increment < 0x20_0000_0000_0000
  {
  }

  /** The shuffle's comparator `random() - 0.5` lies in [-0.5, 0.5); it is positive exactly above the midpoint state 116640 and zero exactly at it. */
  lemma ComparatorSign(state: nat)
    requires state < Modulus
    ensures 0.0 <= RandomValue(state) < 1.0
    ensures RandomValue(state) - 0.5 > 0.0 <==> state > 116640
    ensures RandomValue(state) - 0.5 == 0.0 <==> state == 116640
  {
  }

  /** The closure returned by `seedRandom`, with its captured state as a field. */
  class SeededRandom {
    var state: nat

    constructor (seed: string)
      ensures state == InitialState(seed)
    {
      state := InitialState(seed);
    }

    method Next() returns (x: real)
      modifies this
      ensures state == LcgNext(old(state))
      ensures x == RandomValue(state) && 0.0 <= x < 1.0
    {
      state := (state * Multiplier + Increment) % Modulus;
      x := state as real / Modulus as real;
      ComparatorSign(state);
    }
  }

  /**
   * The comparator results the shuffle receives for a seed, in call order:
   * the k-th call answers with the generator's (k+1)-th value minus one half.
   */
  method ComparatorValues(seed: string, n: nat) returns (xs: seq<real>)
    ensures |xs| == n
    ensures forall k :: 0 <= k < n ==> xs[k] == RandomValue(LcgIterate(InitialState(seed), k + 1)) - 0.5
    ensures forall k :: 0 <= k < n ==> -0.5 <= xs[k] < 0.5
  {
    var random := new SeededRandom(seed);
    xs := [];
    while |xs| < n
      invariant |xs| <= n
      invariant random.state == LcgIterate(InitialState(seed), |xs|)
      invariant forall k :: 0 <= k < |xs| ==> xs[k] == RandomValue(LcgIterate(InitialState(seed), k + 1)) - 0.5
      invariant forall k :: 0 <= k < |xs| ==> -0.5 <= xs[k] < 0.5
    {
      var x := random.Next();
      xs := xs + [x - 0.5];
    }
  }

  // ---------------------------------------------------------------------------
  // Boards
  // ---------------------------------------------------------------------------

  /**
   * What the shuffle may produce, as the catalogue position each slot takes
   * its title from: every position exactly once.
   */
  predicate IsShuffleOrder(order: seq<int>)
  {
    |order| == |BingoSongs| &&
    (forall i :: 0 <= i < |order| ==> 0 <= order[i] < |BingoSongs|) &&
    Distinct(order)
  }

  /** A duplicate-free list of values drawn from a set is no longer than the set. */
  lemma {:induction false} DistinctWithin(s: seq<int>, bound: set<int>)
    requires Distinct(s) && forall i :: 0 <= i < |s| ==> s[i] in bound
    ensures |s| <= |bound|
    decreases |s|
  {
    if |s| > 0 {
      var last := s[|s| - 1];
      var init := s[..|s| - 1];
      forall i | 0 <= i < |init|
        ensures init[i] in bound - {last}
      {
        assert init[i] == s[i];
      }
      DistinctWithin(init, bound - {last});
    }
  }

  /** The positions 0 .. n-1. */
  function Below(n: nat): (r: set<int>)
    ensures forall i :: i in r <==> 0 <= i < n
  {
    if n == 0 then {} else Below(n - 1) + {n - 1}
  }

  lemma {:induction false} RangeSize(n: nat)
    ensures |Below(n)| == n
  {
    if n > 0 {
      RangeSize(n - 1);
      assert n - 1 !in Below(n - 1);
    }
  }

  /** A duplicate-free list of n positions below n names every position. */
  lemma OrderCovers(order: seq<int>, v: int)
    requires (forall i :: 0 <= i < |order| ==> 0 <= order[i] < |order|) && Distinct(order)
    requires 0 <= v < |order|
    ensures v in order
  {
    if v !in order {
      var others := Below(|order|) - {v};
      RangeSize(|order|);
      DistinctWithin(order, others);
      assert false;
    }
  }

  /** In a duplicate-free list every value occurs at most once. */
  lemma {:induction false} DistinctCount(s: seq<string>, x: string)
    requires Distinct(s)
    ensures multiset(s)[x] == if x in s then 1 else 0
    decreases |s|
  {
    if |s| > 0 {
      var init := s[..|s| - 1];
      assert s == init + [s[|s| - 1]];
      DistinctCount(init, x);
      assert s[|s| - 1] !in init;
    }
  }

  /** Reading a duplicate-free list through a duplicate-free order of all its positions permutes it. */
  lemma PermutedCopy(t: seq<string>, order: seq<int>, s: seq<string>)
    requires Distinct(t) && |order| == |t| && Distinct(order)
    requires forall i :: 0 <= i < |order| ==> 0 <= order[i] < |t|
    requires |s| == |order| && forall i :: 0 <= i < |s| ==> s[i] == t[order[i]]
    ensures multiset(s) == multiset(t)
  {
    assert Distinct(s) by {
      forall i, j | 0 <= i < j < |s|
        ensures s[i] != s[j]
      {
        assert order[i] != order[j];
      }
    }
    forall x
      ensures multiset(s)[x] == multiset(t)[x]
    {
      DistinctCount(s, x);
      DistinctCount(t, x);
      if x in t {
        var k :| 0 <= k < |t| && t[k] == x;
        OrderCovers(order, k);
        var i :| 0 <= i < |order| && order[i] == k;
        assert s[i] == x;
      }
      if x in s {
        var i :| 0 <= i < |s| && s[i] == x;
        assert t[order[i]] == x;
      }
    }
  }

  /** The shuffled copy of the catalogue: the same 25 songs in another order. */
  function Shuffled(order: seq<int>): (s: seq<string>)
    requires IsShuffleOrder(order)
    ensures |s| == |BingoSongs| && forall i :: 0 <= i < |s| ==> s[i] == BingoSongs[order[i]]
  {
    seq(|order|, i requires 0 <= i < |order| => BingoSongs[order[i]])
  }

  /** Shuffling keeps every song of the catalogue exactly as often as it was there: it only reorders. */
  lemma ShuffledIsPermutation(order: seq<int>)
    requires IsShuffleOrder(order)
    ensures multiset(Shuffled(order)) == multiset(BingoSongs)
  {
    BingoSongsDistinct();
    PermutedCopy(BingoSongs, order, Shuffled(order));
  }

  /** The `map` step: the squares for a list of titles, numbered from "0" in order, unmarked. */
  function NumberedSquares(titles: seq<string>): (board: seq<BingoSquare>)
    ensures |board| == |titles|
  {
    seq(|titles|, i requires 0 <= i < |titles| => BingoSquare(NumberToString(i, 10), titles[i], false))
  }

  /** generateBingoBoard once the catalogue copy is shuffled: the squares for its first rows*cols titles. */
  function GenerateBingoBoard(size: string, order: seq<int>): (board: seq<BingoSquare>)
    requires IsShuffleOrder(order)
    ensures |board| == Cells(GetBoardDimensions(size))
  {
    NumberedSquares(Shuffled(order)[..Cells(GetBoardDimensions(size))])
  }

  /** Square i of a numbered board carries title i and the id that reads back as i; no square is marked. */
  lemma NumberedSquaresShape(titles: seq<string>)
    ensures var board := NumberedSquares(titles);
            forall i :: 0 <= i < |board| ==>
              board[i].songTitle == titles[i] && ParseNumber(board[i].id, 10) == Some(i) && !board[i].marked
  {
    var board := NumberedSquares(titles);
    forall i | 0 <= i < |board|
      ensures ParseNumber(board[i].id, 10) == Some(i)
    {
      NumberToStringRoundTrip(i, 10);
    }
  }

  /** The squares' titles are pairwise different catalogue titles, taken in the shuffle's order. */
  lemma BoardTitles(size: string, order: seq<int>)
    requires IsShuffleOrder(order)
    ensures var board := GenerateBingoBoard(size, order);
            (forall i :: 0 <= i < |board| ==> board[i].songTitle == BingoSongs[order[i]] && board[i].songTitle in BingoSongs) &&
            (forall i, j :: 0 <= i < j < |board| ==> board[i].songTitle != board[j].songTitle)
  {
    var board := GenerateBingoBoard(size, order);
    NumberedSquaresShape(Shuffled(order)[..Cells(GetBoardDimensions(size))]);
    BingoSongsDistinct();
    forall i, j | 0 <= i < j < |board|
      ensures board[i].songTitle != board[j].songTitle
    {
      assert order[i] != order[j];
    }
  }

  /** Square i carries the id that reads back as i, so ids are pairwise different; no square starts marked. */
  lemma BoardIds(size: string, order: seq<int>)
    requires IsShuffleOrder(order)
    ensures var board := GenerateBingoBoard(size, order);
            (forall i :: 0 <= i < |board| ==> ParseNumber(board[i].id, 10) == Some(i) && !board[i].marked) &&
            (forall i, j :: 0 <= i < j < |board| ==> board[i].id != board[j].id)
  {
    var board := GenerateBingoBoard(size, order);
    NumberedSquaresShape(Shuffled(order)[..Cells(GetBoardDimensions(size))]);
    forall i, j | 0 <= i < j < |board|
      ensures board[i].id != board[j].id
    {
      assert ParseNumber(board[i].id, 10) == Some(i) && ParseNumber(board[j].id, 10) == Some(j);
    }
  }

  // ---------------------------------------------------------------------------
  // Checking for bingo
  // ---------------------------------------------------------------------------

  lemma CellIndex(d: Dimensions, r: nat, c: nat)
    requires r < d.rows && c < d.cols
    ensures r * d.cols + c < Cells(d)
  {
    assert r * d.cols + c < r * d.cols + d.cols == (r + 1) * d.cols;
    assert (r + 1) * d.cols <= d.rows * d.cols;
  }

  /** Whether the square at row r, column c is marked. */
  predicate Marked(board: seq<BingoSquare>, d: Dimensions, r: nat, c: nat)
    requires |board| >= Cells(d) && r < d.rows && c < d.cols
  {
    CellIndex(d, r, c);
    board[r * d.cols + c].marked
  }

  predicate RowMarked(board: seq<BingoSquare>, d: Dimensions, r: nat)
    requires |board| >= Cells(d) && r < d.rows
  {
    forall c: nat :: c < d.cols ==> Marked(board, d, r, c)
  }

  predicate ColumnMarked(board: seq<BingoSquare>, d: Dimensions, c: nat)
    requires |board| >= Cells(d) && c < d.cols
  {
    forall r: nat :: r < d.rows ==> Marked(board, d, r, c)
  }

  predicate DiagonalMarked(board: seq<BingoSquare>, d: Dimensions)
    requires |board| >= Cells(d) && d.rows == d.cols
  {
    forall i: nat :: i < d.rows ==> Marked(board, d, i, i)
  }

  /** Whether the i-th square of the top-right to bottom-left diagonal is marked. */
  predicate AntiDiagonalCellMarked(board: seq<BingoSquare>, d: Dimensions, i: nat)
    requires |board| >= Cells(d) && d.rows == d.cols && i < d.rows
  {
    Marked(board, d, i, d.cols - 1 - i)
  }

  predicate AntiDiagonalMarked(board: seq<BingoSquare>, d: Dimensions)
    requires |board| >= Cells(d) && d.rows == d.cols
  {
    forall i: nat :: i < d.rows ==> AntiDiagonalCellMarked(board, d, i)
  }

  /** Some row, some column, or on a square board either diagonal, is fully marked. */
  predicate HasBingo(board: seq<BingoSquare>, d: Dimensions)
    requires |board| >= Cells(d)
  {
    (exists r: nat :: r < d.rows && RowMarked(board, d, r)) ||
    (exists c: nat :: c < d.cols && ColumnMarked(board, d, c)) ||
    (d.rows == d.cols && (DiagonalMarked(board, d) || AntiDiagonalMarked(board, d)))
  }

  /** checkForBingo: rows, then columns, then the two diagonals, each scan stopping at the first unmarked square. */
  method CheckForBingo(board: seq<BingoSquare>, size: string) returns (b: bool)
    requires |board| >= Cells(GetBoardDimensions(size))
    ensures b == HasBingo(board, GetBoardDimensions(size))
  {
    var d := GetBoardDimensions(size);
    var rows, cols := d.rows, d.cols;

    for i := 0 to rows
      invariant forall r: nat :: r < i ==> !RowMarked(board, d, r)
    {
      var rowStart := i * cols;
      var rowBingo := true;
      for j := 0 to cols
        invariant rowBingo
        invariant forall c: nat :: c < j ==> Marked(board, d, i, c)
      {
        CellIndex(d, i, j);
        if !board[rowStart + j].marked {
          assert !Marked(board, d, i, j);
          rowBingo := false;
          break;
        }
      }
      if rowBingo {
        assert RowMarked(board, d, i);
        return true;
      }
    }

    for i := 0 to cols
      invariant forall c: nat :: c < i ==> !ColumnMarked(board, d, c)
    {
      var colBingo := true;
      for j := 0 to rows
        invariant colBingo
        invariant forall r: nat :: r < j ==> Marked(board, d, r, i)
      {
        CellIndex(d, j, i);
        if !board[j * cols + i].marked {
          assert !Marked(board, d, j, i);
          colBingo := false;
          break;
        }
      }
      if colBingo {
        assert ColumnMarked(board, d, i);
        return true;
      }
    }

    if rows == cols {
      var diag1Bingo := true;
      for i := 0 to rows
        invariant diag1Bingo
        invariant forall k: nat :: k < i ==> Marked(board, d, k, k)
      {
        CellIndex(d, i, i);
        if !board[i * cols + i].marked {
          assert !Marked(board, d, i, i);
          diag1Bingo := false;
          break;
        }
      }
      if diag1Bingo {
        assert DiagonalMarked(board, d);
        return true;
      }

      var diag2Bingo := true;
      for i := 0 to rows
        invariant diag2Bingo
        invariant forall k: nat :: k < i ==> AntiDiagonalCellMarked(board, d, k)
      {
        CellIndex(d, i, cols - 1 - i);
        if !board[i * cols + (cols - 1 - i)].marked {
          assert !AntiDiagonalCellMarked(board, d, i);
          diag2Bingo := false;
          break;
        }
      }
      if diag2Bingo {
        assert AntiDiagonalMarked(board, d);
        return true;
      }
    }

    return false;
  }

  /** A board with every square marked has bingo. */
  lemma AllMarkedHasBingo(board: seq<BingoSquare>, d: Dimensions)
    requires |board| >= Cells(d) && d.rows > 0
    requires forall k :: 0 <= k < |board| ==> board[k].marked
    ensures HasBingo(board, d)
  {
    forall c: nat | c < d.cols
      ensures Marked(board, d, 0, c)
    {
      CellIndex(d, 0, c);
    }
    assert RowMarked(board, d, 0);
  }

  /** A board with no square marked has no bingo. */
  lemma NoneMarkedNoBingo(board: seq<BingoSquare>, d: Dimensions)
    requires |board| >= Cells(d) && d.rows > 0 && d.cols > 0
    requires forall k :: 0 <= k < |board| ==> !board[k].marked
    ensures !HasBingo(board, d)
  {
    forall r: nat, c: nat | r < d.rows && c < d.cols
      ensures !Marked(board, d, r, c)
    {
      CellIndex(d, r, c);
    }
    forall r: nat | r < d.rows
      ensures !RowMarked(board, d, r)
    {
      assert !Marked(board, d, r, 0);
    }
    forall c: nat | c < d.cols
      ensures !ColumnMarked(board, d, c)
    {
      assert !Marked(board, d, 0, c);
    }
    if d.rows == d.cols {
      assert !Marked(board, d, 0, 0);
      assert !AntiDiagonalCellMarked(board, d, 0);
    }
  }

  /** A freshly generated board has no bingo. */
  lemma FreshBoardNoBingo(size: string, order: seq<int>)
    requires IsShuffleOrder(order)
    ensures !HasBingo(GenerateBingoBoard(size, order), GetBoardDimensions(size))
  {
    BoardIds(size, order);
    NoneMarkedNoBingo(GenerateBingoBoard(size, order), GetBoardDimensions(size));
  }
}
