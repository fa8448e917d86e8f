/**
 * The bingo board component's state: the squares and the derived "has
 * bingo" flag, which is recomputed after every change to the board.
 */
module BingoBoardComponent {
  import opened JsCore
  import opened BingoUtils

  /** The board after the squares carrying `id` have their mark flipped. */
  function Toggle(board: seq<BingoSquare>, id: string): (r: seq<BingoSquare>)
    ensures |r| == |board|
    ensures forall i :: 0 <= i < |r| ==>
              r[i].id == board[i].id && r[i].songTitle == board[i].songTitle &&
              (r[i].marked <==> (if board[i].id == id then !board[i].marked else board[i].marked))
  {
    seq(|board|, i requires 0 <= i < |board| =>
      if board[i].id == id then board[i].(marked := !board[i].marked) else board[i])
  }

  /** Toggling the same id twice restores the board. */
  lemma ToggleTwice(board: seq<BingoSquare>, id: string)
    ensures Toggle(Toggle(board, id), id) == board
  {
    var r := Toggle(Toggle(board, id), id);
    forall i | 0 <= i < |board|
      ensures r[i] == board[i]
    {
    }
  }

  /** Toggling an id that no square carries changes nothing. */
  lemma ToggleAbsent(board: seq<BingoSquare>, id: string)
    requires forall i :: 0 <= i < |board| ==> board[i].id != id
    ensures Toggle(board, id) == board
  {
    var r := Toggle(board, id);
    forall i | 0 <= i < |board|
      ensures r[i] == board[i]
    {
    }
  }

  /** On a generated board, toggling the id of square k flips square k and no other. */
  lemma ToggleGenerated(size: string, order: seq<int>, k: nat)
    requires IsShuffleOrder(order)
    requires k < Cells(GetBoardDimensions(size))
    ensures var board := GenerateBingoBoard(size, order);
            var r := Toggle(board, board[k].id);
            r[k].marked == !board[k].marked &&
            forall i :: 0 <= i < |board| && i != k ==> r[i] == board[i]
  {
    var board := GenerateBingoBoard(size, order);
    BoardIds(size, order);
    var r := Toggle(board, board[k].id);
    forall i | 0 <= i < |board| && i != k
      ensures r[i] == board[i]
    {
      if i < k {
        assert board[i].id != board[k].id;
      } else {
        assert board[k].id != board[i].id;
      }
    }
  }

  class BingoBoard {
    var size: string
    var board: seq<BingoSquare>
    var hasBingo: bool

    /** The board fits its size and the flag agrees with the checker. */
    predicate Valid()
      reads this
    {
      |board| == Cells(GetBoardDimensions(size)) &&
      hasBingo == HasBingo(board, GetBoardDimensions(size))
    }

    /** A fresh board for the size, followed by the first run of the bingo check. */
    constructor (size: string, order: seq<int>)
      requires IsShuffleOrder(order)
      ensures Valid()
      ensures this.size == size && board == GenerateBingoBoard(size, order)
      ensures !hasBingo
    {
      var initial := GenerateBingoBoard(size, order);
      FreshBoardNoBingo(size, order);
      var bingo := CheckForBingo(initial, size);
      this.size := size;
      board := initial;
      hasBingo := bingo;
    }

    /** toggleSquare, then the effect that recomputes the flag. */
    method ToggleSquare(id: string)
      requires Valid()
      modifies this
      ensures Valid()
      ensures size == old(size) && board == Toggle(old(board), id)
      ensures hasBingo == HasBingo(board, GetBoardDimensions(size))
    {
      board := Toggle(board, id);
      hasBingo := CheckForBingo(board, size);
    }

    /**
     * A new size from the page: the board is the one stored under the new
     * size's key, or a fresh one when none is stored, and the effect
     * recomputes the flag for the new size.
     */
    method ChangeSize(newSize: string, stored: Option<seq<BingoSquare>>, order: seq<int>)
      requires IsShuffleOrder(order)
      requires stored.Some? ==> |stored.value| == Cells(GetBoardDimensions(newSize))
      modifies this
      ensures Valid()
      ensures size == newSize
      ensures board == if stored.Some? then stored.value else GenerateBingoBoard(newSize, order)
      ensures hasBingo == HasBingo(board, GetBoardDimensions(newSize))
      ensures stored.None? ==> !hasBingo
    {
      size := newSize;
      match stored {
        case Some(b) =>
          board := b;
        case None =>
          board := GenerateBingoBoard(newSize, order);
          FreshBoardNoBingo(newSize, order);
      }
      hasBingo := CheckForBingo(board, size);
    }
  }
}
