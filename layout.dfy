/**
 * Screen geometry: where each card's cover sits, which card a click lands
 * on, and how large the canvas is made for a given number of cards.
 */
module Layout {
  import opened Settings
  import opened Cards

  /**
   * The card a click at canvas point (x, y) selects: the column is
   * (x - 3) div 50 and the row (y - 3) div 100, both rounded toward minus
   * infinity (integer division on positive divisors agrees with Python's `/`).
   */
  function CardIndexAt(x: int, y: int): (card: int)
    ensures card % MaxCardsPerRow == ((x - DisplayOffset) / CardWidth) % MaxCardsPerRow
    ensures DisplayOffset <= x < DisplayOffset + MaxCardsPerRow * CardWidth ==>
              card / MaxCardsPerRow == (y - DisplayOffset) / CardHeight
  {
    (x - DisplayOffset) / CardWidth + MaxCardsPerRow * ((y - DisplayOffset) / CardHeight)
  }

  /** Canvas width: a full row of cells, or fewer when there are fewer cards than one row. */
  function CanvasWidth(totalCards: int): (w: int)
    ensures (w - DisplayOffset) % CardWidth == 0
    ensures var columns := (w - DisplayOffset) / CardWidth;
            totalCards >= 0 ==> columns <= MaxCardsPerRow && columns <= totalCards
                                && (columns == MaxCardsPerRow || columns == totalCards)
  {
    if totalCards < MaxCardsPerRow then totalCards * CardWidth + DisplayOffset
    else MaxCardsPerRow * CardWidth + DisplayOffset
  }

  /** Canvas height: one cell height per full row, plus one for a partly filled last row. */
  function CanvasHeight(totalCards: int): (h: int)
    ensures (h - DisplayOffset) % CardHeight == 0
    // the fewest rows of MaxCardsPerRow cells that hold every card
    ensures var rows := (h - DisplayOffset) / CardHeight;
            totalCards >= 0 ==> rows * MaxCardsPerRow >= totalCards
                                && (rows - 1) * MaxCardsPerRow < totalCards
  {
    var height := (totalCards / MaxCardsPerRow) * CardHeight + DisplayOffset;
    if totalCards % MaxCardsPerRow != 0 then height + CardHeight else height
  }

  /** Does point (x, y) lie on the cover rectangle drawn for `card`? */
  predicate OnCover(card: Card, x: int, y: int): (on: bool)
    // the cover is the grid cell of the card's column and row, shifted by the display offset
    ensures card.number >= 0 ==>
              (on <==> && DisplayOffset <= x && DisplayOffset <= y
                       && (x - DisplayOffset) / CardWidth == card.number % MaxCardsPerRow
                       && (y - DisplayOffset) / CardHeight == card.number / MaxCardsPerRow)
  {
    && card.CalcXPosition(DisplayOffset) <= x < card.CalcXPosition(DisplayOffset + CardWidth)
    && card.CalcYPosition(DisplayOffset) <= y < card.CalcYPosition(DisplayOffset + CardHeight)
  }

  /** Every point of a card's cover maps back to that card. */
  lemma ClickRoundTrip(card: Card, dx: int, dy: int)
    requires card.number >= 0
    requires 0 <= dx < CardWidth && 0 <= dy < CardHeight
    ensures OnCover(card, card.CalcXPosition(DisplayOffset) + dx, card.CalcYPosition(DisplayOffset) + dy)
    ensures CardIndexAt(card.CalcXPosition(DisplayOffset) + dx, card.CalcYPosition(DisplayOffset) + dy) == card.number
  {
  }

  /**
   * Conversely, a click to the right of the left margin and below the top
   * margin, inside the canvas width, that selects card `i` lies on card `i`'s cover.
   */
  lemma ClickLandsOnCover(x: int, y: int, value: int)
    requires DisplayOffset <= x < DisplayOffset + MaxCardsPerRow * CardWidth
    requires DisplayOffset <= y
    ensures CardIndexAt(x, y) >= 0
    ensures OnCover(Card(CardIndexAt(x, y), value), x, y)
  {
  }

  /**
   * A click in the 3-pixel strip left of the first column, on board row
   * r >= 1, selects the last card of row r - 1, whose cover is elsewhere.
   */
  lemma LeftMarginSelectsPreviousRow(x: int, y: int)
    requires 0 <= x < DisplayOffset
    requires DisplayOffset + CardHeight <= y
    ensures CardIndexAt(x, y) == MaxCardsPerRow * ((y - DisplayOffset) / CardHeight) - 1
    ensures CardIndexAt(x, y) >= 0
    ensures !OnCover(Card(CardIndexAt(x, y), 0), x, y)
  {
  }

  /** Every card of a deck of `totalCards` cards has its whole cover inside the canvas. */
  lemma CoverFitsCanvas(totalCards: int, card: Card)
    requires 0 <= card.number < totalCards
    ensures 0 <= card.CalcXPosition(DisplayOffset)
    ensures 0 <= card.CalcYPosition(DisplayOffset)
    ensures card.CalcXPosition(DisplayOffset + CardWidth) <= CanvasWidth(totalCards)
    ensures card.CalcYPosition(DisplayOffset + CardHeight) <= CanvasHeight(totalCards)
  {
    var i := card.number;
    if totalCards < MaxCardsPerRow {
      assert i % MaxCardsPerRow == i;
    }
    var rows := totalCards / MaxCardsPerRow;
    assert i / MaxCardsPerRow <= (totalCards - 1) / MaxCardsPerRow;
    if totalCards % MaxCardsPerRow == 0 {
      assert (totalCards - 1) / MaxCardsPerRow == rows - 1;
    } else {
      assert (totalCards - 1) / MaxCardsPerRow == rows;
    }
  }

  /**
   * The canvas is no larger than needed: the right edge of the last card of
   * the first row and the bottom edge of the last card touch its border.
   */
  lemma CanvasIsTight(totalCards: int)
    requires totalCards >= 1
    ensures var lastInRow := if totalCards < MaxCardsPerRow then totalCards - 1 else MaxCardsPerRow - 1;
            Card(lastInRow, 0).CalcXPosition(DisplayOffset + CardWidth) == CanvasWidth(totalCards)
    ensures Card(totalCards - 1, 0).CalcYPosition(DisplayOffset + CardHeight) == CanvasHeight(totalCards)
  {
    var rows := totalCards / MaxCardsPerRow;
    if totalCards % MaxCardsPerRow == 0 {
      assert (totalCards - 1) / MaxCardsPerRow == rows - 1;
    } else {
      assert (totalCards - 1) / MaxCardsPerRow == rows;
    }
  }
}
