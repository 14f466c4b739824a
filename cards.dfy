/** A playing card: its position in the deck and the value printed on it. */
module Cards {
  import opened Settings

  datatype Card = Card(number: int, value: int) {

    /** Left edge (plus `offset`) of the card's cell: its column times the cell width. */
    function CalcXPosition(offset: int): (x: int)
      ensures offset <= x < offset + MaxCardsPerRow * CardWidth
      ensures (x - offset) % CardWidth == 0
      ensures (x - offset) / CardWidth == number % MaxCardsPerRow
    {
      number % MaxCardsPerRow * CardWidth + offset
    }

    /** Top edge (plus `offset`) of the card's cell: its row times the cell height. */
    function CalcYPosition(offset: int): (y: int)
      ensures number >= 0 ==> y >= offset
      ensures (y - offset) % CardHeight == 0
      ensures (y - offset) / CardHeight == number / MaxCardsPerRow
    {
      number / MaxCardsPerRow * CardHeight + offset
    }
  }
}
