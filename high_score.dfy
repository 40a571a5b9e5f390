/** The best length ever reached, as kept by the high-score store. */
module HighScore {
  /** What the store holds after a snake of `length` cells is checked against `stored`. */
  function Recorded(stored: int, length: int): (r: int)
    ensures r >= stored && r >= length
    ensures r == stored || r == length
  {
    if length > stored then length else stored
  }
}
