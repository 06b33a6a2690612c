/** Small helpers shared by the evaluator and the search. */
module Utils {
  import opened Chess

  /** The sign that turns a White-positive value into the given side's view. */
  function ColorFactor(color: Color): (f: int)
    ensures f == 1 || f == -1
    ensures f == 1 <==> color == White
  {
    match color
    case Black => -1
    case White => 1
  }

  /** Clamp a value into the closed interval from low to high. */
  function Clamp(low: int, value: int, high: int): (r: int)
    requires low < high
    ensures low <= r <= high
    ensures low <= value <= high ==> r == value
    ensures value < low ==> r == low
    ensures value > high ==> r == high
  {
    if value < low then low
    else if value > high then high
    else value
  }

  /** Clamping an already clamped value changes nothing. */
  lemma ClampIdempotent(low: int, value: int, high: int)
    requires low < high
    ensures Clamp(low, Clamp(low, value, high), high) == Clamp(low, value, high)
  {
  }

  /** Clamping is monotone in the clamped value. */
  lemma ClampMonotone(low: int, x: int, y: int, high: int)
    requires low < high
    requires x <= y
    ensures Clamp(low, x, high) <= Clamp(low, y, high)
  {
  }
}
