/** The drink counter's two buttons.  The count itself is held by the form. */
module DrinkCounter {

  /** The minus button: `Math.max(0, count - 1)`. */
  function Decrement(count: int): (r: int)
    ensures r >= 0
    ensures r == 0 || r == count - 1
    ensures count >= 1 ==> r == count - 1
  {
    if count - 1 > 0 then count - 1 else 0
  }

  /** The plus button: `count + 1`, with no upper bound. */
  function Increment(count: int): (r: int)
    ensures r > count
  {
    count + 1
  }

  /** A count that starts non-negative stays non-negative under either button. */
  lemma CountStaysNonNegative(count: int)
    requires count >= 0
    ensures Decrement(count) >= 0 && Increment(count) >= 0
  {
  }

  /** The minus button at 0 stays at 0. */
  lemma DecrementAtZero()
    ensures Decrement(0) == 0
  {
  }

  /** Plus then minus gives back any non-negative count. */
  lemma IncrementThenDecrement(count: int)
    requires count >= 0
    ensures Decrement(Increment(count)) == count
  {
  }

  /** Minus then plus gives back the count exactly when it was positive. */
  lemma DecrementThenIncrement(count: int)
    requires count >= 0
    ensures Increment(Decrement(count)) == count <==> count > 0
  {
  }
}
