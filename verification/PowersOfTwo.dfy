/** Powers of two, for the bit strings and for the spacing of the doubles. */
module PowersOfTwo {

  function Two(e: nat): (p: nat)
    ensures p >= 1
  {
    if e == 0 then 1 else 2 * Two(e - 1)
  }
}
