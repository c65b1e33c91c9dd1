/** The load factor size / capacity is a float in the source; its two
    threshold tests are integer comparisons in disguise. */
module Load {

  /** load >= 0.5, the open-addressing rebuild test, is 2 * size >= capacity. */
  lemma LoadHalf(size: nat, capacity: nat)
    requires capacity > 0
    ensures size as real / capacity as real >= 0.5 <==> 2 * size >= capacity
  {
    var c := capacity as real;
    var load := size as real / c;
    assert load * c == size as real;
    ScaleCompare(load, c, 0.5);
  }

  /** load >= 1.0, the separate-chaining rebuild test, is size >= capacity. */
  lemma LoadOne(size: nat, capacity: nat)
    requires capacity > 0
    ensures size as real / capacity as real >= 1.0 <==> size >= capacity
  {
    var c := capacity as real;
    var load := size as real / c;
    assert load * c == size as real;
    ScaleCompare(load, c, 1.0);
  }

  /** Multiplying by a positive number keeps the order. */
  lemma ScaleCompare(q: real, y: real, b: real)
    requires y > 0.0
    ensures q * y >= b * y <==> q >= b
  {
    assert q * y - b * y == (q - b) * y;
    if q < b {
      assert (q - b) * y < 0.0;
    } else {
      assert (q - b) * y >= 0.0;
    }
  }
}
