/** The two helpers shared by the evolution engine: a pointer swap and an array maximum. */
module Additional {

  /** A mutable int cell: what `int *` points at. */
  class IntCell {
    var value: int

    constructor (value: int)
      ensures this.value == value
    {
      this.value := value;
    }
  }

  /** Exchanges the two pointed-to values (a no-op when both point at the same cell). */
  method Swap(a: IntCell, b: IntCell)
    modifies a, b
    ensures a.value == old(b.value) && b.value == old(a.value)
  {
    var t := a.value;
    a.value := b.value;
    b.value := t;
  }

  /** Swapping twice puts both values back. */
  method SwapTwice(a: IntCell, b: IntCell)
    modifies a, b
    ensures a.value == old(a.value) && b.value == old(b.value)
  {
    Swap(a, b);
    Swap(a, b);
  }

  /** The largest of 0 and the first `size` elements (0 when size <= 0). */
  method MaxInArray(values: array<real>, size: int) returns (max: real)
    requires size <= values.Length
    ensures max >= 0.0
    ensures forall i :: 0 <= i < size ==> values[i] <= max
    ensures max == 0.0 || exists i :: 0 <= i < size && values[i] == max
    ensures size <= 0 ==> max == 0.0
  {
    max := 0.0;
    var i := 0;
    while i < size
      invariant 0 <= i <= if size < 0 then 0 else size
      invariant max >= 0.0
      invariant forall j :: 0 <= j < i ==> values[j] <= max
      invariant max == 0.0 || exists j :: 0 <= j < i && values[j] == max
    {
      if values[i] > max {
        max := values[i];
      }
      i := i + 1;
    }
  }
}
