/** The shared tally of questionable events (`Storage`). The atomic counter is
    a plain field here: each increment is one indivisible step. */
module Counter {
  class Storage {
    var count: nat

    constructor()
      ensures count == 0
    {
      count := 0;
    }

    method GetCount() returns (c: nat)
      ensures c == count
    {
      c := count;
    }

    /** Add one; the count never decreases. */
    method IncreaseCount()
      modifies this
      ensures count == old(count) + 1
    {
      count := count + 1;
    }
  }
}
