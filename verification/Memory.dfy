/** Addresses shared by the modules that model programs with explicit heap nodes. */
module Memory {

  /** An address. Zero is the null pointer. */
  type Ptr = nat

  const NULL: Ptr := 0

  /** The allocator: any address that is neither null nor in use. Callers may rely on nothing else. */
  method Allocate(used: set<Ptr>) returns (p: Ptr)
    ensures p != NULL && p !in used
  {
    p := 1;
    var rest := used;
    while rest != {}
      invariant rest <= used && p != NULL
      invariant forall q :: q in used && q !in rest ==> q < p
      decreases rest
    {
      var q :| q in rest;
      if p <= q {
        p := q + 1;
      }
      rest := rest - {q};
    }
  }
}
