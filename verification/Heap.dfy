/** The C heap as far as ownership goes: which blocks are outstanding and which have been freed. */
module HeapLedger {

  /** A pointer returned by malloc; 0 is NULL. */
  type Block = nat

  const NULL: Block := 0

  class Heap {
    var live: set<Block>
    var freed: set<Block>
    var next: Block

    /** Every block handed out so far is either outstanding or freed, never both. */
    ghost predicate Valid()
      reads this
    {
      && next > NULL
      && live !! freed
      && (forall b :: (b in live || b in freed) <==> NULL < b < next)
    }

    /** Nothing is outstanding: every block handed out so far has been freed, exactly once. */
    ghost predicate Balanced()
      reads this
    {
      Valid() && live == {}
    }

    constructor ()
      ensures Balanced() && freed == {}
    {
      live, freed, next := {}, {}, 1;
    }

    method Malloc(succeeds: bool) returns (p: Block)
      requires Valid()
      modifies this
      ensures Valid() && freed == old(freed)
      ensures succeeds ==> p != NULL && p !in old(live + freed) && live == old(live) + {p}
      ensures !succeeds ==> p == NULL && live == old(live)
    {
      if succeeds {
        p := next;
        live, next := live + {p}, next + 1;
      } else {
        p := NULL;
      }
    }

    /** A block may be freed only while it is outstanding; freeing NULL does nothing. */
    method Free(p: Block)
      requires Valid() && (p == NULL || p in live)
      modifies this
      ensures Valid()
      ensures live == old(live) - {p}
      ensures freed == old(freed) + if p == NULL then {} else {p}
    {
      if p != NULL {
        live, freed := live - {p}, freed + {p};
      }
    }
  }
}
