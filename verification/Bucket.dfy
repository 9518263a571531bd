/**
 A bucket of the locality-sensitive hash table (src/lsh/Bucket.h): the elements that share a main and a control key.
 */
module Buckets {
  class Bucket<T(==)> {
    var key: nat
    var chain: set<T>

    constructor (key: nat, te: T)
      ensures this.key == key && chain == {te}
    {
      this.key := key;
      this.chain := {te};
    }

    method Add(te: T)
      modifies this`chain
      ensures chain == old(chain) + {te}
    {
      chain := chain + {te};
    }

    predicate IsEmpty()
      reads this
    {
      chain == {}
    }

    /** 1 when the element was there, else 0 and nothing changes. */
    method RemoveElement(te: T) returns (r: nat)
      modifies this`chain
      ensures chain == old(chain) - {te}
      ensures r == if te in old(chain) then 1 else 0
    {
      if te !in chain {
        return 0;
      }
      chain := chain - {te};
      return 1;
    }

    method SetKey(bk: nat)
      modifies this`key
      ensures key == bk
    {
      key := bk;
    }

    method Reset()
      modifies this`key, this`chain
      ensures key == 0 && chain == {}
    {
      key := 0;
      chain := {};
    }
  }
}
