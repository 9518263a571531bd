/**
 The string index (src/lsh/LSHUniformHashTableHamming.cpp): the dual-key table keyed by sampled bits. The ghost field
 live is what a client put in and did not take out; every answer is about it.
 */
module HammingTable {
  import opened Filing
  import opened Index
  import opened HashTable
  import opened Hamming

  class LSHUniformHashTableHamming {
    const lsh: LSHSystemHamming
    const table: LSHUniformHashTable<Str>
    ghost var live: set<Str>

    ghost function KeysOf(): (f: Str -> seq<KeyPair>)
      requires lsh.Valid() && table.table.Length > 0
    {
      x => lsh.KeysOf(x, table.table.Length)
    }

    ghost predicate Valid()
      reads this, table, table.table, table.ledger.entries.Keys
    {
      && lsh.Valid() && |lsh.g| > 0
      && 0 < table.table.Length < 0x1_0000_0000
      && table.Valid()
      && Indexes(table.FilesNow(), live, KeysOf())
    }

    constructor (lsh: LSHSystemHamming, uhsize: nat)
      requires lsh.Valid() && |lsh.g| > 0 && 0 < uhsize < 0x1_0000_0000
      ensures Valid() && live == {} && this.lsh == lsh
      ensures fresh(table) && fresh(table.table) && table.ledger.entries == map[]
    {
      this.lsh := lsh;
      table := new LSHUniformHashTable<Str>(uhsize);
      live := {};
    }

    method Add(te: Str, L: nat) returns (r: nat)
      requires Valid() && L == |lsh.g|
      modifies this, table, table.table, table.ledger.entries.Keys
      ensures Valid() && fresh(table.ledger.entries.Keys - old(table.ledger.entries.Keys))
      ensures live == old(live) + {te}
      ensures var keys := lsh.KeysOf(te, table.table.Length);
              && (forall l :: 0 <= l < |keys| ==> keys[l].0 < table.table.Length)
              && r == CodeSum(old(table.table[..]), old(table.FilesNow()), keys, L) / L
    {
      hide Consistent, Indexes, FileAll, UnfileAll;
      var keys := lsh.LKeysFromStr(te, table.table.Length);
      assert keys == KeysOf()(te);
      AddIndexes(table.FilesNow(), live, KeysOf(), te);
      r := table.Add(te, keys);
      live := live + {te};
    }

    /** The result is 1 when the string was live and its key pairs are distinct, else 0. */
    method Remove(te: Str, L: nat) returns (r: nat)
      requires Valid() && L == |lsh.g|
      modifies this, table, table.table, table.ledger.entries.Keys
      ensures Valid() && table.ledger.entries.Keys == old(table.ledger.entries.Keys)
      ensures live == old(live) - {te}
      ensures r == if te in old(live) && Distinct(lsh.KeysOf(te, table.table.Length)) then 1 else 0
    {
      hide Consistent, Indexes, FileAll, UnfileAll;
      var keys := lsh.LKeysFromStr(te, table.table.Length);
      assert keys == KeysOf()(te);
      RemoveIndexes(table.FilesNow(), live, KeysOf(), te);
      LiveIsFiled(table.FilesNow(), live, KeysOf(), te);
      r := table.Remove(te, keys);
      live := live - {te};
    }

    /** The live strings that share a key pair with te, so all that agree with te on the bits of some mask. */
    method GetLElts(te: Str, L: nat) returns (s: set<Str>)
      requires Valid() && L == |lsh.g|
      ensures s == Scan(live, lsh.KeysOf(te, table.table.Length), KeysOf())
      ensures forall x :: x in s <==>
                && x in live
                && exists l, l' :: && 0 <= l < L && 0 <= l' < L
                                   && lsh.KeyAt(x, l, table.table.Length) == lsh.KeyAt(te, l', table.table.Length)
      ensures forall x, l :: x in live && 0 <= l < L && AgreeOn(lsh.g[l], x, te) ==> x in s
    {
      var keys := lsh.LKeysFromStr(te, table.table.Length);
      s := table.GetLElts(keys);
      LookupIsScan(table.FilesNow(), live, KeysOf(), keys);
      forall x
        ensures ShareKey(KeysOf()(x), keys) <==>
                exists l, l' :: && 0 <= l < L && 0 <= l' < L
                                && lsh.KeyAt(x, l, table.table.Length) == lsh.KeyAt(te, l', table.table.Length)
      {
        SharedAt(lsh, x, te, table.table.Length);
      }
      forall x, l | x in live && 0 <= l < L && AgreeOn(lsh.g[l], x, te)
        ensures x in s
      {
        lsh.AgreementSharesKey(x, te, l, table.table.Length);
        assert ShareKey(KeysOf()(x), keys);
      }
    }
  }

  /** Two strings share a key pair when one has at some mask what the other has at some mask. */
  lemma SharedAt(lsh: LSHSystemHamming, x: Str, y: Str, hsize: nat)
    requires lsh.Valid() && hsize > 0
    ensures ShareKey(lsh.KeysOf(x, hsize), lsh.KeysOf(y, hsize)) <==>
            exists l, l' :: && 0 <= l < |lsh.g| && 0 <= l' < |lsh.g| && lsh.KeyAt(x, l, hsize) == lsh.KeyAt(y, l', hsize)
  {
    var a, b := lsh.KeysOf(x, hsize), lsh.KeysOf(y, hsize);
    if ShareKey(a, b) {
      var k :| k in a && k in b;
      var l :| 0 <= l < |a| && a[l] == k;
      var l' :| 0 <= l' < |b| && b[l'] == k;
      assert lsh.KeyAt(x, l, hsize) == lsh.KeyAt(y, l', hsize);
    }
    if l, l' :| 0 <= l < |lsh.g| && 0 <= l' < |lsh.g| && lsh.KeyAt(x, l, hsize) == lsh.KeyAt(y, l', hsize) {
      assert a[l] in a && b[l'] in b;
    }
  }

  /** A live element is filed under each of its key pairs, another under none of its own. */
  lemma LiveIsFiled<T>(m: Files<T>, live: set<T>, keysOf: T -> seq<KeyPair>, x: T)
    requires Indexes(m, live, keysOf) && |keysOf(x)| > 0
    ensures FiledEverywhere(m, keysOf(x), x) <==> x in live
  {
    forall k | k in keysOf(x)
      ensures x in Under(m, k) <==> x in live
    {
      assert Under(m, k) == FiledUnderKey(live, k, keysOf);
    }
    assert keysOf(x)[0] in keysOf(x);
  }
}
