/**
 * The unit tests of src/lib.rs as verified scenarios. The keys are the bytes of
 * `format!("{:08}", i)` for `i` in 0..10: seven ASCII '0' bytes (48) and then
 * the digit of `i`.
 */
module Scenarios {
  import opened Options
  import opened TrieMaps

  /** The bytes of `format!("{:08}", i)` for a one-digit `i`. */
  function PaddedKey(i: nat): seq<int>
    requires i < 10
  {
    [48, 48, 48, 48, 48, 48, 48, 48 + i]
  }

  /** Every key of the map has eight units and ends in the digit of a number below `i`. */
  ghost predicate PaddedBelow<V>(contents: map<seq<int>, V>, i: nat) {
    forall k | k in contents :: |k| == 8 && 48 <= k[7] < 48 + i
  }

  /** The padded key of every number below `i` is stored with that number as its value. */
  ghost predicate HoldsBelow(contents: map<seq<int>, nat>, i: nat)
    requires i <= 10
  {
    forall j | 0 <= j < i :: PaddedKey(j) in contents && contents[PaddedKey(j)] == j
  }

  /**
   * The insertion loop both tests share: the padded keys of 0..10 go in with
   * their numbers as values.
   */
  method FillTen() returns (trie: TrieMap<nat>)
    ensures fresh(trie) && trie.Valid() && trie.Len() == 10
    ensures PaddedBelow(trie.Contents, 10)
    ensures HoldsBelow(trie.Contents, 10)
  {
    trie := new TrieMap<nat>.NewEmpty();
    var i := 0;
    while i < 10
      invariant 0 <= i <= 10
      invariant fresh(trie) && trie.Valid() && trie.Len() == i
      invariant PaddedBelow(trie.Contents, i)
      invariant HoldsBelow(trie.Contents, i)
    {
      var s := PaddedKey(i);
      assert s !in trie.Contents;
      HoldsAfterInsert(trie.Contents, i);
      trie.Insert(s, i);
      i := i + 1;
    }
  }

  /** Storing the number `i` under its padded key extends `HoldsBelow` by one: no earlier key is overwritten. */
  lemma HoldsAfterInsert(contents: map<seq<int>, nat>, i: nat)
    requires i < 10 && HoldsBelow(contents, i)
    ensures HoldsBelow(contents[PaddedKey(i) := i], i + 1)
  {
    var c := contents[PaddedKey(i) := i];
    forall j | 0 <= j < i + 1 ensures PaddedKey(j) in c && c[PaddedKey(j)] == j {
      if j < i {
        assert PaddedKey(j)[7] != PaddedKey(i)[7];
      }
    }
  }

  /** `trie_insert`: ten distinct keys give a length of ten. */
  method TrieInsert() returns (len: nat)
    ensures len == 10
  {
    var trie := FillTen();
    len := trie.Len();
  }

  /**
   * `trie_get`: after the same ten insertions the length is ten, `get("100")`
   * finds nothing, and `get` on each inserted key gives its number.
   */
  method TrieGet() returns (len: nat, missing: Option<nat>, hits: seq<Option<nat>>)
    ensures len == 10 && missing == None
    ensures |hits| == 10 && forall i | 0 <= i < 10 :: hits[i] == Some(i)
  {
    var trie := FillTen();
    len := trie.Len();
    missing := trie.Get([49, 48, 48]);
    hits := [];
    var i := 0;
    while i < 10
      invariant 0 <= i <= 10
      invariant trie.Valid() && HoldsBelow(trie.Contents, 10)
      invariant |hits| == i && forall j | 0 <= j < i :: hits[j] == Some(j)
    {
      var r := trie.Get(PaddedKey(i));
      hits := hits + [r];
      i := i + 1;
    }
  }

  /** A key of one unit is stored, yet `get` on it gives `None`. */
  method SingleUnitKey() returns (len: nat, r: Option<nat>)
    ensures len == 1 && r == None
  {
    var trie := new TrieMap<nat>.NewEmpty();
    trie.Insert([48], 0);
    len := trie.Len();
    r := trie.Get([48]);
  }

  /** An empty key is ignored by `insert` and found by nobody. */
  method EmptyKey() returns (len: nat, r: Option<nat>)
    ensures len == 0 && r == None
  {
    var trie := new TrieMap<nat>.NewEmpty();
    trie.Insert([], 7);
    len := trie.Len();
    r := trie.Get([]);
  }

  /** Inserting the same key twice keeps the second value and counts the key once. */
  method Overwrite() returns (len: nat, r: Option<nat>)
    ensures len == 1 && r == Some(2)
  {
    var trie := new TrieMap<nat>.NewEmpty();
    trie.Insert([97, 98], 1);
    trie.Insert([97, 98], 2);
    len := trie.Len();
    r := trie.Get([97, 98]);
  }

  /** A strict prefix of a stored key has a node but no value, and reads as absent. */
  method PrefixNotStored() returns (len: nat, r: Option<nat>)
    ensures len == 1 && r == None
  {
    var trie := new TrieMap<nat>.NewEmpty();
    trie.Insert([97, 98, 99], 1);
    len := trie.Len();
    r := trie.Get([97, 98]);
  }
}
