/**
 * The sorted branching table of one trie level: two parallel sequences, the key
 * units (`keys`) and the arena indices they lead to (`links`). This module holds
 * the table's invariant, its meaning as a finite map from unit to link, the
 * binary search used to descend, and the positional insert used to grow it.
 */
module Tables {
  import opened Options

  /** Non-decreasing: the order `slice::binary_search` needs. */
  ghost predicate Sorted(s: seq<int>) {
    forall i, j | 0 <= i < j < |s| :: s[i] <= s[j]
  }

  /** Strictly increasing: sorted and free of duplicate units. */
  ghost predicate StrictlySorted(s: seq<int>) {
    forall i, j | 0 <= i < j < |s| :: s[i] < s[j]
  }

  /** A well-formed table: parallel sequences of equal length, units strictly increasing. */
  ghost predicate TableOk(keys: seq<int>, links: seq<nat>) {
    |keys| == |links| && StrictlySorted(keys)
  }

  /** The table read as a map: the link stored beside the first occurrence of `u`. */
  function Child(keys: seq<int>, links: seq<nat>, u: int): (c: Option<nat>)
    requires |keys| == |links|
    ensures c.Some? <==> u in keys
    ensures c.Some? ==> c.value in links
  {
    if keys == [] then None
    else if keys[0] == u then Some(links[0])
    else Child(keys[1..], links[1..], u)
  }

  /** `Vec::insert(i, x)`: `x` lands at position `i` and the elements from `i` on shift right by one. */
  function InsertAt<T>(s: seq<T>, i: nat, x: T): (r: seq<T>)
    requires i <= |s|
    ensures |r| == |s| + 1 && r[i] == x
    ensures forall j | 0 <= j < i :: r[j] == s[j]
    ensures forall j | i < j < |r| :: r[j] == s[j - 1]
  {
    s[..i] + [x] + s[i..]
  }

  /** Outcome of `slice::binary_search`: `Ok(i)` and `Err(i)` of the source. */
  datatype Search = Found(index: nat) | Missing(index: nat)

  /**
   * `slice::binary_search` on a sorted slice: either an index holding `x`, or the
   * one position where `x` can be inserted keeping the slice sorted.
   */
  method BinarySearch(a: seq<int>, x: int) returns (r: Search)
    requires Sorted(a)
    ensures r.Found? ==> r.index < |a| && a[r.index] == x
    ensures r.Missing? ==> r.index <= |a| && x !in a
    ensures r.Missing? ==> forall j | 0 <= j < r.index :: a[j] < x
    ensures r.Missing? ==> forall j | r.index <= j < |a| :: x < a[j]
  {
    var lo, hi := 0, |a|;
    while lo < hi
      invariant 0 <= lo <= hi <= |a|
      invariant forall j | 0 <= j < lo :: a[j] < x
      invariant forall j | hi <= j < |a| :: x < a[j]
    {
      var mid := lo + (hi - lo) / 2;
      if a[mid] < x {
        lo := mid + 1;
      } else if x < a[mid] {
        hi := mid;
      } else {
        return Found(mid);
      }
    }
    r := Missing(lo);
  }

  /** In a duplicate-free table the unit at position `i` leads to the link at position `i`. */
  lemma {:induction false} ChildAt(keys: seq<int>, links: seq<nat>, i: nat)
    requires TableOk(keys, links) && i < |keys|
    ensures Child(keys, links, keys[i]) == Some(links[i])
  {
    if i > 0 {
      assert keys[0] < keys[i];
      ChildAt(keys[1..], links[1..], i - 1);
    }
  }

  /**
   * Splicing a fresh pair (u, l) into both sequences at the same position adds
   * exactly the entry u -> l to the map and leaves every other unit's link alone.
   */
  lemma {:induction false} ChildInsert(keys: seq<int>, links: seq<nat>, i: nat, u: int, l: nat, w: int)
    requires |keys| == |links| && i <= |keys| && u !in keys
    ensures Child(InsertAt(keys, i, u), InsertAt(links, i, l), w)
         == if w == u then Some(l) else Child(keys, links, w)
  {
    var keys', links' := InsertAt(keys, i, u), InsertAt(links, i, l);
    if i == 0 {
      assert keys'[1..] == keys && links'[1..] == links;
    } else {
      assert keys'[1..] == InsertAt(keys[1..], i - 1, u);
      assert links'[1..] == InsertAt(links[1..], i - 1, l);
      ChildInsert(keys[1..], links[1..], i - 1, u, l, w);
    }
  }

  /** Inserting at the position `BinarySearch` reports as `Missing` keeps the units strictly sorted. */
  lemma InsertKeepsSorted(s: seq<int>, i: nat, x: int)
    requires StrictlySorted(s) && i <= |s|
    requires forall j | 0 <= j < i :: s[j] < x
    requires forall j | i <= j < |s| :: x < s[j]
    ensures StrictlySorted(InsertAt(s, i, x))
  {
    var r := InsertAt(s, i, x);
    forall a, b | 0 <= a < b < |r| ensures r[a] < r[b] {
      if b < i {
      } else if b == i {
      } else if a < i {
        assert r[b] == s[b - 1];
      } else if a == i {
        assert r[b] == s[b - 1];
      } else {
        assert r[a] == s[a - 1] && r[b] == s[b - 1];
      }
    }
  }
}
