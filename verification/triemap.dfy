/**
 * `TrieMap<K, V>` of src/lib.rs: a root-level sorted table (`keys`, `links`), an
 * arena of nodes (`data`) addressed by position, and the count of stored values
 * (`length`). The key unit type `K` is `int`; the stored `Rc<V>` is a plain `V`.
 *
 * The ghost fields give the public view: `Contents` is the map from key
 * sequences to values that the structure represents, and `paths`/`index` record
 * which key sequence leads to which node (see module Arena).
 */
module TrieMaps {
  import opened Options
  import opened Tables
  import opened Arena

  /**
   * What `get` answers for `key` when the map holds `contents`: the stored value,
   * but only for keys of two or more units. The source sets its found flag only
   * inside the loop over the units after the first, so an empty key and a key of
   * one unit both give `None` whatever is stored.
   */
  ghost function Lookup<V>(contents: map<seq<int>, V>, key: seq<int>): Option<V> {
    if |key| >= 2 && key in contents then Some(contents[key]) else None
  }

  /** After storing `v` under `k`, `get(k)` gives `v` when `k` has two or more units, and every other key reads as before. */
  lemma LookupAfterInsert<V>(contents: map<seq<int>, V>, k: seq<int>, v: V, key: seq<int>)
    requires k != []
    ensures Lookup(contents[k := v], key) == if key == k && |k| >= 2 then Some(v) else Lookup(contents, key)
  {
  }

  /** The empty key, and a key of one unit even when a value is stored under it, read as absent. */
  lemma LookupShortKey<V>(contents: map<seq<int>, V>, key: seq<int>)
    requires |key| <= 1
    ensures Lookup(contents, key) == None
  {
  }

  class TrieMap<V> {
    var keys: seq<int>
    var links: seq<nat>
    var data: seq<Node<V>>
    var length: nat

    ghost var paths: seq<seq<int>>
    ghost var index: map<seq<int>, nat>
    ghost var Contents: map<seq<int>, V>

    ghost predicate Valid()
      reads this
    {
      Wf(keys, links, data, paths, index, Contents, length)
    }

    /** `new_empty`: no root entries, an empty arena, no values. */
    constructor NewEmpty()
      ensures Valid() && Contents == map[]
      ensures keys == [] && links == [] && data == [] && length == 0
    {
      keys, links, data, length := [], [], [], 0;
      paths, index, Contents := [], map[], map[];
    }

    /** `len`: the number of keys holding a value, which is also the number of arena slots with a value. */
    function Len(): (r: nat)
      reads this
      requires Valid()
      ensures r == |Contents| && r == ValueCount(data)
    {
      length
    }

    /**
     * `insert`: walks `key` one unit at a time from the root table down, splicing
     * a new (unit, index) pair into a table and pushing an empty node onto the
     * arena wherever the unit is missing, then stores `value` at the last node.
     * An empty key changes nothing. Nodes are only ever pushed, never moved: every
     * old node keeps its position, path and parent, and only the nodes along
     * `key` change; every new node lies along `key`, and only the one at its end
     * holds a value.
     */
    method Insert(key: seq<int>, value: V)
      requires Valid()
      modifies this
      ensures Valid()
      ensures Contents == if key == [] then old(Contents) else old(Contents)[key := value]
      ensures length == old(length) + (if key != [] && key !in old(Contents) then 1 else 0)
      ensures old(|data|) <= |data| <= old(|data|) + |key|
      ensures forall m | 0 <= m < old(|data|) :: Kept(old(data), old(paths), data, paths, key, m)
      ensures forall m | old(|data|) <= m < |data| :: Added(data, paths, key, m)
      ensures key == [] ==> keys == old(keys) && links == old(links) && data == old(data)
    {
      if key == [] {
        return;
      }
      var n: nat := InsertRoot(key);
      var j := 1;
      while j < |key|
        invariant 1 <= j <= |key|
        invariant Valid()
        invariant n < |data| && paths[n] == key[..j]
        invariant Contents == old(Contents) && length == old(length)
        invariant old(|data|) <= |data| <= old(|data|) + j
        invariant forall m | 0 <= m < old(|data|) :: Kept(old(data), old(paths), data, paths, key, m)
        invariant forall m | old(|data|) <= m < |data| :: Fresh(data, paths, key, m)
      {
        n := InsertStep(old(data), old(paths), key, j, n);
        j := j + 1;
      }
      assert key[..j] == key;
      ghost var d := data;
      Store(n, value);
      FrameAfterSet(old(data), old(paths), d, paths, key, n, value, data);
    }

    /**
     * The first unit of `insert`: the node reached by `key[..1]`, found in the
     * root table or added to it. Every node already in the arena stays `Kept`,
     * and a node pushed here is `Fresh`.
     */
    method InsertRoot(key: seq<int>) returns (n: nat)
      requires Valid() && key != []
      modifies this
      ensures Valid() && n < |data| && paths[n] == key[..1]
      ensures Contents == old(Contents) && length == old(length)
      ensures old(|data|) <= |data| <= old(|data|) + 1
      ensures forall m | 0 <= m < old(|data|) :: Kept(old(data), old(paths), data, paths, key, m)
      ensures forall m | old(|data|) <= m < |data| :: Fresh(data, paths, key, m)
    {
      var start := key[0];
      var s := BinarySearch(keys, start);
      assert key[..1] == [start] && key[..1] <= key;
      match s {
        case Found(i) =>
          assert RootEntryOk(keys, links, data, paths, i);
          n := links[i];
        case Missing(i) =>
          ghost var d, p := data, paths;
          n := AddRootChild(i, start);
          KeptAfterPush(old(data), old(paths), d, p, key, data, [start]);
          FreshAfterPush(old(|data|), d, p, key, data, [start]);
      }
    }

    /**
     * One pass of the loop of `insert` over the units after the first: from node
     * `n`, reached by `key[..j]`, to the node reached by `key[..j + 1]`, found in
     * `n`'s table or added to it. Every node that was in the arena when the
     * insertion began (`data0`, `paths0`) stays `Kept`, and every node pushed
     * since stays `Fresh`.
     */
    method InsertStep(ghost data0: seq<Node<V>>, ghost paths0: seq<seq<int>>, key: seq<int>, j: nat, n: nat)
      returns (c: nat)
      requires Valid() && 1 <= j < |key| && n < |data| && paths[n] == key[..j]
      requires |data0| <= |data|
      requires forall m | 0 <= m < |data0| :: Kept(data0, paths0, data, paths, key, m)
      requires forall m | |data0| <= m < |data| :: Fresh(data, paths, key, m)
      modifies this
      ensures Valid() && c < |data| && paths[c] == key[..j + 1]
      ensures Contents == old(Contents) && length == old(length)
      ensures old(|data|) <= |data| <= old(|data|) + 1
      ensures forall m | 0 <= m < |data0| :: Kept(data0, paths0, data, paths, key, m)
      ensures forall m | |data0| <= m < |data| :: Fresh(data, paths, key, m)
    {
      var k := key[j];
      assert key[..j + 1] == key[..j] + [k] && key[..j + 1] <= key;
      assert NodeOk(data, paths, n);
      var t := BinarySearch(data[n].keys, k);
      match t {
        case Found(i) =>
          assert EntryOk(data, paths, n, i);
          c := data[n].links[i];
        case Missing(i) =>
          ghost var d, p := data, paths;
          GrowNodeFrame(d, n, i, k);
          c := AddChild(n, i, k);
          KeptAfterPush(data0, paths0, d, p, key, data, key[..j + 1]);
          FreshAfterPush(|data0|, d, p, key, data, key[..j + 1]);
      }
    }

    /**
     * The miss branch at the root of `insert`: `u` goes into the root table at
     * position `i`, beside the index of a new parentless node pushed onto the arena.
     */
    method AddRootChild(i: nat, u: int) returns (c: nat)
      requires Valid() && i <= |keys|
      requires forall j | 0 <= j < i :: keys[j] < u
      requires forall j | i <= j < |keys| :: u < keys[j]
      modifies this
      ensures Valid()
      ensures keys == InsertAt(old(keys), i, u) && links == InsertAt(old(links), i, c)
      ensures data == old(data) + [NewNode(None, None)] && c == old(|data|)
      ensures paths == old(paths) + [[u]]
      ensures Contents == old(Contents) && length == old(length)
    {
      AddRootChildKeepsWf(keys, links, data, paths, index, Contents, length, i, u);
      keys := InsertAt(keys, i, u);
      data := data + [NewNode(None, None)];
      c := |data| - 1;
      links := InsertAt(links, i, c);
      paths, index := paths + [[u]], index[[u] := c];
    }

    /**
     * The miss branch below the root of `insert`: `u` goes into node `n`'s table
     * at position `i`, beside the index of a new node, whose parent is `n`,
     * pushed onto the arena.
     */
    method AddChild(n: nat, i: nat, u: int) returns (c: nat)
      requires Valid() && n < |data| && i <= |data[n].keys| == |data[n].links|
      requires forall j | 0 <= j < i :: data[n].keys[j] < u
      requires forall j | i <= j < |data[n].keys| :: u < data[n].keys[j]
      modifies this
      ensures Valid()
      ensures keys == old(keys) && links == old(links)
      ensures data == GrowNode(old(data), n, i, u)
      ensures c == old(|data|) && paths == old(paths) + [old(paths[n]) + [u]]
      ensures Contents == old(Contents) && length == old(length)
    {
      ghost var p := paths[n] + [u];
      AddChildKeepsWf(keys, links, data, paths, index, Contents, length, n, i, u);
      var node := data[n];
      node := node.(keys := InsertAt(node.keys, i, u));
      c := |data|;
      node := node.(links := InsertAt(node.links, i, c));
      data := data[n := node] + [NewNode(Some(n), None)];
      paths, index := paths + [p], index[p := c];
    }

    /**
     * The end of `insert`: the count grows when node `n` held no value, and `n`
     * then holds `value`.
     */
    method Store(n: nat, value: V)
      requires Valid() && n < |data|
      modifies this
      ensures Valid()
      ensures keys == old(keys) && links == old(links) && paths == old(paths)
      ensures data == old(data[n := data[n].(value := Some(value))])
      ensures Contents == old(Contents)[paths[n] := value]
      ensures length == old(length) + (if paths[n] in old(Contents) then 0 else 1)
    {
      SetValueKeepsWf(keys, links, data, paths, index, Contents, length, n, value);
      if data[n].value.None? {
        length := length + 1;
      }
      data := data[n := data[n].(value := Some(value))];
      Contents := Contents[paths[n] := value];
    }

    /**
     * `get`: the same descent without changes; any unit missing from a table
     * gives `None`. The source only marks the key as found inside the loop over
     * the units after the first, so a key of one unit gives `None` even when a
     * value is stored under it.
     */
    method Get(key: seq<int>) returns (r: Option<V>)
      requires Valid()
      ensures r == Lookup(Contents, key)
    {
      if key == [] {
        return None;
      }
      var start := key[0];
      var s := BinarySearch(keys, start);
      match s {
      case Missing(_) =>
        AbsentAtRoot(keys, links, data, paths, index, Contents, length, start);
        PrefixClosed(keys, links, data, paths, index, Contents, length, key, 1);
        assert key[..1] == [start];
        r := None;
      case Found(i) =>
        assert key[..1] == [start];
        assert RootEntryOk(keys, links, data, paths, i);
        var n: nat := links[i];
        var keyFound := false;
        var j := 1;
        while j < |key|
          invariant 1 <= j <= |key|
          invariant n < |data| && paths[n] == key[..j]
          invariant keyFound == (j >= 2)
        {
          keyFound := true;
          var k := key[j];
          assert key[..j + 1] == key[..j] + [k];
          assert NodeOk(data, paths, n);
          var t := BinarySearch(data[n].keys, k);
          match t {
            case Found(i') =>
              assert EntryOk(data, paths, n, i');
              n := data[n].links[i'];
            case Missing(_) =>
              AbsentBelow(keys, links, data, paths, index, Contents, length, n, k);
              PrefixClosed(keys, links, data, paths, index, Contents, length, key, j + 1);
              keyFound := false;
              break;
          }
          j := j + 1;
        }
        if keyFound {
          assert key[..j] == key;
          assert ValueAt(data, paths, Contents, n);
          r := data[n].value;
        } else {
          r := None;
        }
      }
    }

    /** `remove` is a stub in the source: it returns `None` and changes nothing. */
    method Remove(key: seq<int>) returns (r: Option<V>)
      modifies this
      ensures r == None && unchanged(this)
    {
      r := None;
    }

    /** `append` is a stub in the source: neither map changes. */
    method Append(other: TrieMap<V>)
      modifies this, other
      ensures unchanged(this) && unchanged(other)
    {
    }
  }
}
