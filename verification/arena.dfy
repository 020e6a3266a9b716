/**
 * The node arena of src/lib.rs and the invariant a `TrieMap` keeps over it.
 *
 * The root table (`keys`, `links`) is kept outside the arena; every other node
 * lives in `data` and is named by its position there. Three ghost values carry
 * the meaning of the structure: `paths[m]` is the key sequence that leads to node
 * `m`, `index` is the inverse of `paths`, and `contents` is the map from key
 * sequences to the values stored under them. `Wf` ties them to the concrete
 * fields. It is stated on plain values so that each state change of `insert`
 * can be proved to keep it apart from the class that performs the change.
 */
module Arena {
  import opened Options
  import opened Tables

  /** One arena slot: parent index, sorted branching table and optional value. */
  datatype Node<V> = Node(parent: Option<nat>, links: seq<nat>, keys: seq<int>, value: Option<V>)

  /** `Node::new`: a node with the given parent and value and an empty table. */
  function NewNode<V>(parent: Option<nat>, value: Option<V>): (n: Node<V>)
    ensures n.parent == parent && n.value == value
    ensures n.keys == [] && TableOk(n.keys, n.links)
  {
    Node(parent, [], [], value)
  }

  /** The number of arena slots holding a value. */
  function ValueCount<V>(data: seq<Node<V>>): nat {
    if data == [] then 0
    else ValueCount(data[..|data| - 1]) + (if data[|data| - 1].value.Some? then 1 else 0)
  }

  /** What the abstract map stores under `p`, as an optional value. */
  function Stored<V>(contents: map<seq<int>, V>, p: seq<int>): Option<V> {
    if p in contents then Some(contents[p]) else None
  }

  /** The last unit of a non-empty path. */
  function Last(p: seq<int>): int
    requires p != []
  {
    p[|p| - 1]
  }

  /** Root entry `i` leads to an arena node whose path is that single unit. */
  ghost predicate RootEntryOk<V>(keys: seq<int>, links: seq<nat>, data: seq<Node<V>>, paths: seq<seq<int>>, i: nat) {
    i < |keys| == |links| && links[i] < |data| == |paths| && paths[links[i]] == [keys[i]]
  }

  /** The root table is well formed and every entry leads to a node one unit down. */
  ghost predicate RootOk<V>(keys: seq<int>, links: seq<nat>, data: seq<Node<V>>, paths: seq<seq<int>>) {
    |paths| == |data| && TableOk(keys, links) &&
    forall i | 0 <= i < |links| :: RootEntryOk(keys, links, data, paths, i)
  }

  /** Entry `i` of node `m`'s table leads to a node whose path is one unit longer. */
  ghost predicate EntryOk<V>(data: seq<Node<V>>, paths: seq<seq<int>>, m: nat, i: nat) {
    m < |data| == |paths| && i < |data[m].keys| == |data[m].links| &&
    data[m].links[i] < |data| && paths[data[m].links[i]] == paths[m] + [data[m].keys[i]]
  }

  /** Node `m`'s table is well formed and each entry leads one unit further down. */
  ghost predicate NodeOk<V>(data: seq<Node<V>>, paths: seq<seq<int>>, m: nat) {
    m < |data| == |paths| && TableOk(data[m].keys, data[m].links) &&
    forall i | 0 <= i < |data[m].links| :: EntryOk(data, paths, m, i)
  }

  ghost predicate AllNodesOk<V>(data: seq<Node<V>>, paths: seq<seq<int>>) {
    |paths| == |data| && forall m | 0 <= m < |data| :: NodeOk(data, paths, m)
  }

  /** Node `m`'s path is in `index`, and `index` sends it back to `m`. */
  ghost predicate Indexed(paths: seq<seq<int>>, index: map<seq<int>, nat>, m: nat) {
    m < |paths| && paths[m] in index && index[paths[m]] == m
  }

  /** The path `p` is in `index`, and the node it names has path `p`. */
  ghost predicate Located(paths: seq<seq<int>>, index: map<seq<int>, nat>, p: seq<int>) {
    p in index && index[p] < |paths| && paths[index[p]] == p
  }

  /** `index` is the inverse of `paths`: no two nodes share a path. */
  ghost predicate IndexOk(paths: seq<seq<int>>, index: map<seq<int>, nat>) {
    (forall m | 0 <= m < |paths| :: Indexed(paths, index, m)) &&
    (forall p {:trigger Located(paths, index, p)} | p in index :: Located(paths, index, p))
  }

  /**
   * Node `m`'s parent field: `None` for a child of the root table, which maps the
   * node's one unit to `m`; otherwise the node one unit up, whose table maps the
   * last unit of `m`'s path to `m`.
   */
  ghost predicate ParentOk<V>(keys: seq<int>, links: seq<nat>, data: seq<Node<V>>, paths: seq<seq<int>>, m: nat) {
    m < |data| == |paths| && |keys| == |links| &&
    match data[m].parent
    case None => |paths[m]| == 1 && Child(keys, links, paths[m][0]) == Some(m)
    case Some(par) =>
      par < |data| && |paths[m]| >= 2 && paths[par] + [Last(paths[m])] == paths[m] &&
      |data[par].keys| == |data[par].links| &&
      Child(data[par].keys, data[par].links, Last(paths[m])) == Some(m)
  }

  ghost predicate AllParentsOk<V>(keys: seq<int>, links: seq<nat>, data: seq<Node<V>>, paths: seq<seq<int>>) {
    forall m | 0 <= m < |data| :: ParentOk(keys, links, data, paths, m)
  }

  /** Slot `m`'s value is what the abstract map stores under its path. */
  ghost predicate ValueAt<V>(data: seq<Node<V>>, paths: seq<seq<int>>, contents: map<seq<int>, V>, m: nat) {
    m < |data| == |paths| && data[m].value == Stored(contents, paths[m])
  }

  /** Every slot's value is what the abstract map stores under its path, and every stored key has a node. */
  ghost predicate ValuesOk<V>(data: seq<Node<V>>, paths: seq<seq<int>>, index: map<seq<int>, nat>, contents: map<seq<int>, V>) {
    |paths| == |data| &&
    (forall m | 0 <= m < |data| :: ValueAt(data, paths, contents, m)) &&
    contents.Keys <= index.Keys
  }

  /** The whole invariant of a `TrieMap`. */
  ghost predicate Wf<V>(keys: seq<int>, links: seq<nat>, data: seq<Node<V>>, paths: seq<seq<int>>,
                        index: map<seq<int>, nat>, contents: map<seq<int>, V>, length: nat) {
    RootOk(keys, links, data, paths) &&
    AllNodesOk(data, paths) &&
    IndexOk(paths, index) &&
    AllParentsOk(keys, links, data, paths) &&
    ValuesOk(data, paths, index, contents) &&
    length == |contents| && length == ValueCount(data)
  }

  /** The arena after the root table gains the unit `u` at position `i`. */
  function GrowRoot<V>(data: seq<Node<V>>): seq<Node<V>> {
    data + [NewNode(None, None)]
  }

  /** The arena after node `n`'s table gains the unit `u` at position `i`, pointing at a new last slot. */
  function GrowNode<V>(data: seq<Node<V>>, n: nat, i: nat, u: int): seq<Node<V>>
    requires n < |data| && i <= |data[n].keys| && i <= |data[n].links|
  {
    data[n := data[n].(keys := InsertAt(data[n].keys, i, u), links := InsertAt(data[n].links, i, |data|))]
      + [NewNode(Some(n), None)]
  }

  // ---------------------------------------------------------------------------
  // Counting values

  lemma {:induction false} ValueCountAppend<V>(data: seq<Node<V>>, x: Node<V>)
    ensures ValueCount(data + [x]) == ValueCount(data) + (if x.value.Some? then 1 else 0)
  {
    assert (data + [x])[..|data|] == data;
  }

  /** Replacing one slot changes the count by the difference its value makes. */
  lemma {:induction false} ValueCountUpdate<V>(data: seq<Node<V>>, n: nat, x: Node<V>)
    requires n < |data|
    ensures ValueCount(data[n := x]) + (if data[n].value.Some? then 1 else 0)
         == ValueCount(data) + (if x.value.Some? then 1 else 0)
  {
    var k := |data| - 1;
    if n < k {
      assert data[n := x][..k] == data[..k][n := x];
      ValueCountUpdate(data[..k], n, x);
    } else {
      assert data[n := x][..k] == data[..k];
    }
  }

  // ---------------------------------------------------------------------------
  // Paths

  /** A unit missing from node `n`'s table means no node has path `paths[n] + [u]`. */
  lemma AbsentBelow<V>(keys: seq<int>, links: seq<nat>, data: seq<Node<V>>, paths: seq<seq<int>>,
                       index: map<seq<int>, nat>, contents: map<seq<int>, V>, length: nat, n: nat, u: int)
    requires Wf(keys, links, data, paths, index, contents, length) && n < |data|
    ensures paths[n] + [u] in index ==> u in data[n].keys
  {
    var p := paths[n] + [u];
    if p in index {
      assert Located(paths, index, p);
      var m := index[p];
      assert ParentOk(keys, links, data, paths, m);
      assert ParentOk(keys, links, data, paths, n);
      assert |p| >= 2;
      var par := data[m].parent.value;
      assert paths[par] + [u] == p;
      assert paths[par] == p[..|p| - 1] == paths[n];
      assert Indexed(paths, index, par) && Indexed(paths, index, n);
    }
  }

  /** A unit missing from the root table means no node has path `[u]`. */
  lemma AbsentAtRoot<V>(keys: seq<int>, links: seq<nat>, data: seq<Node<V>>, paths: seq<seq<int>>,
                        index: map<seq<int>, nat>, contents: map<seq<int>, V>, length: nat, u: int)
    requires Wf(keys, links, data, paths, index, contents, length)
    ensures [u] in index ==> u in keys
  {
    if [u] in index {
      assert Located(paths, index, [u]);
      var m := index[[u]];
      assert ParentOk(keys, links, data, paths, m);
    }
  }

  /** The set of paths that have a node is closed under non-empty prefixes. */
  lemma {:induction false} PrefixClosed<V>(keys: seq<int>, links: seq<nat>, data: seq<Node<V>>, paths: seq<seq<int>>,
                                           index: map<seq<int>, nat>, contents: map<seq<int>, V>, length: nat,
                                           p: seq<int>, l: nat)
    requires Wf(keys, links, data, paths, index, contents, length) && 1 <= l <= |p|
    ensures p in index ==> p[..l] in index
    decreases |p|
  {
    if p in index && l < |p| {
      assert Located(paths, index, p);
      var m := index[p];
      assert ParentOk(keys, links, data, paths, m);
      var par := data[m].parent.value;
      var q := paths[par];
      assert q + [Last(p)] == p;
      assert q == p[..|p| - 1];
      assert q[..l] == p[..l];
      assert Indexed(paths, index, par);
      PrefixClosed(keys, links, data, paths, index, contents, length, q, l);
    } else if p in index {
      assert p[..l] == p;
    }
  }

  // ---------------------------------------------------------------------------
  // One insertion step keeps the invariant, one part at a time

  /** Pushing a slot with a path no node has yet keeps `index` the inverse of `paths`. */
  lemma IndexAfterPush(paths: seq<seq<int>>, index: map<seq<int>, nat>, p: seq<int>)
    requires IndexOk(paths, index) && p !in index
    ensures IndexOk(paths + [p], index[p := |paths|])
  {
    var paths', index' := paths + [p], index[p := |paths|];
    forall m | 0 <= m < |paths'| ensures Indexed(paths', index', m) {
      if m < |paths| {
        assert Indexed(paths, index, m);
        assert paths'[m] == paths[m] != p;
      }
    }
    forall q | q in index' ensures Located(paths', index', q) {
      if q != p {
        assert Located(paths, index, q);
      }
    }
  }

  /** Growing the arena by one slot leaves the root table's entries and their paths as they were. */
  lemma RootAfterPush<V>(keys: seq<int>, links: seq<nat>, data: seq<Node<V>>, paths: seq<seq<int>>, data': seq<Node<V>>, p: seq<int>)
    requires RootOk(keys, links, data, paths) && |data'| == |data| + 1
    ensures RootOk(keys, links, data', paths + [p])
  {
    forall j | 0 <= j < |links| ensures RootEntryOk(keys, links, data', paths + [p], j) {
      assert RootEntryOk(keys, links, data, paths, j);
    }
  }

  /** Splicing `u` into the root table where it belongs, pointing at a new slot with path `[u]`, keeps the root well formed. */
  lemma RootAfterInsert<V>(keys: seq<int>, links: seq<nat>, data: seq<Node<V>>, paths: seq<seq<int>>, i: nat, u: int)
    requires RootOk(keys, links, data, paths) && i <= |keys|
    requires forall j | 0 <= j < i :: keys[j] < u
    requires forall j | i <= j < |keys| :: u < keys[j]
    ensures RootOk(InsertAt(keys, i, u), InsertAt(links, i, |data|), GrowRoot(data), paths + [[u]])
  {
    var keys', links', data', paths' := InsertAt(keys, i, u), InsertAt(links, i, |data|), GrowRoot(data), paths + [[u]];
    InsertKeepsSorted(keys, i, u);
    forall j | 0 <= j < |links'| ensures RootEntryOk(keys', links', data', paths', j) {
      if j < i {
        assert RootEntryOk(keys, links, data, paths, j);
      } else if j > i {
        assert RootEntryOk(keys, links, data, paths, j - 1);
        assert links'[j] == links[j - 1] && keys'[j] == keys[j - 1];
      }
    }
  }

  /** Pushing an empty node keeps every table well formed. */
  lemma NodesAfterPush<V>(data: seq<Node<V>>, paths: seq<seq<int>>, parent: Option<nat>, p: seq<int>)
    requires AllNodesOk(data, paths)
    ensures AllNodesOk(data + [NewNode(parent, None)], paths + [p])
  {
    var data', paths' := data + [NewNode(parent, None)], paths + [p];
    forall m | 0 <= m < |data'| ensures NodeOk(data', paths', m) {
      if m < |data| {
        assert NodeOk(data, paths, m);
        assert data'[m] == data[m];
        forall j | 0 <= j < |data[m].links| ensures EntryOk(data', paths', m, j) {
          assert EntryOk(data, paths, m, j);
        }
      }
    }
  }

  /** Splicing `u` into node `n`'s table where it belongs, pointing at a new child, keeps every table well formed. */
  lemma NodesAfterGrow<V>(data: seq<Node<V>>, paths: seq<seq<int>>, n: nat, i: nat, u: int)
    requires AllNodesOk(data, paths) && n < |data| && i <= |data[n].keys| == |data[n].links|
    requires forall j | 0 <= j < i :: data[n].keys[j] < u
    requires forall j | i <= j < |data[n].keys| :: u < data[n].keys[j]
    ensures AllNodesOk(GrowNode(data, n, i, u), paths + [paths[n] + [u]])
  {
    assert NodeOk(data, paths, n);
    var oldNode := data[n];
    var newNode := oldNode.(keys := InsertAt(oldNode.keys, i, u), links := InsertAt(oldNode.links, i, |data|));
    var data', paths' := GrowNode(data, n, i, u), paths + [paths[n] + [u]];
    InsertKeepsSorted(oldNode.keys, i, u);
    forall m | 0 <= m < |data'| ensures NodeOk(data', paths', m) {
      if m < |data| && m != n {
        assert NodeOk(data, paths, m);
        assert data'[m] == data[m];
        forall j | 0 <= j < |data[m].links| ensures EntryOk(data', paths', m, j) {
          assert EntryOk(data, paths, m, j);
        }
      } else if m == n {
        assert data'[n] == newNode;
        forall j | 0 <= j < |newNode.links| ensures EntryOk(data', paths', n, j) {
          if j < i {
            assert EntryOk(data, paths, n, j);
          } else if j > i {
            assert EntryOk(data, paths, n, j - 1);
            assert newNode.links[j] == oldNode.links[j - 1] && newNode.keys[j] == oldNode.keys[j - 1];
          }
        }
      }
    }
  }

  /** After a new root entry for a unit no node had, every parent field still describes its node. */
  lemma ParentsAfterRootInsert<V>(keys: seq<int>, links: seq<nat>, data: seq<Node<V>>, paths: seq<seq<int>>,
                                  index: map<seq<int>, nat>, i: nat, u: int)
    requires AllParentsOk(keys, links, data, paths) && |data| == |paths|
    requires i <= |keys| == |links| && u !in keys
    requires IndexOk(paths, index) && [u] !in index
    ensures AllParentsOk(InsertAt(keys, i, u), InsertAt(links, i, |data|), GrowRoot(data), paths + [[u]])
  {
    var keys', links', data', paths' := InsertAt(keys, i, u), InsertAt(links, i, |data|), GrowRoot(data), paths + [[u]];
    forall m | 0 <= m < |data'| ensures ParentOk(keys', links', data', paths', m) {
      if m < |data| {
        assert ParentOk(keys, links, data, paths, m);
        assert Indexed(paths, index, m);
        assert data'[m] == data[m] && paths'[m] == paths[m];
        match data[m].parent {
          case None =>
            assert paths[m] == [paths[m][0]];
            ChildInsert(keys, links, i, u, |data|, paths[m][0]);
          case Some(par) =>
            assert data'[par] == data[par] && paths'[par] == paths[par];
        }
      } else {
        assert paths'[m] == [u] && paths'[m][0] == u;
        ChildInsert(keys, links, i, u, |data|, u);
      }
    }
  }

  /** After node `n` gains a child for a unit it lacked, every parent field still describes its node. */
  lemma ParentsAfterGrow<V>(keys: seq<int>, links: seq<nat>, data: seq<Node<V>>, paths: seq<seq<int>>,
                            index: map<seq<int>, nat>, n: nat, i: nat, u: int)
    requires AllParentsOk(keys, links, data, paths) && n < |data| == |paths|
    requires i <= |data[n].keys| == |data[n].links| && u !in data[n].keys
    requires IndexOk(paths, index) && paths[n] + [u] !in index
    ensures AllParentsOk(keys, links, GrowNode(data, n, i, u), paths + [paths[n] + [u]])
  {
    assert ParentOk(keys, links, data, paths, n);
    var p := paths[n] + [u];
    var data', paths' := GrowNode(data, n, i, u), paths + [p];
    forall m | 0 <= m < |data'| ensures ParentOk(keys, links, data', paths', m) {
      if m < |data| {
        assert ParentOk(keys, links, data, paths, m);
        assert Indexed(paths, index, m);
        ParentAfterGrow(keys, links, data, paths, n, i, u, m);
      } else {
        assert m == |data|;
        NewChildParent(keys, links, data, paths, n, i, u);
      }
    }
  }

  /** An existing node's parent field stays correct when node `n` gains a child for a unit it lacked. */
  lemma ParentAfterGrow<V>(keys: seq<int>, links: seq<nat>, data: seq<Node<V>>, paths: seq<seq<int>>,
                           n: nat, i: nat, u: int, m: nat)
    requires n < |data| == |paths| && m < |data|
    requires i <= |data[n].keys| == |data[n].links| && u !in data[n].keys
    requires ParentOk(keys, links, data, paths, m) && paths[m] != paths[n] + [u]
    ensures ParentOk(keys, links, GrowNode(data, n, i, u), paths + [paths[n] + [u]], m)
  {
    var data', paths' := GrowNode(data, n, i, u), paths + [paths[n] + [u]];
    assert data'[m].parent == data[m].parent && paths'[m] == paths[m];
    match data[m].parent {
      case None =>
      case Some(par) =>
        assert paths'[par] == paths[par];
        if par == n {
          assert Last(paths[m]) != u;
          assert data'[n].keys == InsertAt(data[n].keys, i, u) && data'[n].links == InsertAt(data[n].links, i, |data|);
          ChildInsert(data[n].keys, data[n].links, i, u, |data|, Last(paths[m]));
        } else {
          assert data'[par] == data[par];
        }
    }
  }

  /** The node pushed as `n`'s new child has `n` as parent, and `n`'s table leads to it. */
  lemma NewChildParent<V>(keys: seq<int>, links: seq<nat>, data: seq<Node<V>>, paths: seq<seq<int>>,
                          n: nat, i: nat, u: int)
    requires n < |data| == |paths| && ParentOk(keys, links, data, paths, n)
    requires i <= |data[n].keys| == |data[n].links| && u !in data[n].keys
    ensures ParentOk(keys, links, GrowNode(data, n, i, u), paths + [paths[n] + [u]], |data|)
  {
    var p := paths[n] + [u];
    var data', paths' := GrowNode(data, n, i, u), paths + [p];
    assert data'[n].keys == InsertAt(data[n].keys, i, u) && data'[n].links == InsertAt(data[n].links, i, |data|);
    assert paths'[n] == paths[n] && |paths[n]| >= 1;
    assert data'[|data|].parent == Some(n) && paths'[|data|] == p && Last(p) == u;
    ChildInsert(data[n].keys, data[n].links, i, u, |data|, u);
  }

  /** Pushing a valueless node for a path the map does not hold keeps values and map in step. */
  lemma ValuesAfterPush<V>(data: seq<Node<V>>, paths: seq<seq<int>>, index: map<seq<int>, nat>,
                           contents: map<seq<int>, V>, parent: Option<nat>, p: seq<int>)
    requires ValuesOk(data, paths, index, contents) && p !in index
    ensures ValuesOk(data + [NewNode(parent, None)], paths + [p], index[p := |data|], contents)
  {
    var data', paths' := data + [NewNode(parent, None)], paths + [p];
    forall m | 0 <= m < |data'| ensures ValueAt(data', paths', contents, m) {
      if m < |data| {
        assert ValueAt(data, paths, contents, m);
      }
    }
  }

  /** Changing only node `n`'s table keeps values and map in step. */
  lemma ValuesAfterTableChange<V>(data: seq<Node<V>>, paths: seq<seq<int>>, index: map<seq<int>, nat>,
                                  contents: map<seq<int>, V>, n: nat, x: Node<V>)
    requires ValuesOk(data, paths, index, contents) && n < |data| && x.value == data[n].value
    ensures ValuesOk(data[n := x], paths, index, contents)
  {
    var data' := data[n := x];
    forall m | 0 <= m < |data| ensures ValueAt(data', paths, contents, m) {
      assert ValueAt(data, paths, contents, m);
    }
  }

  /** Changing only the values in the arena leaves the tree shape, and so its invariants, intact. */
  lemma SameShape<V>(keys: seq<int>, links: seq<nat>, data: seq<Node<V>>, data': seq<Node<V>>, paths: seq<seq<int>>)
    requires |data'| == |data|
    requires forall m | 0 <= m < |data| ::
      data'[m].keys == data[m].keys && data'[m].links == data[m].links && data'[m].parent == data[m].parent
    requires RootOk(keys, links, data, paths) && AllNodesOk(data, paths) && AllParentsOk(keys, links, data, paths)
    ensures RootOk(keys, links, data', paths) && AllNodesOk(data', paths) && AllParentsOk(keys, links, data', paths)
  {
    forall j | 0 <= j < |links| ensures RootEntryOk(keys, links, data', paths, j) {
      assert RootEntryOk(keys, links, data, paths, j);
    }
    forall m | 0 <= m < |data'| ensures NodeOk(data', paths, m) {
      assert NodeOk(data, paths, m);
      forall j | 0 <= j < |data[m].links| ensures EntryOk(data', paths, m, j) {
        assert EntryOk(data, paths, m, j);
      }
    }
    forall m | 0 <= m < |data'| ensures ParentOk(keys, links, data', paths, m) {
      assert ParentOk(keys, links, data, paths, m);
    }
  }

  /** Storing `v` at node `n` matches storing `v` under `paths[n]` in the map. */
  lemma ValuesAfterSet<V>(data: seq<Node<V>>, paths: seq<seq<int>>, index: map<seq<int>, nat>,
                          contents: map<seq<int>, V>, n: nat, v: V)
    requires ValuesOk(data, paths, index, contents) && IndexOk(paths, index) && n < |data|
    ensures ValuesOk(data[n := data[n].(value := Some(v))], paths, index, contents[paths[n] := v])
  {
    var data', contents' := data[n := data[n].(value := Some(v))], contents[paths[n] := v];
    assert Indexed(paths, index, n);
    forall m | 0 <= m < |data'| ensures ValueAt(data', paths, contents', m) {
      assert ValueAt(data, paths, contents, m);
      if m != n {
        assert Indexed(paths, index, m);
        assert index[paths[m]] != index[paths[n]];
      }
    }
  }

  /** Adding a key the map lacks adds one to its size; overwriting leaves the size alone. */
  lemma SizeAfterSet<V>(contents: map<seq<int>, V>, key: seq<int>, v: V)
    ensures |contents[key := v]| == |contents| + (if key in contents then 0 else 1)
  {
    if key !in contents {
      assert contents[key := v].Keys == contents.Keys + {key};
    } else {
      assert contents[key := v].Keys == contents.Keys;
    }
  }

  // ---------------------------------------------------------------------------
  // The three state changes of `insert` keep `Wf`

  /** Splicing a new unit into the root table and pushing an empty root-level node keeps `Wf`. */
  lemma AddRootChildKeepsWf<V>(keys: seq<int>, links: seq<nat>, data: seq<Node<V>>, paths: seq<seq<int>>,
                               index: map<seq<int>, nat>, contents: map<seq<int>, V>, length: nat,
                               i: nat, u: int)
    requires Wf(keys, links, data, paths, index, contents, length) && i <= |keys|
    requires forall j | 0 <= j < i :: keys[j] < u
    requires forall j | i <= j < |keys| :: u < keys[j]
    ensures Wf(InsertAt(keys, i, u), InsertAt(links, i, |data|), GrowRoot(data),
               paths + [[u]], index[[u] := |data|], contents, length)
  {
    AbsentAtRoot(keys, links, data, paths, index, contents, length, u);
    RootAfterInsert(keys, links, data, paths, i, u);
    NodesAfterPush(data, paths, None, [u]);
    IndexAfterPush(paths, index, [u]);
    ParentsAfterRootInsert(keys, links, data, paths, index, i, u);
    ValuesAfterPush(data, paths, index, contents, None, [u]);
    ValueCountAppend(data, NewNode(None, None));
  }

  /** Splicing a new unit into node `n`'s table and pushing an empty child of `n` keeps `Wf`. */
  lemma AddChildKeepsWf<V>(keys: seq<int>, links: seq<nat>, data: seq<Node<V>>, paths: seq<seq<int>>,
                           index: map<seq<int>, nat>, contents: map<seq<int>, V>, length: nat,
                           n: nat, i: nat, u: int)
    requires Wf(keys, links, data, paths, index, contents, length)
    requires n < |data| && i <= |data[n].keys|
    requires forall j | 0 <= j < i :: data[n].keys[j] < u
    requires forall j | i <= j < |data[n].keys| :: u < data[n].keys[j]
    ensures NodeOk(data, paths, n)
    ensures Wf(keys, links, GrowNode(data, n, i, u), paths + [paths[n] + [u]],
               index[paths[n] + [u] := |data|], contents, length)
  {
    assert NodeOk(data, paths, n);
    AbsentBelow(keys, links, data, paths, index, contents, length, n, u);
    var p := paths[n] + [u];
    var newNode := data[n].(keys := InsertAt(data[n].keys, i, u), links := InsertAt(data[n].links, i, |data|));
    assert GrowNode(data, n, i, u) == data[n := newNode] + [NewNode(Some(n), None)];
    RootAfterPush(keys, links, data, paths, GrowNode(data, n, i, u), p);
    NodesAfterGrow(data, paths, n, i, u);
    IndexAfterPush(paths, index, p);
    ParentsAfterGrow(keys, links, data, paths, index, n, i, u);
    ValuesAfterTableChange(data, paths, index, contents, n, newNode);
    ValuesAfterPush(data[n := newNode], paths, index, contents, Some(n), p);
    ValueCountUpdate(data, n, newNode);
    ValueCountAppend(data[n := newNode], NewNode(Some(n), None));
  }

  /** Storing a value at node `n` keeps `Wf` for the map updated at `paths[n]` and the adjusted count. */
  lemma SetValueKeepsWf<V>(keys: seq<int>, links: seq<nat>, data: seq<Node<V>>, paths: seq<seq<int>>,
                           index: map<seq<int>, nat>, contents: map<seq<int>, V>, length: nat,
                           n: nat, v: V)
    requires Wf(keys, links, data, paths, index, contents, length) && n < |data|
    ensures data[n].value.None? <==> paths[n] !in contents
    ensures Wf(keys, links, data[n := data[n].(value := Some(v))], paths, index,
               contents[paths[n] := v], length + (if data[n].value.None? then 1 else 0))
  {
    assert ValueAt(data, paths, contents, n);
    SameShape(keys, links, data, data[n := data[n].(value := Some(v))], paths);
    ValuesAfterSet(data, paths, index, contents, n, v);
    SizeAfterSet(contents, paths[n], v);
    ValueCountUpdate(data, n, data[n].(value := Some(v)));
  }

  // ---------------------------------------------------------------------------
  // What one insertion changes

  /**
   * Slot `m` of the arena as it was before an insertion of `key` (`data0`, `paths0`)
   * is still there afterwards with the same path and parent, and it is untouched
   * unless its path is a prefix of `key`.
   */
  ghost predicate Kept<V>(data0: seq<Node<V>>, paths0: seq<seq<int>>, data: seq<Node<V>>, paths: seq<seq<int>>,
                          key: seq<int>, m: nat) {
    m < |data0| == |paths0| && m < |data| == |paths| &&
    paths[m] == paths0[m] && data[m].parent == data0[m].parent &&
    (paths0[m] <= key || data[m] == data0[m])
  }

  /** Slot `m`, pushed during an insertion of `key`, lies on `key`'s path and holds a value only at its end. */
  ghost predicate Added<V>(data: seq<Node<V>>, paths: seq<seq<int>>, key: seq<int>, m: nat) {
    m < |data| == |paths| && paths[m] <= key && (paths[m] != key ==> data[m].value.None?)
  }

  /** Slot `m`, pushed while the walk down `key` is under way: on `key`'s path and still without a value. */
  ghost predicate Fresh<V>(data: seq<Node<V>>, paths: seq<seq<int>>, key: seq<int>, m: nat) {
    m < |data| == |paths| && paths[m] <= key && data[m].value.None?
  }

  /** Pushing a valueless slot, and changing at most the table of a node on `key`'s path, keeps every old slot `Kept`. */
  lemma KeptAfterPush<V>(data0: seq<Node<V>>, paths0: seq<seq<int>>, data: seq<Node<V>>, paths: seq<seq<int>>,
                         key: seq<int>, data': seq<Node<V>>, p: seq<int>)
    requires |data0| <= |data| == |paths| && |data'| == |data| + 1
    requires forall m | 0 <= m < |data0| :: Kept(data0, paths0, data, paths, key, m)
    requires forall m | 0 <= m < |data| :: data'[m].parent == data[m].parent && (paths[m] <= key || data'[m] == data[m])
    ensures forall m | 0 <= m < |data0| :: Kept(data0, paths0, data', paths + [p], key, m)
  {
    forall m | 0 <= m < |data0| ensures Kept(data0, paths0, data', paths + [p], key, m) {
      assert Kept(data0, paths0, data, paths, key, m);
    }
  }

  /** The same step keeps every slot pushed earlier in the walk `Fresh`, and the new one too when its path is on `key`'s. */
  lemma FreshAfterPush<V>(lo: nat, data: seq<Node<V>>, paths: seq<seq<int>>, key: seq<int>, data': seq<Node<V>>, p: seq<int>)
    requires lo <= |data| == |paths| && |data'| == |data| + 1 && p <= key && data'[|data|].value.None?
    requires forall m | lo <= m < |data| :: Fresh(data, paths, key, m)
    requires forall m | 0 <= m < |data| :: data'[m].value == data[m].value
    ensures forall m | lo <= m < |data'| :: Fresh(data', paths + [p], key, m)
  {
    forall m | lo <= m < |data'| ensures Fresh(data', paths + [p], key, m) {
      if m < |data| {
        assert Fresh(data, paths, key, m);
      }
    }
  }

  /** `GrowNode` changes only node `n`'s table and pushes a valueless slot. */
  lemma GrowNodeFrame<V>(data: seq<Node<V>>, n: nat, i: nat, u: int)
    requires n < |data| && i <= |data[n].keys| == |data[n].links|
    ensures |GrowNode(data, n, i, u)| == |data| + 1 && GrowNode(data, n, i, u)[|data|].value.None?
    ensures forall m | 0 <= m < |data| ::
      GrowNode(data, n, i, u)[m].parent == data[m].parent && GrowNode(data, n, i, u)[m].value == data[m].value &&
      (m == n || GrowNode(data, n, i, u)[m] == data[m])
  {
  }

  /** Storing at the node whose path is `key` keeps every old slot `Kept` and turns every `Fresh` slot into an `Added` one. */
  lemma FrameAfterSet<V>(data0: seq<Node<V>>, paths0: seq<seq<int>>, data: seq<Node<V>>, paths: seq<seq<int>>,
                         key: seq<int>, n: nat, v: V, data': seq<Node<V>>)
    requires |data0| <= |data| == |paths| && n < |data| && paths[n] == key
    requires data' == data[n := data[n].(value := Some(v))]
    requires forall m | 0 <= m < |data0| :: Kept(data0, paths0, data, paths, key, m)
    requires forall m | |data0| <= m < |data| :: Fresh(data, paths, key, m)
    ensures forall m | 0 <= m < |data0| :: Kept(data0, paths0, data', paths, key, m)
    ensures forall m | |data0| <= m < |data| :: Added(data', paths, key, m)
  {
    forall m | 0 <= m < |data0| ensures Kept(data0, paths0, data', paths, key, m) {
      assert Kept(data0, paths0, data, paths, key, m);
    }
    forall m | |data0| <= m < |data| ensures Added(data', paths, key, m) {
      assert Fresh(data, paths, key, m);
    }
  }
}
