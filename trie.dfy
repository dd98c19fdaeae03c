/** Absent-or-present values: Java's `null` is `None`. */
module Wrappers {
  datatype Option<T> = None | Some(value: T)
}

/**
 * A 26-way trie over the upper-case letters 'A'..'Z' (src/Trie.java).
 * Every node owns a 26-slot child array indexed by `c - 'A'` and an optional
 * value. A trie is abstracted by the map `Contents` from stored keys to their
 * values, tied to the nodes by walks: the walk along a stored key ends at a
 * node holding its value, and nodes exist exactly along stored-key prefixes.
 */
module Tries {
  import opened Wrappers

  /** Radix: one child slot per letter of the English alphabet. */
  const R: int := 26

  predicate IsUpper(ch: char) { 'A' <= ch <= 'Z' }

  /** The only keys a 26-way trie can index. */
  predicate ValidKey(s: string) { forall i :: 0 <= i < |s| ==> IsUpper(s[i]) }

  /** The child slot of a letter, `c - SHIFT` with SHIFT == 'A'. */
  function Slot(ch: char): (i: int)
    requires IsUpper(ch)
    ensures 0 <= i < R
  {
    ch as int - 'A' as int
  }

  class Node {
    var val: Option<int>
    var next: array<Node?>
    ghost var Repr: set<object>

    /** A tree: each child owns a part of the footprint no sibling touches. */
    ghost predicate Valid()
      reads this, Repr
      decreases Repr
    {
      this in Repr && next in Repr && next.Length == R &&
      (forall i :: 0 <= i < R && next[i] != null ==>
         next[i] in Repr && next[i].Repr <= Repr &&
         this !in next[i].Repr && next !in next[i].Repr && next[i].Valid()) &&
      (forall i, j :: 0 <= i < j < R && next[i] != null && next[j] != null ==>
         next[i].Repr !! next[j].Repr)
    }

    /** A node with no value and 26 empty slots. */
    constructor ()
      ensures Valid() && fresh(Repr) && Repr == {this, next}
      ensures val == None && forall i :: 0 <= i < R ==> next[i] == null
    {
      val := None;
      next := new Node?[R](_ => null);
      Repr := {this, next};
    }
  }

  /** The value held by a node reached by a walk, None for a missing node. */
  function Val(x: Node?): Option<int>
    reads x
  {
    if x == null then None else x.val
  }

  class Trie {
    var root: Node?
    /** The symbol table: every stored key with its value. */
    ghost var Contents: map<string, int>
    ghost var Repr: set<object>

    ghost predicate Valid()
      reads this, Repr
    {
      this in Repr &&
      (root != null ==>
         root in Repr && root.Repr <= Repr && this !in root.Repr && root.Valid()) &&
      Holds(root, Contents)
    }

    /**
     * The subtrie `x` holds exactly the table `m`: its keys are upper case,
     * the walk along a key ends at a node holding the key's value, and nodes
     * exist exactly along the paths of stored keys.
     */
    static ghost predicate Holds(x: Node?, m: map<string, int>)
      requires x != null ==> x.Valid()
      reads x, if x == null then {} else x.Repr
    {
      (forall k {:trigger k in m} :: k in m ==> ValidKey(k)) &&
      (forall k {:trigger GetNode(x, k, 0)} :: ValidKey(k) ==>
         Val(GetNode(x, k, 0)) == if k in m then Some(m[k]) else None) &&
      (forall p {:trigger GetNode(x, p, 0)} :: ValidKey(p) ==>
         (GetNode(x, p, 0) != null <==> exists k :: k in m && p <= k))
    }

    /** The empty trie: `root` is null. */
    constructor ()
      ensures Valid() && fresh(Repr)
      ensures Contents == map[]
    {
      root := null;
      Contents := map[];
      Repr := {this};
    }

    /**
     * The node reached from `x` by following `key[d..]`, or null when the
     * walk leaves the trie.
     */
    static function GetNode(x: Node?, key: string, d: nat): (r: Node?)
      requires ValidKey(key) && d <= |key|
      requires x != null ==> x.Valid()
      reads x, if x == null then {} else x.Repr
      ensures r != null ==> x != null && r in x.Repr
      ensures d == |key| ==> r == x
      decreases |key| - d
    {
      if x == null then null
      else if d == |key| then x
      else GetNode(x.next[Slot(key[d])], key, d + 1)
    }

    /** The value stored for `key`, or None (Java's null) when it is absent. */
    function Get(key: string): (r: Option<int>)
      requires Valid() && ValidKey(key)
      reads this, Repr
      ensures r == if key in Contents then Some(Contents[key]) else None
    {
      var x := GetNode(root, key, 0);
      if x == null then None else x.val
    }

    /**
     * Stores `v` under `key[d..]` in the subtrie `x`, allocating the nodes
     * that are missing, and returns the (possibly new) subtrie root. Only the
     * walk along `key[d..]` changes its value, and the only new nodes are
     * the ones along that walk.
     */
    static method PutNode(x: Node?, key: string, v: int, d: nat) returns (r: Node)
      requires ValidKey(key) && d <= |key|
      requires x != null ==> x.Valid()
      modifies if x == null then {} else x.Repr
      ensures r.Valid()
      ensures x != null ==> r == x && fresh(r.Repr - old(x.Repr))
      ensures x == null ==> fresh(r.Repr)
      ensures forall k {:trigger GetNode(r, k, d)} :: ValidKey(k) && d <= |k| ==>
        (Val(GetNode(r, k, d)) == if k[d..] == key[d..] then Some(v) else old(Val(GetNode(x, k, d)))) &&
        (GetNode(r, k, d) != null <==> old(GetNode(x, k, d)) != null || k[d..] <= key[d..])
      decreases |key| - d
    {
      var y := x;
      if y == null {
        y := new Node();
      }
      r := y;
      if d == |key| {
        r.val := Some(v);
        Stored(x, r, key, v, d);
        return;
      }
      var c := Slot(key[d]);
      ghost var oc := r.next[c];
      var child := PutNode(r.next[c], key, v, d + 1);
      r.next[c] := child;
      r.Repr := r.Repr + child.Repr;
      Relinked(x, r, oc, child, key, v, d);
    }

    /** Inserts `key` with value `v`, overwriting any value stored before. */
    method Put(key: string, v: int)
      requires Valid() && ValidKey(key)
      modifies Repr
      ensures Valid() && fresh(Repr - old(Repr))
      ensures Contents == old(Contents)[key := v]
    {
      var n := PutNode(root, key, v, 0);
      ghost var m := Contents[key := v];
      assert key[0..] == key;
      forall p | ValidKey(p)
        ensures Val(GetNode(n, p, 0)) == if p in m then Some(m[p]) else None
        ensures GetNode(n, p, 0) != null <==> exists k :: k in m && p <= k
      {
        assert p[0..] == p;
        PrefixAfterPut(old(Contents), m, key, v, p);
      }
      Install(n, m);
    }

    /** Makes `n`, a subtrie holding `m` that this trie does not own yet, the root. */
    method Install(n: Node, ghost m: map<string, int>)
      requires this in Repr && n.Valid() && Holds(n, m) && this !in n.Repr
      modifies this
      ensures Valid() && root == n && Contents == m && Repr == old(Repr) + n.Repr
    {
      root, Contents, Repr := n, m, Repr + n.Repr;
    }

    /** True iff some stored key starts with `pre`. */
    function KeysWithPrefix(pre: string): (b: bool)
      requires Valid() && ValidKey(pre)
      reads this, Repr
      ensures b <==> exists k :: k in Contents && pre <= k
    {
      GetNode(root, pre, 0) != null
    }

    /**
     * Walks `pattern` from `x`, one letter per level, appending to the shared
     * `prefix` buffer on the way down and deleting the letter on the way up;
     * appends the pattern to `results` when its walk ends at a node with a
     * value and it has at least three letters.
     */
    method Collect(x: Node?, prefix: string, pattern: string, results: seq<string>)
      returns (prefix': string, results': seq<string>)
      requires ValidKey(pattern) && |prefix| <= |pattern|
      requires x != null ==> x.Valid()
      ensures prefix' == prefix
      ensures results' == results +
        if |pattern| >= 3 && Val(GetNode(x, pattern, |prefix|)).Some?
        then [prefix + pattern[|prefix|..]] else []
      decreases |pattern| - |prefix|
    {
      prefix', results' := prefix, results;
      if x == null {
        return;
      }
      var d := |prefix'|;
      // for boggle only matches of length >= 3 are reported
      if d == |pattern| && x.val.Some? && d >= 3 {
        results' := results' + [prefix'];
      }
      if d == |pattern| {
        assert prefix + pattern[d..] == prefix;
        return;
      }
      var c := pattern[d];
      Appended(prefix, pattern);
      prefix' := prefix' + [c];
      prefix', results' := Collect(x.next[Slot(c)], prefix', pattern, results');
      prefix' := prefix'[..|prefix'| - 1];
    }

    /**
     * The stored keys matching `pattern`; there is no wildcard, so this is
     * `[pattern]` when the pattern is stored with at least three letters,
     * and nothing otherwise.
     */
    method KeysThatMatch(pattern: string) returns (results: seq<string>)
      requires Valid() && ValidKey(pattern)
      ensures results == if pattern in Contents && |pattern| >= 3 then [pattern] else []
    {
      var buffer;
      buffer, results := Collect(root, "", pattern, []);
      assert "" + pattern[|""|..] == pattern;
      assert Val(GetNode(root, pattern, 0)) == if pattern in Contents then Some(Contents[pattern]) else None;
    }
  }

  /**
   * A put read back: the key now has the new value, and every other key the
   * value it had before.
   */
  method PutThenGet(t: Trie, key: string, v: int, other: string) returns (r: Option<int>, r': Option<int>, any: bool)
    requires t.Valid() && ValidKey(key) && ValidKey(other)
    modifies t.Repr
    ensures r == Some(v)
    ensures r' == if other == key then Some(v) else old(t.Get(other))
    ensures any
  {
    t.Put(key, v);
    r := t.Get(key);
    r' := t.Get(other);
    any := t.KeysWithPrefix("");
  }

  /** The empty trie (null root) stores nothing and has no key with any prefix, not even "". */
  method EmptyTrie(key: string) returns (r: Option<int>, any: bool)
    requires ValidKey(key)
    ensures r == None && !any
  {
    var t := new Trie();
    r := t.Get(key);
    any := t.KeysWithPrefix(key);
  }

  /** A prefix of some key after storing `key` is a prefix of `key` or of a key stored before. */
  lemma PrefixAfterPut(m: map<string, int>, m': map<string, int>, key: string, v: int, p: string)
    requires m' == m[key := v]
    ensures (exists k :: k in m' && p <= k) <==> (exists k :: k in m && p <= k) || p <= key
  {
    if exists k :: k in m' && p <= k {
      var w :| w in m' && p <= w;
      if w != key {
        assert w in m;
      }
    }
    if exists k :: k in m && p <= k {
      var w :| w in m && p <= w;
      assert w in m';
    }
    if p <= key {
      assert key in m';
    }
  }

  /** Appending the next pattern letter to the buffer and deleting it again. */
  lemma Appended(prefix: string, pattern: string)
    requires |prefix| < |pattern|
    ensures (prefix + [pattern[|prefix|]])[..|prefix|] == prefix
    ensures (prefix + [pattern[|prefix|]]) + pattern[|prefix| + 1..] == prefix + pattern[|prefix|..]
  {
    assert pattern[|prefix|..] == [pattern[|prefix|]] + pattern[|prefix| + 1..];
  }

  /** Comparing two suffixes from position `d` on, one letter at a time. */
  lemma SuffixStep(k: string, key: string, d: nat)
    requires d < |k| && d < |key|
    ensures k[d..] == key[d..] <==> k[d] == key[d] && k[d + 1..] == key[d + 1..]
    ensures k[d..] <= key[d..] <==> k[d] == key[d] && k[d + 1..] <= key[d + 1..]
  {
    assert k[d..] == [k[d]] + k[d + 1..];
    assert key[d..] == [key[d]] + key[d + 1..];
  }

  ghost function Sub(x: Node?): set<object>
    reads x
  {
    if x == null then {} else x.Repr
  }

  /**
   * Setting the value of the node a key's walk ends at changes the value of
   * that key alone and leaves every walk, and so every node, in place.
   */
  twostate lemma Stored(new x: Node?, new r: Node, new key: string, new v: int, new d: nat)
    requires x != null ==> old(allocated(x))
    requires ValidKey(key) && d == |key|
    requires x != null ==>
      old(x.Valid()) && r == x && r.next == old(x.next) && r.Repr == old(x.Repr)
    requires x != null ==> forall o :: o in old(x.Repr) && o != r ==> unchanged(o)
    requires x == null ==> r.Valid() && forall i :: 0 <= i < R ==> r.next[i] == null
    requires r.val == Some(v)
    ensures r.Valid()
    ensures forall k {:trigger Trie.GetNode(r, k, d)} :: ValidKey(k) && d <= |k| ==>
      (Val(Trie.GetNode(r, k, d)) == if k[d..] == key[d..] then Some(v) else old(Val(Trie.GetNode(x, k, d)))) &&
      (Trie.GetNode(r, k, d) != null <==> old(Trie.GetNode(x, k, d)) != null || k[d..] <= key[d..])
  {
    if x != null {
      forall s | 0 <= s < R && r.next[s] != null
        ensures r.next[s] == old(x.next[s]) && r.next[s].Repr == old(x.next[s].Repr) && r.next[s].Valid()
      {
        assert unchanged(old(x.next[s].Repr));
      }
      assert r.Valid();
    }
    forall k | ValidKey(k) && d <= |k|
      ensures Val(Trie.GetNode(r, k, d)) == if k[d..] == key[d..] then Some(v) else old(Val(Trie.GetNode(x, k, d)))
      ensures Trie.GetNode(r, k, d) != null <==> old(Trie.GetNode(x, k, d)) != null || k[d..] <= key[d..]
    {
      if d < |k| {
        assert k[d..] != key[d..];
        assert Trie.GetNode(r, k, d) == Trie.GetNode(r.next[Slot(k[d])], k, d + 1);
        if x != null {
          assert Trie.GetNode(r.next[Slot(k[d])], k, d + 1) == old(Trie.GetNode(x.next[Slot(k[d])], k, d + 1));
        }
      } else {
        assert k[d..] == key[d..] == [];
      }
    }
  }

  /**
   * Relinking slot `c` of `r` to the updated subtrie `child` keeps `r` a
   * tree, and leaves every other slot and the subtrie under it as it was.
   */
  twostate lemma RelinkedTree(new x: Node?, new r: Node, new oc: Node?, new child: Node, new key: string, new d: nat)
    requires x != null ==> old(allocated(x))
    requires oc != null ==> old(allocated(oc))
    requires ValidKey(key) && d < |key|
    requires x != null ==>
      old(x.Valid()) && r == x && oc == old(x.next[Slot(key[d])]) &&
      r.val == old(x.val) && r.Repr == old(x.Repr) + child.Repr
    requires x != null ==> r.next == old(x.next)
    requires x != null ==> forall o :: o in old(x.Repr) && o !in old(Sub(oc)) && o != r && o != r.next ==> unchanged(o)
    requires x == null ==> oc == null && r.val == None && r.Repr == {r, r.next} + child.Repr
    requires r.next.Length == R && r.next[Slot(key[d])] == child
    requires forall s :: 0 <= s < R && s != Slot(key[d]) ==>
      r.next[s] == if x == null then null else old(x.next[s])
    requires child.Valid() && r !in child.Repr && r.next !in child.Repr
    requires oc != null ==> child == oc && fresh(child.Repr - old(oc.Repr))
    requires oc == null ==> fresh(child.Repr)
    ensures r.Valid()
    ensures forall s :: 0 <= s < R && s != Slot(key[d]) && r.next[s] != null ==>
      x != null && r.next[s] == old(x.next[s]) && r.next[s].Repr == old(x.next[s].Repr) &&
      unchanged(old(x.next[s].Repr))
  {
    var c := Slot(key[d]);
    forall s | 0 <= s < R && s != c && r.next[s] != null
      ensures r.next[s].Repr <= r.Repr && r !in r.next[s].Repr && r.next !in r.next[s].Repr && r.next[s].Valid()
      ensures r.next[s].Repr !! child.Repr
      ensures x != null && r.next[s] == old(x.next[s]) && r.next[s].Repr == old(x.next[s].Repr)
    {
      var b := r.next[s];
      assert x != null && b == old(x.next[s]);
      assert old(b.Repr) !! old(Sub(oc));
      assert unchanged(old(b.Repr));
    }
    forall i, j | 0 <= i < j < R && r.next[i] != null && r.next[j] != null
      ensures r.next[i].Repr !! r.next[j].Repr
    {
      if i != c && j != c {
        assert old(x.next[i].Repr !! x.next[j].Repr);
      }
    }
  }

  /**
   * Relinking slot `c` of `r` to the updated subtrie `child` moves the walks
   * through that slot exactly as `child` moved them, leaving the walks
   * through every other slot as they were.
   */
  twostate lemma Relinked(new x: Node?, new r: Node, new oc: Node?, new child: Node, new key: string, new v: int, new d: nat)
    requires x != null ==> old(allocated(x))
    requires oc != null ==> old(allocated(oc))
    requires ValidKey(key) && d < |key|
    requires x != null ==>
      old(x.Valid()) && r == x && oc == old(x.next[Slot(key[d])]) &&
      r.val == old(x.val) && r.Repr == old(x.Repr) + child.Repr
    requires x != null ==> r.next == old(x.next)
    requires x != null ==> forall o :: o in old(x.Repr) && o !in old(Sub(oc)) && o != r && o != r.next ==> unchanged(o)
    requires x == null ==> oc == null && r.val == None && r.Repr == {r, r.next} + child.Repr
    requires r.next.Length == R && r.next[Slot(key[d])] == child
    requires forall s :: 0 <= s < R && s != Slot(key[d]) ==>
      r.next[s] == if x == null then null else old(x.next[s])
    requires child.Valid() && r !in child.Repr && r.next !in child.Repr
    requires oc != null ==> child == oc && fresh(child.Repr - old(oc.Repr))
    requires oc == null ==> fresh(child.Repr)
    requires forall k {:trigger Trie.GetNode(child, k, d + 1)} :: ValidKey(k) && d + 1 <= |k| ==>
      (Val(Trie.GetNode(child, k, d + 1)) == if k[d + 1..] == key[d + 1..] then Some(v) else old(Val(Trie.GetNode(oc, k, d + 1)))) &&
      (Trie.GetNode(child, k, d + 1) != null <==> old(Trie.GetNode(oc, k, d + 1)) != null || k[d + 1..] <= key[d + 1..])
    ensures r.Valid()
    ensures forall k {:trigger Trie.GetNode(r, k, d)} :: ValidKey(k) && d <= |k| ==>
      (Val(Trie.GetNode(r, k, d)) == if k[d..] == key[d..] then Some(v) else old(Val(Trie.GetNode(x, k, d)))) &&
      (Trie.GetNode(r, k, d) != null <==> old(Trie.GetNode(x, k, d)) != null || k[d..] <= key[d..])
  {
    var c := Slot(key[d]);
    RelinkedTree(x, r, oc, child, key, d);
    forall k | ValidKey(k) && d <= |k|
      ensures Val(Trie.GetNode(r, k, d)) == if k[d..] == key[d..] then Some(v) else old(Val(Trie.GetNode(x, k, d)))
      ensures Trie.GetNode(r, k, d) != null <==> old(Trie.GetNode(x, k, d)) != null || k[d..] <= key[d..]
    {
      if d == |k| {
      } else {
        SuffixStep(k, key, d);
        var s := Slot(k[d]);
        assert Trie.GetNode(r, k, d) == Trie.GetNode(r.next[s], k, d + 1);
        if s == c {
          assert k[d] == key[d];
          assert x != null ==> old(Trie.GetNode(x, k, d)) == old(Trie.GetNode(x.next[c], k, d + 1));
        } else if x != null {
          assert Trie.GetNode(r.next[s], k, d + 1) == old(Trie.GetNode(x.next[s], k, d + 1));
        }
      }
    }
  }
}
