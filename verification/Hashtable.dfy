/** The chained hash table of the core: a bucket array, linked nodes, rehashing in place and an erasing iterator. */
module Hashtable {
  import opened Wrappers

  class Node<K(==), V> {
    const k: K
    var v: V
    var next: Node?<K, V>

    constructor (k: K, v: V)
      ensures this.k == k && this.v == v && next == null
    {
      this.k, this.v, next := k, v, null;
    }
  }

  type Chain<K(==), V> = seq<Node<K, V>>

  // ---- What the buckets hold, independent of the heap: keys never change ----

  function At<K, V>(c: Chain<K, V>, j: nat): Node?<K, V> { if j < |c| then c[j] else null }

  /** Every node of a bucket is the node of its key, and its key hashes to the bucket. */
  ghost predicate Owned<K(!new), V>(hc: K -> nat, chains: seq<Chain<K, V>>, nodes: map<K, Node<K, V>>) {
    && |chains| > 0
    && forall i, j | 0 <= i < |chains| && 0 <= j < |chains[i]| ::
         && chains[i][j].k in nodes && nodes[chains[i][j].k] == chains[i][j]
         && hc(chains[i][j].k) % |chains| == i
  }

  /** No node occurs twice in its bucket. */
  ghost predicate Unrepeated<K(!new), V>(chains: seq<Chain<K, V>>) {
    forall i, j, j' | 0 <= i < |chains| && 0 <= j < j' < |chains[i]| :: chains[i][j] != chains[i][j']
  }

  /** Every key's node is in its bucket. */
  ghost predicate Complete<K(!new), V>(hc: K -> nat, chains: seq<Chain<K, V>>, nodes: map<K, Node<K, V>>) {
    |chains| > 0 && forall k | k in nodes :: nodes[k].k == k && nodes[k] in chains[hc(k) % |chains|]
  }

  ghost predicate Indexed<K(!new), V>(hc: K -> nat, chains: seq<Chain<K, V>>, nodes: map<K, Node<K, V>>) {
    Owned(hc, chains, nodes) && Unrepeated(chains) && Complete(hc, chains, nodes)
  }

  lemma Place<K(!new), V>(hc: K -> nat, chains: seq<Chain<K, V>>, nodes: map<K, Node<K, V>>, i: nat, j: nat)
    requires Indexed(hc, chains, nodes) && i < |chains| && j < |chains[i]|
    ensures chains[i][j].k in nodes && nodes[chains[i][j].k] == chains[i][j] && hc(chains[i][j].k) % |chains| == i
  {
  }

  lemma PlaceOf<K(!new), V>(hc: K -> nat, chains: seq<Chain<K, V>>, nodes: map<K, Node<K, V>>, k: K)
      returns (i: nat, j: nat)
    requires Indexed(hc, chains, nodes) && k in nodes
    ensures i < |chains| && j < |chains[i]| && chains[i][j] == nodes[k] && chains[i][j].k == k
  {
    i := hc(k) % |chains|;
    j :| 0 <= j < |chains[i]| && chains[i][j] == nodes[k];
  }

  lemma OnePlace<K(!new), V>(hc: K -> nat, chains: seq<Chain<K, V>>, nodes: map<K, Node<K, V>>, i: nat, j: nat, i': nat,
      j': nat)
    requires Indexed(hc, chains, nodes) && i < |chains| && j < |chains[i]| && i' < |chains| && j' < |chains[i']|
    ensures chains[i][j].k == chains[i'][j'].k ==> i == i' && j == j'
  {
    Place(hc, chains, nodes, i, j); Place(hc, chains, nodes, i', j');
  }

  function Pushed<K, V>(chains: seq<Chain<K, V>>, i: nat, n: Node<K, V>): seq<Chain<K, V>>
    requires i < |chains|
  {
    chains[i := [n] + chains[i]]
  }

  /** A new node at the front of its bucket. */
  lemma PushIndexed<K(!new), V>(hc: K -> nat, chains: seq<Chain<K, V>>, nodes: map<K, Node<K, V>>, n: Node<K, V>)
    requires Indexed(hc, chains, nodes) && n.k !in nodes
    ensures var i := hc(n.k) % |chains|; Indexed(hc, Pushed(chains, i, n), nodes[n.k := n])
  {
    var i := hc(n.k) % |chains|;
    var after := Pushed(chains, i, n);
    forall i', j | 0 <= i' < |after| && 0 <= j < |after[i']|
      ensures after[i'][j] == if i' == i && j == 0 then n else chains[i'][if i' == i then j - 1 else j]
    {
    }
    forall k | k in nodes
      ensures nodes[k] in after[hc(k) % |after|]
    {
      assert nodes[k] in chains[hc(k) % |chains|];
    }
    assert after[i][0] == n;
  }

  function Without<K, V>(chains: seq<Chain<K, V>>, i: nat, p: nat): (r: seq<Chain<K, V>>)
    requires i < |chains| && p < |chains[i]|
    ensures |r| == |chains|
  {
    chains[i := chains[i][..p] + chains[i][p + 1..]]
  }

  /** A node unlinked from its bucket. */
  lemma RemoveIndexed<K(!new), V>(hc: K -> nat, chains: seq<Chain<K, V>>, nodes: map<K, Node<K, V>>, i: nat, p: nat)
    requires Indexed(hc, chains, nodes) && i < |chains| && p < |chains[i]|
    ensures Indexed(hc, Without(chains, i, p), nodes - {chains[i][p].k})
  {
    var after := Without(chains, i, p);
    var left := nodes - {chains[i][p].k};
    forall i', j | 0 <= i' < |after| && 0 <= j < |after[i']|
      ensures after[i'][j] == chains[i'][if i' == i && j >= p then j + 1 else j]
      ensures after[i'][j] != chains[i][p]
    {
      var j' := if i' == i && j >= p then j + 1 else j;
      OnePlace(hc, chains, nodes, i', j', i, p);
    }
    forall k | k in left
      ensures left[k] in after[hc(k) % |after|]
    {
      var i' := hc(k) % |chains|;
      var j :| 0 <= j < |chains[i']| && chains[i'][j] == nodes[k];
      assert i' == i ==> j != p;
      assert after[i'][if i' == i && j > p then j - 1 else j] == nodes[k];
    }
  }

  /** The set of nodes that the keys own. */
  ghost predicate Holds<K(!new), V>(nodes: map<K, Node<K, V>>, repr: set<Node<K, V>>) {
    && (forall k | k in nodes :: nodes[k] in repr && nodes[k].k == k)
    && forall n | n in repr :: n.k in nodes && nodes[n.k] == n
  }

  lemma HoldsPushed<K(!new), V>(nodes: map<K, Node<K, V>>, repr: set<Node<K, V>>, n: Node<K, V>)
    requires Holds(nodes, repr) && n.k !in nodes
    ensures Holds(nodes[n.k := n], repr + {n})
  {
  }

  lemma HoldsRemoved<K(!new), V>(nodes: map<K, Node<K, V>>, repr: set<Node<K, V>>, n: Node<K, V>)
    requires Holds(nodes, repr) && n in repr
    ensures Holds(nodes - {n.k}, repr - {n})
  {
  }

  /** The pointers spell out the buckets. */
  ghost predicate Linked<K, V>(t: array<Node?<K, V>>, chains: seq<Chain<K, V>>, repr: set<Node<K, V>>)
    reads t, repr`next
  {
    && |chains| == t.Length
    && (forall i | 0 <= i < |chains| :: t[i] == At(chains[i], 0))
    && forall i, j | 0 <= i < |chains| && 0 <= j < |chains[i]| :: LinkedAt(chains[i], j, repr)
  }

  ghost predicate LinkedAt<K, V>(c: Chain<K, V>, j: nat, repr: set<Node<K, V>>)
    requires j < |c|
    reads repr`next
  {
    c[j] in repr && c[j].next == At(c, j + 1)
  }

  /** The nodes carry the values of the map. */
  ghost predicate Stores<K(!new), V>(nodes: map<K, Node<K, V>>, model: map<K, V>, repr: set<Node<K, V>>)
    reads repr`v
  {
    (forall k :: k in nodes <==> k in model) && forall k | k in nodes :: nodes[k] in repr && nodes[k].v == model[k]
  }

  lemma SameKey<K(!new), V>(nodes: map<K, Node<K, V>>, model: map<K, V>, repr: set<Node<K, V>>, k: K)
    requires Stores(nodes, model, repr)
    ensures k in nodes <==> k in model
    ensures k in nodes ==> nodes[k] in repr && nodes[k].v == model[k]
  {
  }

  lemma StoresPushed<K(!new), V>(nodes: map<K, Node<K, V>>, model: map<K, V>, repr: set<Node<K, V>>, b: Node<K, V>)
    requires Stores(nodes, model, repr) && b.k !in nodes
    ensures Stores(nodes[b.k := b], model[b.k := b.v], repr + {b}) && |model[b.k := b.v]| == |model| + 1
  {
  }

  class Table<K(==, !new), V> {
    const hc: K -> nat
    var t: array<Node?<K, V>>
    var bc: nat
    var s: nat
    /** The finite map that the table stands for. */
    ghost var model: map<K, V>
    /** The nodes of each bucket in order, the node of each key, and all nodes. */
    ghost var chains: seq<Chain<K, V>>
    ghost var nodes: map<K, Node<K, V>>
    ghost var repr: set<Node<K, V>>

    ghost predicate Valid()
      reads this, t, repr
    {
      && 0 < bc == t.Length == |chains| && s == |model|
      && Indexed(hc, chains, nodes) && Holds(nodes, repr) && Linked(t, chains, repr) && Stores(nodes, model, repr)
    }

    /** The table, its bucket array and its nodes. */
    ghost function Footprint(): set<object>
      reads this
    {
      {this, t} + repr
    }

    constructor (hc: K -> nat, bc: nat)
      requires bc > 0
      ensures Valid() && model == map[] && fresh(t) && repr == {} && this.hc == hc
    {
      this.hc := hc;
      t := new Node?<K, V>[bc](i => null);
      this.bc, s := bc, 0;
      model, chains, nodes, repr := map[], seq(bc, i => []), map[], {};
    }

    /** The walk along one bucket that every lookup makes. */
    method Find(k: K) returns (b: Node?<K, V>)
      requires Valid()
      ensures b != null <==> k in model
      ensures b != null ==> b in repr && b.k == k && b.v == model[k]
    {
      hide Indexed, Linked, Holds, Stores, Passed;
      SameKey(nodes, model, repr, k);
      var i := hc(k) % bc;
      b := t[i];
      ghost var j := 0;
      Head(t, chains, repr, i);
      PassedNone(chains[i], k);
      while b != null
        invariant 0 <= j <= |chains[i]| && b == At(chains[i], j) && Passed(chains[i], j, k)
        decreases |chains[i]| - j
      {
        if b.k == k {
          Place(hc, chains, nodes, i, j);
          return;
        }
        Step(t, chains, repr, i, j);
        PassedOne(chains[i], j, k);
        b := b.next;
        j := j + 1;
      }
      Absent(hc, chains, nodes, k);
    }

    /** Links a new node at the front of its bucket. */
    method PushFront(k: K, v: V) returns (b: Node<K, V>)
      requires Valid() && k !in model
      modifies this, t
      ensures Valid() && model == old(model)[k := v] && t == old(t)
      ensures fresh(b) && b.k == k && b.v == v && nodes == old(nodes)[k := b] && repr == old(repr) + {b}
    {
      hide Indexed, Linked, Holds, Pushed, Stores;
      SameKey(nodes, model, repr, k);
      var i := hc(k) % bc;
      b := new Node(k, v);
      PushIndexed(hc, chains, nodes, b);
      HoldsPushed(nodes, repr, b);
      LinkFront(t, chains, repr, i, b);
      StoresPushed(nodes, model, repr, b);
      chains, nodes, model, repr, s := Pushed(chains, i, b), nodes[k := b], model[k := v], repr + {b}, s + 1;
    }

    /** A value written through a reference that the table handed out. */
    method Write(b: Node<K, V>, v: V)
      requires Valid() && b in repr
      modifies b`v, `model
      ensures Valid() && model == old(model)[b.k := v] && b.k in old(model)
      ensures forall n | n in repr && n != b :: n.v == old(n.v)
    {
      hide Indexed, Linked, Holds, Stores;
      WriteValue(nodes, model, repr, b, v);
      model := model[b.k := v];
    }

    method Set(k: K, v: V) returns (b: Node<K, V>)
      requires Valid()
      modifies this, t, repr
      ensures Valid() && model == old(model)[k := v] && (t == old(t) || fresh(t)) && fresh(repr - old(repr))
      ensures b in repr && b.k == k
    {
      hide Indexed, Linked, Holds, Stores;
      var f := Find(k);
      SameKey(nodes, model, repr, k);
      if f != null {
        b := f;
        Write(b, v);
        return;
      }
      if s >= bc {
        Grow();
      }
      b := PushFront(k, v);
    }

    /** operator[]: the reference to the value of k, which is created as the default if there is none. */
    method Index(k: K, default: V) returns (b: Node<K, V>)
      requires Valid()
      modifies this, t, repr
      ensures Valid() && model == (if k in old(model) then old(model) else old(model)[k := default])
      ensures (t == old(t) || fresh(t)) && fresh(repr - old(repr))
      ensures b in repr && b.k == k && b.v == model[k]
    {
      hide Indexed, Linked, Holds, Stores;
      var f := Find(k);
      SameKey(nodes, model, repr, k);
      if f != null {
        b := f;
        return;
      }
      if s >= bc {
        Grow();
      }
      b := PushFront(k, default);
    }

    method Get(k: K) returns (v: Option<V>)
      requires Valid()
      ensures v == if k in model then Some(model[k]) else None
    {
      var b := Find(k);
      v := if b == null then None else Some(b.v);
    }

    method Contains(k: K) returns (r: bool)
      requires Valid()
      ensures r == (k in model)
    {
      var b := Find(k);
      r := b != null;
    }

    method Size() returns (n: nat)
      requires Valid()
      ensures n == |model|
    {
      n := s;
    }

    /** The bucket and place of the node of k, or null. */
    ghost predicate Located(k: K, p: nat)
      reads this
    {
      |chains| > 0 && var i := hc(k) % |chains|; p < |chains[i]| && chains[i][p].k == k
    }

    method Erase(k: K) returns (erased: bool, ghost p: nat)
      requires Valid()
      modifies this, t, repr`next
      ensures Valid() && t == old(t) && erased == (k in old(model)) && model == old(model) - {k} && repr <= old(repr)
      ensures if erased then old(Located(k, p)) && chains == Without(old(chains), hc(k) % |old(chains)|, p)
        else chains == old(chains)
    {
      hide Indexed, Linked, Holds, Stores, Without;
      var lastb, b;
      lastb, b, p := WalkTo(k);
      if b != null {
        Drop(hc(k) % bc, p, lastb, b);
        return true, p;
      }
      assert model - {k} == model;
      erased := false;
    }

    /** Erase's walk: the node of k, its place and the node before it. */
    method WalkTo(k: K) returns (lastb: Node?<K, V>, b: Node?<K, V>, ghost p: nat)
      requires Valid()
      ensures var c := chains[hc(k) % bc];
        if k in model then p < |c| && b == c[p] && b.k == k && lastb == (if p == 0 then null else c[p - 1])
        else b == null
    {
      hide Indexed, Linked, Holds, Stores, Passed;
      SameKey(nodes, model, repr, k);
      var bidx := hc(k) % bc;
      lastb := null;
      b := t[bidx];
      p := 0;
      Head(t, chains, repr, bidx);
      PassedNone(chains[bidx], k);
      while b != null
        invariant 0 <= p <= |chains[bidx]| && b == At(chains[bidx], p) && Passed(chains[bidx], p, k)
        invariant lastb == if p == 0 then null else chains[bidx][p - 1]
        decreases |chains[bidx]| - p
      {
        if b.k == k {
          Place(hc, chains, nodes, bidx, p);
          return;
        }
        Step(t, chains, repr, bidx, p);
        PassedOne(chains[bidx], p, k);
        lastb := b;
        b := b.next;
        p := p + 1;
      }
      Absent(hc, chains, nodes, k);
    }

    method Drop(i: nat, ghost p: nat, lastb: Node?<K, V>, b: Node<K, V>)
      requires Valid() && i < |chains| && p < |chains[i]| && b == chains[i][p]
      requires lastb == if p == 0 then null else chains[i][p - 1]
      modifies this, t, repr`next
      ensures Valid() && t == old(t) && b.k in old(model) && model == old(model) - {b.k} && repr <= old(repr)
      ensures chains == Without(old(chains), i, p)
    {
      hide Indexed, Linked, Holds, Stores, Without;
      RemoveIndexed(hc, chains, nodes, i, p);
      InRepr(hc, chains, nodes, repr, i, p);
      HoldsRemoved(nodes, repr, b);
      StoresRemoved(nodes, model, repr, b);
      Unlink(hc, nodes, t, chains, repr, i, p, lastb, b);
      chains, nodes, model, repr, s := Without(chains, i, p), nodes - {b.k}, model - {b.k}, repr - {b}, s - 1;
    }

    /** Erases all entries. */
    method Clear()
      requires Valid()
      modifies this, t
      ensures Valid() && model == map[] && t == old(t) && repr <= old(repr) && |chains| == |old(chains)|
    {
      hide Indexed, Linked, Holds, Stores;
      if s != 0 {
        for i := 0 to bc
          invariant forall j | 0 <= j < i :: t[j] == null
          modifies t
        {
          t[i] := null;
        }
        s := 0;
        model, chains, nodes, repr := map[], seq(bc, i => []), map[], {};
        Nothing(hc, t, chains);
      } else {
        assert model == map[];
      }
    }

    /** The copy constructor: each bucket is copied in reverse order. */
    constructor Copy(ht: Table<K, V>)
      requires ht.Valid()
      ensures Valid() && model == ht.model && hc == ht.hc && fresh(t) && fresh(repr)
    {
      hc := ht.hc;
      bc, s := ht.bc, ht.s;
      t := new Node?<K, V>[ht.bc](i => null);
      model, chains, nodes, repr := map[], seq(ht.bc, i => []), map[], {};
      new;
      hide Indexed, Linked, Holds, Stores;
      CopyAll(ht);
    }

    method CopyAll(ht: Table<K, V>)
      requires ht.Valid() && ht != this && ht.t != t && hc == ht.hc && bc == t.Length == |chains| == ht.bc && s == ht.s
      requires (forall i | 0 <= i < bc :: t[i] == null && chains[i] == []) && model == map[] && nodes == map[]
      requires repr == {}
      modifies this, t
      ensures Valid() && model == ht.model && fresh(repr) && t == old(t)
    {
      hide Valid, Copying;
      CopyingStart(ht);
      var n := bc;
      for i := 0 to n
        invariant Copying(ht, i, 0) && s == ht.s && t == old(t) && fresh(repr)
        modifies this, t
      {
        Sizes(ht, i);
        CopyBucket(ht, i);
      }
      Sizes(ht, n);
      CopyingEnd(ht);
    }

    lemma Sizes(ht: Table<K, V>, i: nat)
      requires Copying(ht, i, 0)
      ensures |ht.chains| == ht.bc == bc
    {
    }

    lemma CopyingStart(ht: Table<K, V>)
      requires ht.Valid() && ht != this && ht.t != t && hc == ht.hc && bc == t.Length == |chains| == ht.bc
      requires (forall i | 0 <= i < bc :: t[i] == null && chains[i] == []) && model == map[] && nodes == map[]
      requires repr == {}
      ensures Copying(ht, 0, 0)
    {
    }

    lemma CopyingEnd(ht: Table<K, V>)
      requires Copying(ht, |ht.chains|, 0) && s == ht.s
      ensures Valid() && model == ht.model
    {
      hide Linked;
      AllVisited(ht.hc, ht.chains, ht.nodes, ht.model, model);
    }

    method CopyBucket(ht: Table<K, V>, i: nat)
      requires Copying(ht, i, 0) && i < ht.bc
      modifies this, t
      ensures Copying(ht, i + 1, 0) && fresh(repr - old(repr)) && t == old(t) && bc == old(bc) && s == old(s)
    {
      hide Indexed, Linked, Holds, Stores, Visited;
      var b := ht.t[i];
      ghost var p := 0;
      Head(ht.t, ht.chains, ht.repr, i);
      while b != null
        invariant p <= |ht.chains[i]| && b == At(ht.chains[i], p)
        invariant Copying(ht, i, p) && fresh(repr - old(repr)) && t == old(t) && bc == old(bc) && s == old(s)
        modifies this, t
        decreases |ht.chains[i]| - p
      {
        CopyNode(ht, i, p, b);
        Step(ht.t, ht.chains, ht.repr, i, p);
        b := b.next;
        p := p + 1;
      }
      VisitBucket(ht.chains, ht.model, model, i);
    }

    lemma CopyReady(ht: Table<K, V>, i: nat, p: nat)
      requires Copying(ht, i, p) && i < |ht.chains| && p < |ht.chains[i]|
      ensures var b := ht.chains[i][p];
        && b.k !in nodes && b.k in ht.model && ht.model[b.k] == b.v && i == hc(b.k) % |chains|
        && Visited(ht.chains, ht.model, model[b.k := b.v], i, p + 1)
    {
      hide Indexed, Linked, Holds, Stores, Visited;
      var b := ht.chains[i][p];
      Place(hc, ht.chains, ht.nodes, i, p);
      SameKey(ht.nodes, ht.model, ht.repr, b.k);
      VisitNext(hc, ht.chains, ht.nodes, ht.model, model, i, p);
      SameKey(nodes, model, repr, b.k);
    }

    method CopyNode(ht: Table<K, V>, i: nat, ghost p: nat, b: Node<K, V>)
      requires Copying(ht, i, p) && i < |ht.chains| && p < |ht.chains[i]| && b == ht.chains[i][p]
      modifies this, t
      ensures Copying(ht, i, p + 1) && fresh(repr - old(repr)) && t == old(t) && bc == old(bc) && s == old(s)
    {
      hide Indexed, Linked, Holds, Stores, Visited, Pushed, Valid;
      CopyReady(ht, i, p);
      var nb := new Node(b.k, b.v);
      PushIndexed(hc, chains, nodes, nb);
      HoldsPushed(nodes, repr, nb);
      LinkFront(t, chains, repr, i, nb);
      StoresPushed(nodes, model, repr, nb);
      chains, nodes, model, repr := Pushed(chains, i, nb), nodes[b.k := nb], model[b.k := b.v], repr + {nb};
    }

    /** The nodes before (i, p) are copied. */
    ghost predicate Copying(ht: Table<K, V>, i: nat, p: nat)
      reads this, t, repr, ht, ht.t, ht.repr
    {
      && ht != this && ht.t != t && ht.repr !! repr && hc == ht.hc && ht.Valid()
      && bc == t.Length == |chains| == |ht.chains|
      && Indexed(hc, chains, nodes) && Holds(nodes, repr) && Linked(t, chains, repr) && Stores(nodes, model, repr)
      && Visited(ht.chains, ht.model, model, i, p)
    }

    /** All nodes in the order of a walk through the buckets. */
    ghost function Entries(): Chain<K, V>
      reads this
    {
      Flat(chains, 0)
    }

    /** Each key has exactly one entry, which carries its value. */
    lemma EntriesAreModel()
      requires Valid()
      ensures forall n | n in Entries() :: n in repr && n.k in model && n.v == model[n.k]
      ensures forall k | k in model :: exists n | n in Entries() :: n.k == k
      ensures DistinctKeys(Entries())
    {
      hide Indexed, Holds, Linked, Stores, Flat;
      FlatDistinct(hc, chains, nodes, 0);
      forall n | n in Entries()
        ensures n in repr && n.k in model && n.v == model[n.k]
      {
        var x :| 0 <= x < |Entries()| && Entries()[x] == n;
        var i, j := FlatPlace(chains, 0, x);
        InRepr(hc, chains, nodes, repr, i, j);
        SameKey(nodes, model, repr, n.k);
      }
      forall k | k in model
        ensures exists n | n in Entries() :: n.k == k
      {
        SameKey(nodes, model, repr, k);
        var i, j := PlaceOf(hc, chains, nodes, k);
        FlatHas(chains, 0, i, j);
      }
    }

    /** Two tables that share no bucket array and no node. */
    ghost predicate Apart(ht: Table<K, V>)
      reads this, ht
    {
      ht != this && ht.t != t && ht.repr !! repr
    }

    /** operator=. A table assigned to itself is cleared first, and so ends empty. */
    method Assign(ht: Table<K, V>)
      requires Valid() && ht.Valid() && (ht == this || Apart(ht))
      modifies this, t, repr
      ensures Valid() && model == if ht == this then map[] else old(ht.model)
      ensures ht != this ==> ht.Valid() && Apart(ht)
    {
      hide Valid;
      Clear();
      if ht != this && ht.s != 0 {
        AssigningStart(ht);
        var n := ht.bc;
        for i := 0 to n
          invariant Assigning(ht, i, 0) && (t == old(t) || fresh(t)) && fresh(repr - old(repr))
        {
          AssigningSize(ht, i);
          AssignBucket(ht, i);
        }
        AssigningSize(ht, n);
        AssigningEnd(ht);
      } else if ht != this {
        NoEntries(ht);
      }
    }

    ghost predicate Assigning(ht: Table<K, V>, i: nat, p: nat)
      reads this, t, repr, ht, ht.t, ht.repr
    {
      Valid() && ht.Valid() && Apart(ht) && Visited(ht.chains, ht.model, model, i, p)
    }

    lemma AssigningStart(ht: Table<K, V>)
      requires Valid() && ht.Valid() && Apart(ht) && model == map[]
      ensures Assigning(ht, 0, 0) && |ht.chains| == ht.bc
    {
    }

    lemma AssigningSize(ht: Table<K, V>, i: nat)
      requires Assigning(ht, i, 0)
      ensures |ht.chains| == ht.bc
    {
    }

    lemma AssigningEnd(ht: Table<K, V>)
      requires Assigning(ht, |ht.chains|, 0)
      ensures Valid() && model == ht.model && ht.Valid() && Apart(ht)
    {
      hide Linked;
      AllVisited(ht.hc, ht.chains, ht.nodes, ht.model, model);
    }

    lemma NoEntries(ht: Table<K, V>)
      requires ht.Valid() && ht.s == 0
      ensures ht.model == map[]
    {
      hide Indexed, Linked, Holds, Stores;
    }

    method AssignBucket(ht: Table<K, V>, i: nat)
      requires Assigning(ht, i, 0) && i < ht.bc
      modifies this, t, repr
      ensures Assigning(ht, i + 1, 0) && (t == old(t) || fresh(t)) && fresh(repr - old(repr)) && ht.bc == old(ht.bc)
    {
      hide Indexed, Linked, Holds, Stores, Visited;
      var b := ht.t[i];
      ghost var p := 0;
      Head(ht.t, ht.chains, ht.repr, i);
      while b != null
        invariant p <= |ht.chains[i]| && b == At(ht.chains[i], p)
        invariant Assigning(ht, i, p) && (t == old(t) || fresh(t)) && fresh(repr - old(repr))
        modifies this, t, repr
        decreases |ht.chains[i]| - p
      {
        AssignNode(ht, i, p, b);
        Step(ht.t, ht.chains, ht.repr, i, p);
        b := b.next;
        p := p + 1;
      }
      VisitBucket(ht.chains, ht.model, model, i);
    }

    method AssignNode(ht: Table<K, V>, i: nat, ghost p: nat, b: Node<K, V>)
      requires Assigning(ht, i, p) && i < |ht.chains| && p < |ht.chains[i]| && b == ht.chains[i][p]
      modifies this, t, repr
      ensures Assigning(ht, i, p + 1) && (t == old(t) || fresh(t)) && fresh(repr - old(repr))
    {
      hide Valid, Visited;
      AssignReady(ht, i, p);
      var r := Set(b.k, b.v);
    }

    lemma AssignReady(ht: Table<K, V>, i: nat, p: nat)
      requires Assigning(ht, i, p) && i < |ht.chains| && p < |ht.chains[i]|
      ensures var b := ht.chains[i][p];
        b.k in ht.model && ht.model[b.k] == b.v && Visited(ht.chains, ht.model, model[b.k := b.v], i, p + 1)
    {
      hide Indexed, Linked, Holds, Stores, Visited;
      var b := ht.chains[i][p];
      Place(ht.hc, ht.chains, ht.nodes, i, p);
      SameKey(ht.nodes, ht.model, ht.repr, b.k);
      VisitNext(ht.hc, ht.chains, ht.nodes, ht.model, model, i, p);
    }

    /** Doubles the number of buckets and moves every node, or does nothing if there is no memory. */
    method Grow()
      requires Valid()
      modifies this, repr`next
      ensures Valid() && model == old(model) && nodes == old(nodes) && repr == old(repr) && (t == old(t) || fresh(t))
    {
      hide Indexed, Linked, Holds, Stores, Rehashing;
      if * { return; }
      var nc := bc * 2;
      var nt := new Node?<K, V>[nc](i => null);
      ghost var into: seq<Chain<K, V>> := seq(nc, i => []);
      ghost var done: map<K, Node<K, V>>, doneRepr: set<Node<K, V>> := map[], {};
      RehashStart(hc, chains, nodes, t, repr, nt, into);
      for i := 0 to bc
        invariant nt.Length == nc && Rehashing(hc, chains, nodes, t, repr, nt, into, done, doneRepr, i, 0)
        modifies nt, repr`next
      {
        var b := t[i];
        ghost var p := 0;
        BucketStart(hc, chains, nodes, t, repr, nt, into, done, doneRepr, i);
        while b != null
          invariant p <= |chains[i]| && b == At(chains[i], p)
          invariant Rehashing(hc, chains, nodes, t, repr, nt, into, done, doneRepr, i, p)
          modifies nt, repr`next
          decreases |chains[i]| - p
        {
          InWalk(hc, chains, nodes, t, repr, nt, into, done, doneRepr, i, p);
          var nb := b.next;
          var nidx := hc(b.k) % nc;
          ghost var moved := b;
          MoveNode(hc, chains, nodes, t, repr, nt, into, done, doneRepr, i, p, b, nidx);
          into, done, doneRepr := Pushed(into, nidx, moved), done[moved.k := moved], doneRepr + {moved};
          b := nb;
          p := p + 1;
        }
        BucketEnd(hc, chains, nodes, t, repr, nt, into, done, doneRepr, i);
      }
      RehashEnd(hc, chains, nodes, t, repr, nt, into, done, doneRepr);
      t, bc, chains := nt, nc, into;
    }
  }

  // ---- Rehashing ----

  /** Place (i', j) comes before place (i, p) on the walk through the buckets. */
  predicate Before(i': nat, j: nat, i: nat, p: nat) { i' < i || (i' == i && j < p) }

  /** The keys already visited are those before (i, p). */
  ghost predicate Visited<K(!new), V, W>(from: seq<Chain<K, V>>, all: map<K, W>, done: map<K, W>, i: nat, p: nat) {
    && (forall i', j | 0 <= i' < |from| && 0 <= j < |from[i']| :: from[i'][j].k in done <==> Before(i', j, i, p))
    && forall k | k in done :: k in all && done[k] == all[k]
  }

  /** The buckets from (i, p) on are still linked as they were. */
  ghost predicate Unmoved<K, V>(t: array<Node?<K, V>>, from: seq<Chain<K, V>>, repr: set<Node<K, V>>, i: nat, p: nat)
    reads t, repr`next
  {
    && |from| == t.Length
    && (forall i' | i <= i' < |from| && (i' > i || p == 0) :: t[i'] == At(from[i'], 0))
    && forall i', j | 0 <= i' < |from| && 0 <= j < |from[i']| && !Before(i', j, i, p) ::
         LinkedAt(from[i'], j, repr)
  }

  ghost predicate Rehashing<K(!new), V>(hc: K -> nat, from: seq<Chain<K, V>>, nodes: map<K, Node<K, V>>,
      t: array<Node?<K, V>>, repr: set<Node<K, V>>, nt: array<Node?<K, V>>, into: seq<Chain<K, V>>,
      done: map<K, Node<K, V>>, doneRepr: set<Node<K, V>>, i: nat, p: nat)
    reads t, nt, repr`next
  {
    && Indexed(hc, from, nodes) && Holds(nodes, repr) && t != nt && t.Length == |from|
    && Visited(from, nodes, done, i, p) && Unmoved(t, from, repr, i, p)
    && Indexed(hc, into, done) && Holds(done, doneRepr) && doneRepr <= repr && nt.Length == |into|
    && Linked(nt, into, doneRepr)
  }

  lemma InWalk<K(!new), V>(hc: K -> nat, from: seq<Chain<K, V>>, nodes: map<K, Node<K, V>>, t: array<Node?<K, V>>,
      repr: set<Node<K, V>>, nt: array<Node?<K, V>>, into: seq<Chain<K, V>>, done: map<K, Node<K, V>>,
      doneRepr: set<Node<K, V>>, i: nat, p: nat)
    requires i < |from| && p < |from[i]| && Rehashing(hc, from, nodes, t, repr, nt, into, done, doneRepr, i, p)
    ensures from[i][p] in repr && from[i][p].next == At(from[i], p + 1)
  {
    hide Indexed, Holds, Linked;
    assert LinkedAt(from[i], p, repr);
  }

  lemma RehashStart<K(!new), V>(hc: K -> nat, from: seq<Chain<K, V>>, nodes: map<K, Node<K, V>>, t: array<Node?<K, V>>,
      repr: set<Node<K, V>>, nt: array<Node?<K, V>>, into: seq<Chain<K, V>>)
    requires Indexed(hc, from, nodes) && Holds(nodes, repr) && Linked(t, from, repr) && t != nt
    requires 0 < nt.Length == |into| && (forall i | 0 <= i < |into| :: into[i] == [] && nt[i] == null)
    ensures Rehashing(hc, from, nodes, t, repr, nt, into, map[], {}, 0, 0)
  {
  }

  lemma BucketStart<K(!new), V>(hc: K -> nat, from: seq<Chain<K, V>>, nodes: map<K, Node<K, V>>, t: array<Node?<K, V>>,
      repr: set<Node<K, V>>, nt: array<Node?<K, V>>, into: seq<Chain<K, V>>, done: map<K, Node<K, V>>,
      doneRepr: set<Node<K, V>>, i: nat)
    requires Rehashing(hc, from, nodes, t, repr, nt, into, done, doneRepr, i, 0) && i < |from|
    ensures t[i] == At(from[i], 0)
  {
  }

  lemma BucketEnd<K(!new), V>(hc: K -> nat, from: seq<Chain<K, V>>, nodes: map<K, Node<K, V>>, t: array<Node?<K, V>>,
      repr: set<Node<K, V>>, nt: array<Node?<K, V>>, into: seq<Chain<K, V>>, done: map<K, Node<K, V>>,
      doneRepr: set<Node<K, V>>, i: nat)
    requires i < |from| && Rehashing(hc, from, nodes, t, repr, nt, into, done, doneRepr, i, |from[i]|)
    ensures Rehashing(hc, from, nodes, t, repr, nt, into, done, doneRepr, i + 1, 0)
  {
    hide Indexed, Holds, Linked;
    assert forall i', j | 0 <= i' < |from| && 0 <= j < |from[i']| :: Before(i', j, i, |from[i]|) <==>
        Before(i', j, i + 1, 0);
  }

  lemma RehashEnd<K(!new), V>(hc: K -> nat, from: seq<Chain<K, V>>, nodes: map<K, Node<K, V>>, t: array<Node?<K, V>>,
      repr: set<Node<K, V>>, nt: array<Node?<K, V>>, into: seq<Chain<K, V>>, done: map<K, Node<K, V>>,
      doneRepr: set<Node<K, V>>)
    requires Rehashing(hc, from, nodes, t, repr, nt, into, done, doneRepr, |from|, 0)
    ensures done == nodes && doneRepr == repr && 0 < |into| == nt.Length
    ensures Indexed(hc, into, nodes) && Linked(nt, into, repr)
  {
    hide Linked;
    AllVisited(hc, from, nodes, nodes, done);
    assert forall n :: n in doneRepr <==> n in repr;
  }

  lemma AllVisited<K(!new), V, W>(hc: K -> nat, from: seq<Chain<K, V>>, nodes: map<K, Node<K, V>>, all: map<K, W>,
      done: map<K, W>)
    requires Indexed(hc, from, nodes) && Visited(from, all, done, |from|, 0) && forall k | k in all :: k in nodes
    ensures done == all
  {
    forall k | k in all
      ensures k in done
    {
      var i' := hc(k) % |from|;
      var j :| 0 <= j < |from[i']| && from[i'][j] == nodes[k];
      assert Before(i', j, |from|, 0);
    }
  }

  /** One turn of the inner loop of _grow. */
  method MoveNode<K(!new), V>(ghost hc: K -> nat, ghost from: seq<Chain<K, V>>, ghost nodes: map<K, Node<K, V>>,
      ghost t: array<Node?<K, V>>, ghost repr: set<Node<K, V>>, nt: array<Node?<K, V>>, ghost into: seq<Chain<K, V>>,
      ghost done: map<K, Node<K, V>>, ghost doneRepr: set<Node<K, V>>, ghost i: nat, ghost p: nat, b: Node<K, V>,
      nidx: nat)
    requires i < |from| && p < |from[i]| && b == from[i][p]
    requires Rehashing(hc, from, nodes, t, repr, nt, into, done, doneRepr, i, p)
    requires nt.Length > 0 && nidx == hc(b.k) % nt.Length
    modifies nt, b`next
    ensures nidx < |into|
    ensures Rehashing(hc, from, nodes, t, repr, nt, Pushed(into, nidx, b), done[b.k := b], doneRepr + {b}, i, p + 1)
  {
    hide Indexed, Holds, Linked, Pushed, Unmoved, Visited;
    InRepr(hc, from, nodes, repr, i, p);
    VisitNext(hc, from, nodes, nodes, done, i, p);
    NotHeld(done, doneRepr, b);
    PushIndexed(hc, into, done, b);
    HoldsPushed(done, doneRepr, b);
    assert |into| == nt.Length;
    LinkFrontUnmoved(hc, nodes, t, from, repr, nt, into, doneRepr, nidx, i, p, b);
    assert Rehashing(hc, from, nodes, t, repr, nt, Pushed(into, nidx, b), done[b.k := b], doneRepr + {b}, i, p + 1);
  }

  lemma NotHeld<K(!new), V>(nodes: map<K, Node<K, V>>, repr: set<Node<K, V>>, b: Node<K, V>)
    requires Holds(nodes, repr) && b.k !in nodes
    ensures b !in repr
  {
  }

  lemma VisitNext<K(!new), V, W>(hc: K -> nat, from: seq<Chain<K, V>>, nodes: map<K, Node<K, V>>, all: map<K, W>,
      done: map<K, W>, i: nat, p: nat)
    requires Indexed(hc, from, nodes) && Visited(from, all, done, i, p) && i < |from| && p < |from[i]|
    requires from[i][p].k in all
    ensures var k := from[i][p].k; k !in done && Visited(from, all, done[k := all[k]], i, p + 1)
  {
    var k := from[i][p].k;
    assert !Before(i, p, i, p);
    forall i', j | 0 <= i' < |from| && 0 <= j < |from[i']|
      ensures from[i'][j].k in done[k := all[k]] <==> Before(i', j, i, p + 1)
    {
      OnePlace(hc, from, nodes, i', j, i, p);
    }
    hide Indexed;
  }

  lemma VisitBucket<K(!new), V, W>(from: seq<Chain<K, V>>, all: map<K, W>, done: map<K, W>, i: nat)
    requires i < |from| && Visited(from, all, done, i, |from[i]|)
    ensures Visited(from, all, done, i + 1, 0)
  {
    assert forall i', j | 0 <= i' < |from| && 0 <= j < |from[i']| :: Before(i', j, i, |from[i]|) <==>
        Before(i', j, i + 1, 0);
  }

  method LinkFrontUnmoved<K(!new), V>(ghost hc: K -> nat, ghost nodes: map<K, Node<K, V>>, ghost t: array<Node?<K, V>>,
      ghost from: seq<Chain<K, V>>, ghost repr: set<Node<K, V>>, nt: array<Node?<K, V>>, ghost into: seq<Chain<K, V>>,
      ghost doneRepr: set<Node<K, V>>, nidx: nat, ghost i: nat, ghost p: nat, b: Node<K, V>)
    requires Indexed(hc, from, nodes) && t != nt && Unmoved(t, from, repr, i, p) && i < |from| && p < |from[i]|
    requires b == from[i][p]
    requires Linked(nt, into, doneRepr) && nidx < nt.Length && b !in doneRepr
    modifies nt, b`next
    ensures Unmoved(t, from, repr, i, p + 1) && |into| == nt.Length == |Pushed(into, nidx, b)|
    ensures Linked(nt, Pushed(into, nidx, b), doneRepr + {b})
  {
    LinkFront(nt, into, doneRepr, nidx, b);
    forall i', j | 0 <= i' < |from| && 0 <= j < |from[i']| && !Before(i', j, i, p + 1)
      ensures from[i'][j] != b && !Before(i', j, i, p)
    {
      OnePlace(hc, from, nodes, i', j, i, p);
    }
    hide Indexed, Linked, Pushed;
  }

  method WriteValue<K(!new), V>(ghost nodes: map<K, Node<K, V>>, ghost model: map<K, V>, ghost repr: set<Node<K, V>>,
      b: Node<K, V>, v: V)
    requires Stores(nodes, model, repr) && Holds(nodes, repr) && b in repr
    modifies b`v
    ensures Stores(nodes, model[b.k := v], repr) && b.k in model && |model[b.k := v]| == |model|
  {
    b.v := v;
    assert model[b.k := v].Keys == model.Keys;
    assert |model[b.k := v].Keys| == |model[b.k := v]|;
  }

  ghost predicate Passed<K(!new), V>(c: Chain<K, V>, p: nat, k: K) { p <= |c| && forall j | 0 <= j < p :: c[j].k != k }

  lemma PassedNone<K(!new), V>(c: Chain<K, V>, k: K)
    ensures Passed(c, 0, k)
  {
  }

  lemma PassedOne<K(!new), V>(c: Chain<K, V>, p: nat, k: K)
    requires p < |c| && Passed(c, p, k) && c[p].k != k
    ensures Passed(c, p + 1, k)
  {
  }

  lemma Absent<K(!new), V>(hc: K -> nat, chains: seq<Chain<K, V>>, nodes: map<K, Node<K, V>>, k: K)
    requires Indexed(hc, chains, nodes)
    requires var c := chains[hc(k) % |chains|]; Passed(c, |c|, k)
    ensures k !in nodes
  {
  }

  lemma Head<K, V>(t: array<Node?<K, V>>, chains: seq<Chain<K, V>>, repr: set<Node<K, V>>, i: nat)
    requires Linked(t, chains, repr) && i < |chains| == t.Length
    ensures t[i] == At(chains[i], 0)
  {
  }

  lemma Step<K, V>(t: array<Node?<K, V>>, chains: seq<Chain<K, V>>, repr: set<Node<K, V>>, i: nat, p: nat)
    requires Linked(t, chains, repr) && i < |chains| && p < |chains[i]|
    ensures chains[i][p] in repr && chains[i][p].next == At(chains[i], p + 1)
  {
    assert LinkedAt(chains[i], p, repr);
  }

  lemma Nothing<K(!new), V>(hc: K -> nat, t: array<Node?<K, V>>, chains: seq<Chain<K, V>>)
    requires 0 < |chains| == t.Length && forall i | 0 <= i < |chains| :: t[i] == null && chains[i] == []
    ensures Indexed(hc, chains, map[]) && Holds<K, V>(map[], {}) && Linked(t, chains, {})
    ensures Stores<K, V>(map[], map[], {})
  {
  }

  lemma InRepr<K(!new), V>(hc: K -> nat, chains: seq<Chain<K, V>>, nodes: map<K, Node<K, V>>, repr: set<Node<K, V>>,
      i: nat, p: nat)
    requires Indexed(hc, chains, nodes) && Holds(nodes, repr) && i < |chains| && p < |chains[i]|
    ensures chains[i][p] in repr && chains[i][p].k in nodes && nodes[chains[i][p].k] == chains[i][p]
  {
  }

  lemma StoresRemoved<K(!new), V>(nodes: map<K, Node<K, V>>, model: map<K, V>, repr: set<Node<K, V>>, b: Node<K, V>)
    requires Stores(nodes, model, repr) && Holds(nodes, repr) && b in repr
    ensures Stores(nodes - {b.k}, model - {b.k}, repr - {b}) && b.k in model && |model - {b.k}| == |model| - 1
  {
    assert model == (model - {b.k})[b.k := model[b.k]];
  }

  /** Erase's pointer change. */
  method Unlink<K(!new), V>(ghost hc: K -> nat, ghost nodes: map<K, Node<K, V>>, t: array<Node?<K, V>>,
      ghost chains: seq<Chain<K, V>>, ghost repr: set<Node<K, V>>, i: nat, ghost p: nat, lastb: Node?<K, V>,
      b: Node<K, V>)
    requires Linked(t, chains, repr) && Indexed(hc, chains, nodes) && i < |chains| && p < |chains[i]|
    requires b == chains[i][p]
    requires lastb == if p == 0 then null else chains[i][p - 1]
    modifies t, repr`next
    ensures Linked(t, Without(chains, i, p), repr - {b})
  {
    hide Indexed, Without;
    ghost var after := Without(chains, i, p);
    assert LinkedAt(chains[i], p, repr);
    if lastb != null {
      assert LinkedAt(chains[i], p - 1, repr);
      lastb.next := b.next;
    } else {
      t[i] := b.next;
    }
    forall i' | 0 <= i' < |after|
      ensures t[i'] == At(after[i'], 0)
    {
      WithoutHead(chains, i, p, i');
    }
    forall i', j | 0 <= i' < |after| && 0 <= j < |after[i']|
      ensures LinkedAt(after[i'], j, repr - {b})
    {
      WithoutAt(chains, i, p, i', j);
      var j' := if i' == i && j >= p then j + 1 else j;
      assert old(LinkedAt(chains[i'], j', repr));
      OnePlace(hc, chains, nodes, i', j', i, p);
      if p > 0 { OnePlace(hc, chains, nodes, i', j', i, p - 1); }
    }
  }

  lemma WithoutHead<K, V>(chains: seq<Chain<K, V>>, i: nat, p: nat, i': nat)
    requires i < |chains| && p < |chains[i]| && i' < |chains|
    ensures At(Without(chains, i, p)[i'], 0) == if i' == i && p == 0 then At(chains[i], 1) else At(chains[i'], 0)
  {
  }

  lemma WithoutAt<K, V>(chains: seq<Chain<K, V>>, i: nat, p: nat, i': nat, j: nat)
    requires i < |chains| && p < |chains[i]| && i' < |chains| && j < |Without(chains, i, p)[i']|
    ensures var j' := if i' == i && j >= p then j + 1 else j;
      j' < |chains[i']| && Without(chains, i, p)[i'][j] == chains[i'][j']
    ensures At(Without(chains, i, p)[i'], j + 1) == At(chains[i'], if i' == i && j + 1 >= p then j + 2 else j + 1)
  {
  }

  method LinkFront<K, V>(t: array<Node?<K, V>>, ghost chains: seq<Chain<K, V>>, ghost repr: set<Node<K, V>>, i: nat,
      b: Node<K, V>)
    requires Linked(t, chains, repr) && i < t.Length && b !in repr
    modifies t, b`next
    ensures Linked(t, Pushed(chains, i, b), repr + {b})
    ensures b.v == old(b.v) && forall n | n in repr :: n.next == old(n.next)
  {
    b.next := t[i];
    t[i] := b;
    ghost var after := Pushed(chains, i, b);
    forall i', j | 0 <= i' < |after| && 0 <= j < |after[i']|
      ensures LinkedAt(after[i'], j, repr + {b})
    {
      if i' != i {
        assert old(LinkedAt(chains[i'], j, repr));
      } else if j > 0 {
        assert old(LinkedAt(chains[i], j - 1, repr));
      }
    }
  }

  // ---- Iteration ----

  function Flat<K, V>(chains: seq<Chain<K, V>>, i: nat): Chain<K, V>
    decreases |chains| - i
  {
    if i >= |chains| then [] else chains[i] + Flat(chains, i + 1)
  }

  ghost predicate DistinctKeys<K(!new), V>(c: Chain<K, V>) { forall x, y | 0 <= x < y < |c| :: c[x].k != c[y].k }

  lemma {:induction false} FlatPlace<K, V>(chains: seq<Chain<K, V>>, i: nat, x: nat) returns (i': nat, j: nat)
    requires x < |Flat(chains, i)|
    ensures i <= i' < |chains| && j < |chains[i']| && chains[i'][j] == Flat(chains, i)[x]
    decreases |chains| - i
  {
    if x < |chains[i]| {
      i', j := i, x;
    } else {
      i', j := FlatPlace(chains, i + 1, x - |chains[i]|);
    }
  }

  lemma {:induction false} FlatHas<K, V>(chains: seq<Chain<K, V>>, i: nat, i': nat, j: nat)
    requires i <= i' < |chains| && j < |chains[i']|
    ensures chains[i'][j] in Flat(chains, i)
    decreases i' - i
  {
    if i < i' {
      FlatHas(chains, i + 1, i', j);
    } else {
      assert Flat(chains, i)[j] == chains[i][j];
    }
  }

  lemma {:induction false} FlatDistinct<K(!new), V>(hc: K -> nat, chains: seq<Chain<K, V>>, nodes: map<K, Node<K, V>>,
      i: nat)
    requires Indexed(hc, chains, nodes)
    ensures DistinctKeys(Flat(chains, i))
    decreases |chains| - i
  {
    hide Indexed;
    if i < |chains| {
      FlatDistinct(hc, chains, nodes, i + 1);
      var c, n := Flat(chains, i), |chains[i]|;
      forall x, y | 0 <= x < y < |c|
        ensures c[x].k != c[y].k
      {
        if y < n {
          OnePlace(hc, chains, nodes, i, x, i, y);
        } else if x < n {
          var i', j := FlatPlace(chains, i + 1, y - n);
          OnePlace(hc, chains, nodes, i, x, i', j);
        } else {
          var d := Flat(chains, i + 1);
          assert d[x - n].k != d[y - n].k;
        }
      }
    }
  }

  lemma {:induction false} FlatSame<K, V>(c: seq<Chain<K, V>>, d: seq<Chain<K, V>>, i: nat)
    requires |c| == |d| && forall i' | i <= i' < |c| :: c[i'] == d[i']
    ensures Flat(c, i) == Flat(d, i)
    decreases |c| - i
  {
    if i < |c| { FlatSame(c, d, i + 1); }
  }

  predicate Suffix<K, V>(rest: Chain<K, V>, c: Chain<K, V>) { |rest| <= |c| && rest == c[|c| - |rest|..] }

  lemma SuffixOfAll<K(!new), V>(all: Chain<K, V>, before: Chain<K, V>, c: Chain<K, V>, tail: Chain<K, V>,
      rest: Chain<K, V>)
    requires all == before + (c + tail) && Suffix(rest, c) && DistinctKeys(all)
    ensures DistinctKeys(rest + tail) && forall n | n in rest + tail :: n in all
  {
    var p: Chain<K, V> := rest + tail;
    forall x | 0 <= x < |p|
      ensures p[x] == all[|all| - |p| + x]
    {
    }
  }

  class Iterator<K(==, !new), V> {
    const ht: Table<K, V>
    var idx: nat
    var b: Node?<K, V>
    /** The nodes of the current bucket that are still to come. */
    ghost var rest: Chain<K, V>

    ghost predicate Valid()
      reads this, ht, ht.t, ht.repr
    {
      ht.Valid() && b == At(rest, 0) && if idx < |ht.chains| then Suffix(rest, ht.chains[idx]) else rest == []
    }

    /** Everything still to be returned. */
    ghost function Pending(): Chain<K, V>
      reads this, ht
    {
      rest + Flat(ht.chains, idx + 1)
    }

    /** n was returned last, and is still in the table. */
    ghost predicate Last(n: Node<K, V>)
      reads this, ht
    {
      idx < |ht.chains| && var c := ht.chains[idx]; |rest| < |c| && c[|c| - |rest| - 1] == n
    }

    constructor (ht: Table<K, V>)
      requires ht.Valid()
      ensures Valid() && this.ht == ht && Pending() == ht.Entries()
    {
      hide Indexed, Linked, Holds, Stores;
      this.ht, idx, b := ht, 0, ht.t[0];
      rest := ht.chains[0];
      new;
      Head(ht.t, ht.chains, ht.repr, 0);
    }

    lemma TableIsValid()
      requires Valid()
      ensures ht.Valid()
    {
    }

    /** What is still to come are entries of the table, each key at most once. */
    lemma PendingInTable()
      requires Valid()
      ensures forall n | n in Pending() :: n in ht.repr && n.k in ht.model && n.v == ht.model[n.k]
      ensures DistinctKeys(Pending())
    {
      hide Indexed, Linked, Holds, Stores;
      ht.EntriesAreModel();
      var before := FlatFrom(ht.chains, idx);
      hide Flat, Table.Valid;
      if idx < |ht.chains| {
        var c := ht.chains[idx];
        SuffixOfAll(ht.Entries(), before, c, Flat(ht.chains, idx + 1), rest);
      }
    }

    method Next() returns (n: Node?<K, V>)
      requires Valid()
      modifies this
      ensures Valid()
      ensures if n == null then old(Pending()) == [] == Pending() else old(Pending()) == [n] + Pending() && Last(n)
    {
      hide Indexed, Linked, Holds, Stores;
      while true
        invariant Valid() && Pending() == old(Pending())
        decreases |ht.chains| - idx
      {
        if b != null {
          n := b;
          Step(ht.t, ht.chains, ht.repr, idx, |ht.chains[idx]| - |rest|);
          b := b.next;
          rest := rest[1..];
          return;
        }
        idx := idx + 1;
        if idx >= ht.bc {
          return null;
        }
        Head(ht.t, ht.chains, ht.repr, idx);
        b := ht.t[idx];
        rest := ht.chains[idx];
      }
    }

    /** Erasing the key that was returned last leaves the iterator where it was. */
    method EraseLast(n: Node<K, V>) returns (erased: bool)
      requires Valid() && Last(n)
      modifies ht, ht.t, ht.repr`next
      ensures Valid() && Pending() == old(Pending()) && ht.t == old(ht.t) && ht.repr <= old(ht.repr)
      ensures erased && n.k in old(ht.model) && ht.model == old(ht.model) - {n.k}
    {
      hide Indexed, Linked, Holds, Stores, Flat, Without;
      ghost var before, nodes, p := ht.chains, ht.nodes, 0;
      ghost var at := |before[idx]| - |rest| - 1;
      Place(ht.hc, before, nodes, idx, at);
      SameKey(nodes, ht.model, ht.repr, n.k);
      erased, p := ht.Erase(n.k);
      OnePlace(ht.hc, before, nodes, idx, at, ht.hc(n.k) % |before|, p);
      StillSuffix(before, idx, at, rest);
    }
  }

  lemma {:induction false} FlatFrom<K, V>(chains: seq<Chain<K, V>>, i: nat) returns (before: Chain<K, V>)
    ensures Flat(chains, 0) == before + Flat(chains, i)
  {
    if i == 0 {
      before := [];
    } else {
      before := FlatFrom(chains, i - 1);
      before := if i - 1 < |chains| then before + chains[i - 1] else before;
    }
  }

  lemma StillSuffix<K, V>(chains: seq<Chain<K, V>>, i: nat, p: nat, rest: Chain<K, V>)
    requires i < |chains| && p < |chains[i]| && Suffix(rest, chains[i]) && p == |chains[i]| - |rest| - 1
    ensures Suffix(rest, Without(chains, i, p)[i]) && Flat(Without(chains, i, p), i + 1) == Flat(chains, i + 1)
  {
    FlatSame(Without(chains, i, p), chains, i + 1);
  }
}
