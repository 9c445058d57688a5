/**
 * ConsistentHash: a weighted ring of 1000 virtual positions. A node of
 * weight w gets (1000 * w) / totalWeight replicas, each placed at the MD5 of
 * the node's text followed by the replica number, reduced by Java's `%`.
 * Lookup takes the first position at or after the key's position, wrapping
 * around to the smallest one.
 *
 * MD5 (BasicUtilities.getMD5, a non-negative BigInteger) is the parameter
 * `md5`, an arbitrary function from text to natural numbers.
 */
module Hashing {
  import opened Wrappers
  import opened JavaText
  import opened EndPoints

  const VirtualNodeCount := 1000

  /** getMD5(s).intValue() % virtualNodeCount: the low 32 bits as an `int`,
      then a remainder that keeps the sign of the dividend. */
  function Position(md5: string -> nat, s: string): (r: int)
    ensures -VirtualNodeCount < r < VirtualNodeCount
  {
    JavaRem(Wrap32(md5(s)), VirtualNodeCount)
  }

  /** The positions of replicas 0 .. n-1 of the node whose text is `name`. */
  function Positions(md5: string -> nat, name: string, n: nat): (r: seq<int>)
    ensures |r| == n
    ensures forall i {:trigger IntToDecimal(i), r[i]} :: 0 <= i < n ==> r[i] == Position(md5, name + IntToDecimal(i))
  {
    if n == 0 then [] else Positions(md5, name, n - 1) + [Position(md5, name + IntToDecimal(n - 1))]
  }

  /** getReplicaCount: (virtualNodeCount * weight) / totalWeight in `int`
      arithmetic; a zero total is an ArithmeticException. */
  function ReplicaCountOf(weight: int, total: int): (r: Result<int>)
    ensures r.Err? <==> total == 0
    ensures r.Err? ==> r.error == RuntimeFailure(Arithmetic)
  {
    if total == 0 then Err(RuntimeFailure(Arithmetic))
    else Ok(Wrap32(JavaDiv(Wrap32(VirtualNodeCount * weight), total)))
  }

  /** A replica count as a loop bound: `for (i = 0; i < n; i++)` runs max(n, 0) times. */
  function Clamp(n: int): nat {
    if n < 0 then 0 else n
  }

  // ------------------------------------------------ circle updates as values

  /** The circle after put(p, node) for every p in `ps`, in order. */
  function PutAll<T>(c: map<int, T>, ps: seq<int>, node: T): map<int, T> {
    if |ps| == 0 then c else PutAll(c, ps[..|ps| - 1], node)[ps[|ps| - 1] := node]
  }

  /** The circle after remove(p) for every p in `ps`, whoever owns p. */
  function RemoveAll<T>(c: map<int, T>, ps: seq<int>): map<int, T> {
    if |ps| == 0 then c else RemoveAll(c, ps[..|ps| - 1]) - {ps[|ps| - 1]}
  }

  /** Adding puts the node at exactly its positions and leaves every other position alone. */
  lemma {:induction false} PutAllSpec<T>(c: map<int, T>, ps: seq<int>, node: T)
    ensures PutAll(c, ps, node).Keys == c.Keys + set p | p in ps
    ensures forall p :: p in ps ==> PutAll(c, ps, node)[p] == node
    ensures forall k :: k in c && k !in ps ==> PutAll(c, ps, node)[k] == c[k]
  {
    if |ps| > 0 {
      var init := ps[..|ps| - 1];
      PutAllSpec(c, init, node);
      assert forall p :: p in ps <==> p in init || p == ps[|ps| - 1];
    }
  }

  /** Removing deletes exactly the given positions, whoever owns them, and nothing else. */
  lemma {:induction false} RemoveAllSpec<T>(c: map<int, T>, ps: seq<int>)
    ensures RemoveAll(c, ps).Keys == c.Keys - set p | p in ps
    ensures forall k :: k in RemoveAll(c, ps) ==> RemoveAll(c, ps)[k] == c[k]
  {
    if |ps| > 0 {
      var init := ps[..|ps| - 1];
      RemoveAllSpec(c, init);
      assert forall p :: p in ps <==> p in init || p == ps[|ps| - 1];
    }
  }

  /** Removing a node's positions undoes adding it when it took no occupied position. */
  lemma RemoveUndoesPut<T>(c: map<int, T>, ps: seq<int>, node: T)
    requires forall p :: p in ps ==> p !in c
    ensures RemoveAll(PutAll(c, ps, node), ps) == c
  {
    PutAllSpec(c, ps, node);
    RemoveAllSpec(PutAll(c, ps, node), ps);
    var r := RemoveAll(PutAll(c, ps, node), ps);
    forall k
      ensures k in r <==> k in c
    {
    }
    assert r.Keys == c.Keys;
    forall k | k in r
      ensures r[k] == c[k]
    {
    }
  }

  lemma PutAllSnoc<T>(c: map<int, T>, ps: seq<int>, p: int, node: T)
    ensures PutAll(c, ps + [p], node) == PutAll(c, ps, node)[p := node]
  {
    assert (ps + [p])[..|ps|] == ps;
  }

  lemma RemoveAllSnoc<T>(c: map<int, T>, ps: seq<int>, p: int)
    ensures RemoveAll(c, ps + [p]) == RemoveAll(c, ps) - {p}
  {
    assert (ps + [p])[..|ps|] == ps;
  }

  /** The weights summed in `int` arithmetic, first to last. */
  function TotalWeightOf(nodes: seq<EndPoint>): (r: int)
    reads nodes
    ensures IsInt32(r)
  {
    if |nodes| == 0 then 0 else Wrap32(TotalWeightOf(nodes[..|nodes| - 1]) + nodes[|nodes| - 1].weight)
  }

  function SumInts(ws: seq<int>): int {
    if |ws| == 0 then 0 else SumInts(ws[..|ws| - 1]) + ws[|ws| - 1]
  }

  function Weights(nodes: seq<EndPoint>): (r: seq<int>)
    reads nodes
    ensures |r| == |nodes|
    ensures forall k :: 0 <= k < |nodes| ==> r[k] == nodes[k].weight
  {
    seq(|nodes|, k reads nodes requires 0 <= k < |nodes| => nodes[k].weight)
  }

  /** Wrapping after every addition is wrapping the true sum once. */
  lemma {:induction false} TotalWeightIsWrappedSum(nodes: seq<EndPoint>)
    ensures TotalWeightOf(nodes) == Wrap32(SumInts(Weights(nodes)))
  {
    if |nodes| > 0 {
      var init := nodes[..|nodes| - 1];
      TotalWeightIsWrappedSum(init);
      assert Weights(nodes)[..|nodes| - 1] == Weights(init);
      WrapAffine(TotalWeightOf(init), SumInts(Weights(init)), 1, nodes[|nodes| - 1].weight);
    }
  }

  lemma TotalWeightStep(nodes: seq<EndPoint>, k: int)
    requires 0 <= k < |nodes|
    ensures TotalWeightOf(nodes[..k + 1]) == Wrap32(TotalWeightOf(nodes[..k]) + nodes[k].weight)
  {
    assert nodes[..k + 1][..k] == nodes[..k];
  }

  /** The circle the constructor builds: every node added in order, or the
      ArithmeticException of the first add when the total weight is zero. */
  function BuildCircle(md5: string -> nat, total: int, nodes: seq<EndPoint>): (r: Result<map<int, EndPoint>>)
    reads nodes
    ensures r.Err? <==> |nodes| > 0 && total == 0
    ensures r.Ok? ==> forall p :: p in r.value ==> r.value[p] in nodes
  {
    if |nodes| == 0 then Ok(map[])
    else
      var last := nodes[|nodes| - 1];
      match BuildCircle(md5, total, nodes[..|nodes| - 1])
      case Err(e) => Err(e)
      case Ok(c) =>
        match ReplicaCountOf(last.weight, total)
        case Err(e) => Err(e)
        case Ok(n) =>
          var ps := Positions(md5, last.ToString(), Clamp(n));
          PutAllSpec(c, ps, last);
          Ok(PutAll(c, ps, last))
  }

  /** One more node added to the circle built so far. */
  lemma BuildCircleStep(md5: string -> nat, total: int, nodes: seq<EndPoint>, k: int, c: map<int, EndPoint>)
    requires 0 <= k < |nodes|
    requires BuildCircle(md5, total, nodes[..k]) == Ok(c)
    ensures ReplicaCountOf(nodes[k].weight, total).Err? ==> BuildCircle(md5, total, nodes).Err?
    ensures ReplicaCountOf(nodes[k].weight, total).Ok? ==>
      var n := ReplicaCountOf(nodes[k].weight, total).value;
      BuildCircle(md5, total, nodes[..k + 1])
        == Ok(PutAll(c, Positions(md5, nodes[k].ToString(), Clamp(n)), nodes[k]))
  {
    assert nodes[..k + 1][..k] == nodes[..k];
  }

  // -------------------------------------------------------------- lookup

  lemma {:induction false} LeastExists(s: set<int>)
    requires s != {}
    ensures exists m :: m in s && forall x :: x in s ==> m <= x
    decreases s
  {
    var y := PickMember(s);
    var rest := s - {y};
    if rest == {} {
      forall x | x in s
        ensures y <= x
      {
        assert x !in rest;
      }
      assert y in s && forall x :: x in s ==> y <= x;
    } else {
      LeastExists(rest);
      var m :| m in rest && forall x :: x in rest ==> m <= x;
      var least := if y < m then y else m;
      forall x | x in s
        ensures least <= x
      {
        if x != y {
          assert x in rest;
        }
      }
      assert least in s && forall x :: x in s ==> least <= x;
    }
  }

  /** SortedMap.firstKey on a key set. */
  function Least(s: set<int>): (m: int)
    requires s != {}
    ensures m in s && forall x :: x in s ==> m <= x
  {
    LeastExists(s);
    var m :| m in s && forall x :: x in s ==> m <= x;
    m
  }

  /** The position a key `h` maps to: the first key at or after `h`, or the
      first key overall when every key is below `h`. */
  function Successor(keys: set<int>, h: int): (k: int)
    requires keys != {}
    ensures k in keys
    ensures (exists x :: x in keys && x >= h) ==> h <= k && forall x :: x in keys && x >= h ==> k <= x
    ensures (forall x :: x in keys ==> x < h) ==> forall x :: x in keys ==> k <= x
  {
    if h in keys then h
    else
      var tail := set x | x in keys && x >= h;
      assert forall x :: x in keys && x >= h ==> x in tail;
      if tail == {} then Least(keys) else Least(tail)
  }

  /** get(key, circle): null for an empty circle, otherwise the owner of the
      successor of the key's position. */
  function Get<T(==)>(md5: string -> nat, key: string, circle: map<int, T>): (r: Option<T>)
    ensures r.None? <==> |circle| == 0
    ensures r.Some? ==> r.value in circle.Values
    ensures r.Some? ==> r.value == circle[Successor(circle.Keys, Position(md5, key))]
  {
    if |circle| == 0 then None
    else
      var hash := Position(md5, key);
      var k := if hash in circle then hash
               else
                 var tailMap := set x | x in circle && x >= hash;
                 if tailMap == {} then Least(circle.Keys) else Least(tailMap);
      Some(circle[k])
  }

  // ------------------------------------------------------ replica budget

  function SumReplicas(ws: seq<int>, total: int): int
    requires total > 0
  {
    if |ws| == 0 then 0 else SumReplicas(ws[..|ws| - 1], total) + (VirtualNodeCount * ws[|ws| - 1]) / total
  }

  lemma FloorTimes(a: int, t: int)
    requires a >= 0 && t > 0
    ensures (a / t) * t <= a
  {
  }

  lemma {:induction false} SumReplicasScaled(ws: seq<int>, total: int)
    requires total > 0
    requires forall k :: 0 <= k < |ws| ==> ws[k] >= 0
    ensures SumReplicas(ws, total) * total <= VirtualNodeCount * SumInts(ws)
  {
    if |ws| > 0 {
      var init := ws[..|ws| - 1];
      var w := ws[|ws| - 1];
      SumReplicasScaled(init, total);
      FloorTimes(VirtualNodeCount * w, total);
      assert SumReplicas(ws, total) * total
          == SumReplicas(init, total) * total + ((VirtualNodeCount * w) / total) * total;
    }
  }

  /** With non-negative weights and no `int` overflow, the replica counts of all
      nodes add up to at most the 1000 virtual nodes. */
  lemma ReplicaCountsFitTheRing(ws: seq<int>)
    requires forall k :: 0 <= k < |ws| ==> ws[k] >= 0
    requires 0 < SumInts(ws) && VirtualNodeCount * SumInts(ws) < 0x8000_0000
    ensures SumReplicas(ws, SumInts(ws)) <= VirtualNodeCount
  {
    var t := SumInts(ws);
    SumReplicasScaled(ws, t);
    var s := SumReplicas(ws, t);
  }

  /** Under the same conditions the `int` arithmetic of getReplicaCount is exact. */
  lemma ReplicaCountExact(w: int, total: int)
    requires 0 <= w <= total && 0 < total && VirtualNodeCount * total < 0x8000_0000
    ensures ReplicaCountOf(w, total) == Ok((VirtualNodeCount * w) / total)
  {
    var m := VirtualNodeCount * w;
    assert 0 <= m < 0x8000_0000;
    FloorAtMost(m, total);
    assert Wrap32(m) == m && JavaDiv(m, total) == m / total;
  }

  lemma FloorAtMost(a: int, t: int)
    requires a >= 0 && t > 0
    ensures 0 <= a / t <= a
  {
    FloorNonNegative(a, t);
    FloorTimes(a, t);
    MulAtLeast(a / t, t);
  }

  lemma FloorNonNegative(a: int, t: int)
    requires a >= 0 && t > 0
    ensures a / t >= 0
  {
  }

  lemma {:induction false} MulAtLeast(q: nat, t: int)
    requires t >= 1
    ensures q <= q * t
    decreases q
  {
    if q > 0 {
      MulAtLeast(q - 1, t);
      assert q * t == (q - 1) * t + t;
    }
  }

  // ----------------------------------------------------------- the class

  class ConsistentHash {
    /** The MD5 digest function the ring hashes with. */
    const md5: string -> nat
    var totalWeight: int
    /** newCircle: position -> owning node. */
    var circle: map<int, EndPoint>

    constructor Empty(md5: string -> nat)
      ensures this.md5 == md5 && totalWeight == 0 && circle == map[]
    {
      this.md5 := md5;
      totalWeight := 0;
      circle := map[];
    }

    /** ConsistentHash(Collection<EndPoint>): total weight first, then every node added. */
    static method Create(nodes: seq<EndPoint>, md5: string -> nat) returns (r: Result<ConsistentHash>)
      ensures r.Ok? ==> fresh(r.value) && r.value.md5 == md5
      ensures r.Ok? ==> r.value.totalWeight == TotalWeightOf(nodes)
      ensures BuildCircle(md5, TotalWeightOf(nodes), nodes).Err? <==> r.Err?
      ensures r.Err? ==> r.error == RuntimeFailure(Arithmetic)
      ensures r.Ok? ==> r.value.circle == BuildCircle(md5, TotalWeightOf(nodes), nodes).value
    {
      var h := new ConsistentHash.Empty(md5);
      h.SumWeights(nodes);
      var added := h.AddAll(nodes);
      if added.Err? {
        return Err(added.error);
      }
      return Ok(h);
    }

    /** The constructor's first loop: totalWeight += node.getWeight() for every node. */
    method SumWeights(nodes: seq<EndPoint>)
      modifies this
      requires totalWeight == 0
      ensures totalWeight == TotalWeightOf(nodes) && circle == old(circle)
    {
      for k := 0 to |nodes|
        invariant totalWeight == TotalWeightOf(nodes[..k])
        invariant circle == old(circle)
      {
        TotalWeightStep(nodes, k);
        totalWeight := Wrap32(totalWeight + nodes[k].weight);
      }
      assert nodes[..|nodes|] == nodes;
    }

    /** The constructor's second loop: add(node) for every node, stopping at the first exception. */
    method AddAll(nodes: seq<EndPoint>) returns (r: Result<()>)
      modifies this
      requires circle == map[]
      ensures totalWeight == old(totalWeight)
      ensures BuildCircle(md5, totalWeight, nodes).Err? <==> r.Err?
      ensures r.Err? ==> r.error == RuntimeFailure(Arithmetic)
      ensures r.Ok? ==> circle == BuildCircle(md5, totalWeight, nodes).value
    {
      for k := 0 to |nodes|
        invariant totalWeight == old(totalWeight)
        invariant BuildCircle(md5, totalWeight, nodes[..k]) == Ok(circle)
      {
        var added := AddNext(nodes, k);
        if added.Err? {
          return added;
        }
      }
      assert nodes[..|nodes|] == nodes;
      return Ok(());
    }

    /** One turn of the constructor's loop: add(nodes[k]) on the circle built from the nodes before it. */
    method AddNext(nodes: seq<EndPoint>, k: int) returns (r: Result<()>)
      modifies this
      requires 0 <= k < |nodes| && BuildCircle(md5, totalWeight, nodes[..k]) == Ok(circle)
      ensures totalWeight == old(totalWeight)
      ensures BuildCircle(md5, totalWeight, nodes[..k + 1]).Err? <==> r.Err?
      ensures r.Err? ==> r.error == RuntimeFailure(Arithmetic)
      ensures r.Ok? ==> BuildCircle(md5, totalWeight, nodes[..k + 1]) == Ok(circle)
    {
      BuildCircleStep(md5, totalWeight, nodes, k, circle);
      ghost var next := BuildCircle(md5, totalWeight, nodes[..k + 1]);
      r := Add(nodes[k]);
      assert BuildCircle(md5, totalWeight, nodes[..k + 1]) == next;
    }

    /** add(EndPoint): the node put at each of its replica positions, overwriting
        whichever node held a position before. */
    method Add(node: EndPoint) returns (r: Result<()>)
      modifies this
      ensures totalWeight == old(totalWeight)
      ensures var n := ReplicaCountOf(node.weight, totalWeight);
        (n.Err? ==> r == Err(RuntimeFailure(Arithmetic)) && circle == old(circle)) &&
        (n.Ok? ==> r.Ok? && circle == PutAll(old(circle), Positions(md5, node.ToString(), Clamp(n.value)), node))
    {
      var count := ReplicaCountOf(node.weight, totalWeight);
      if count.Err? {
        return Err(count.error);
      }
      var numberOfReplicas := count.value;
      var name := node.ToString();
      var i := 0;
      while i < numberOfReplicas
        invariant 0 <= i <= Clamp(numberOfReplicas)
        invariant circle == PutAll(old(circle), Positions(md5, name, i), node)
        invariant totalWeight == old(totalWeight)
      {
        PutAllSnoc(old(circle), Positions(md5, name, i), Position(md5, name + IntToDecimal(i)), node);
        circle := circle[Position(md5, name + IntToDecimal(i)) := node];
        i := i + 1;
      }
      assert i == Clamp(numberOfReplicas);
      return Ok(());
    }

    /** remove(EndPoint): every replica position of the node deleted, even one
        that another node has taken over since. */
    method Remove(node: EndPoint) returns (r: Result<()>)
      modifies this
      ensures totalWeight == old(totalWeight)
      ensures var n := ReplicaCountOf(node.weight, totalWeight);
        (n.Err? ==> r == Err(RuntimeFailure(Arithmetic)) && circle == old(circle)) &&
        (n.Ok? ==> r.Ok? && circle == RemoveAll(old(circle), Positions(md5, node.ToString(), Clamp(n.value))))
    {
      var count := ReplicaCountOf(node.weight, totalWeight);
      if count.Err? {
        return Err(count.error);
      }
      var numberOfReplicas := count.value;
      var name := node.ToString();
      var i := 0;
      while i < numberOfReplicas
        invariant 0 <= i <= Clamp(numberOfReplicas)
        invariant circle == RemoveAll(old(circle), Positions(md5, name, i))
        invariant totalWeight == old(totalWeight)
      {
        RemoveAllSnoc(old(circle), Positions(md5, name, i), Position(md5, name + IntToDecimal(i)));
        circle := circle - {Position(md5, name + IntToDecimal(i))};
        i := i + 1;
      }
      assert i == Clamp(numberOfReplicas);
      return Ok(());
    }
  }
}
