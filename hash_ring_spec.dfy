/** Value-level model of the consistent-hash ring of consistenthashing.go:
    the two tables the ring keeps, how a new node claims its virtual-node
    positions, how a query position is routed, and what adding and removing
    a node do to the tables. The `CHash` class in module ConsistentHashing is
    proved against these definitions. */
module HashRingSpec {
  import opened Wrappers

  /** Go's `uint32`: a point of the ring. */
  type Position = x: int | 0 <= x < 0x1_0000_0000

  type Byte = x: int | 0 <= x < 0x100

  type Bytes = seq<Byte>

  /** A node name. A Go `string` is a byte string, and names are only ever
      compared and used as map keys. */
  type Name = Bytes

  datatype CHashError =
    | WantAtLeastOneNode      // NewCHash with no nodes
    | BadWeight               // weight below 1
    | NamingFailed(cause: string)
    | NodeExisted(name: Name)
    | NodeNotExist(name: Name)
    | ZeroNode                // lookup on a ring without virtual nodes

  /** A registered node: its name, the positions it owns, the caller's value. */
  datatype RealNode<Node> = RealNode(name: Name, virtualNodeIndexs: set<Position>, node: Node)

  /** One position of the ring and the node that owns it. */
  datatype VirtualNode<Node> = VirtualNode(beginIndex: Position, owner: Name, node: Node)

  /** The caller-pluggable behaviour (`chashOption`). */
  datatype CHashOption<!Node> = CHashOption(
    nodeNaming: Node -> Result<Name, string>,
    indexer: Bytes -> Position,
    virtualNodeFactor: int,
    weightSpecify: Node -> int)

  /** The factor used when the caller gave none: enough virtual nodes for
      about 1500 positions in all, and never fewer than 5 per node. */
  function AdaptVirtualNodeFactor(factor: int, nodeSize: int): (r: int)
    requires nodeSize >= 1
    ensures r >= 1
    ensures factor > 0 ==> r == factor
    ensures factor <= 0 ==> r >= 5
    ensures factor <= 0 && nodeSize <= 300 ==> 1500 - nodeSize < r * nodeSize <= 1500
    ensures factor <= 0 && nodeSize > 300 ==> r == 5
  {
    if factor > 0 then factor
    else
      var f := 1500 / nodeSize;
      if f < 5 then 5 else f
  }

  function Adapted<Node>(option: CHashOption<Node>, nodeSize: int): CHashOption<Node>
    requires nodeSize >= 1
  {
    option.(virtualNodeFactor := AdaptVirtualNodeFactor(option.virtualNodeFactor, nodeSize))
  }

  // ---------------------------------------------------------------------
  // Candidate keys and claiming of positions

  /** `#constinctethashing#` in ASCII: the separator inside every
      candidate key. */
  const KeySeparator: Bytes :=
    [35, 99, 111, 110, 115, 116, 105, 110, 99, 116, 101, 116, 104, 97, 115, 104, 105, 110, 103, 35]

  /** Decimal digits of `i`, as `%d` prints them: ASCII digits, the last
      one `i % 10`, and no leading zero. */
  function Decimal(i: nat): (r: Bytes)
    ensures 1 <= |r| && (i >= 10 ==> |r| >= 2)
    ensures forall k | 0 <= k < |r| :: 48 <= r[k] <= 57
    ensures r[|r| - 1] == 48 + i % 10
    ensures r[0] == 48 ==> i == 0
    decreases i
  {
    if i < 10 then [48 + i] else Decimal(i / 10) + [48 + i % 10]
  }

  /** Distinct numbers print differently. */
  lemma {:induction false} DecimalInjective(i: nat, j: nat)
    requires Decimal(i) == Decimal(j)
    ensures i == j
    decreases i
  {
    if i >= 10 && j >= 10 {
      var di, dj := Decimal(i), Decimal(j);
      assert Decimal(i / 10) == di[..|di| - 1] == dj[..|dj| - 1] == Decimal(j / 10);
      DecimalInjective(i / 10, j / 10);
    }
  }

  /** `name#constinctethashing#i`, the key hashed for candidate `i`: the
      name, the separator, then the digits of `i`. */
  function VirtualNodeKey(name: Name, i: nat): (r: Bytes)
    ensures |r| == |name| + |KeySeparator| + |Decimal(i)|
    ensures r[..|name|] == name
    ensures r[|name|..|name| + |KeySeparator|] == KeySeparator
    ensures r[|name| + |KeySeparator|..] == Decimal(i)
  {
    name + KeySeparator + Decimal(i)
  }

  /** The candidates of one node are distinct keys. */
  lemma VirtualNodeKeyInjective(name: Name, i: nat, j: nat)
    requires VirtualNodeKey(name, i) == VirtualNodeKey(name, j)
    ensures i == j
  {
    DecimalInjective(i, j);
  }

  /** The positions of the first `n` candidate keys of `name`. */
  function CandidatePositions(indexer: Bytes -> Position, name: Name, n: nat): set<Position>
  {
    if n == 0 then {}
    else CandidatePositions(indexer, name, n - 1) + {indexer(VirtualNodeKey(name, n - 1))}
  }

  /** The number of fresh positions the first `n` candidates give. */
  function FreshCount(indexer: Bytes -> Position, name: Name, occupied: set<Position>, n: nat): nat
  {
    |CandidatePositions(indexer, name, n) - occupied|
  }

  /** Some prefix of the candidates yields `quota` fresh positions: exactly
      when the collision-skipping loop of addNode terminates. */
  ghost predicate CanClaim(indexer: Bytes -> Position, name: Name, occupied: set<Position>, quota: int)
  {
    exists n: nat :: FreshCount(indexer, name, occupied, n) >= quota
  }

  /** The least `n` at or above `k` whose candidates yield the quota. */
  ghost function LeastFrom(indexer: Bytes -> Position, name: Name, occupied: set<Position>, quota: int,
                           k: nat, bound: nat): (n: nat)
    requires k <= bound && FreshCount(indexer, name, occupied, bound) >= quota
    requires forall m: nat | m < k :: FreshCount(indexer, name, occupied, m) < quota
    ensures k <= n <= bound && FreshCount(indexer, name, occupied, n) >= quota
    ensures forall m: nat | m < n :: FreshCount(indexer, name, occupied, m) < quota
    decreases bound - k
  {
    if FreshCount(indexer, name, occupied, k) >= quota then k
    else LeastFrom(indexer, name, occupied, quota, k + 1, bound)
  }

  /** The number of candidates addNode inspects before it stops. */
  ghost function ClaimStop(indexer: Bytes -> Position, name: Name, occupied: set<Position>, quota: int): (n: nat)
    requires CanClaim(indexer, name, occupied, quota)
    ensures FreshCount(indexer, name, occupied, n) >= quota
    ensures forall m: nat | m < n :: FreshCount(indexer, name, occupied, m) < quota
  {
    var bound: nat :| FreshCount(indexer, name, occupied, bound) >= quota;
    LeastFrom(indexer, name, occupied, quota, 0, bound)
  }

  /** The positions addNode claims for `name` when `occupied` are taken. */
  ghost function Claimed(indexer: Bytes -> Position, name: Name, occupied: set<Position>, quota: int): (r: set<Position>)
    requires CanClaim(indexer, name, occupied, quota)
    ensures r !! occupied
  {
    CandidatePositions(indexer, name, ClaimStop(indexer, name, occupied, quota)) - occupied
  }

  /** The claimed positions are exactly `quota` many, none of them taken
      before, and all of them positions of the node's own candidate keys. */
  lemma {:induction false} ClaimedSize(indexer: Bytes -> Position, name: Name, occupied: set<Position>, quota: int)
    requires CanClaim(indexer, name, occupied, quota) && quota >= 0
    ensures |Claimed(indexer, name, occupied, quota)| == quota
    ensures Claimed(indexer, name, occupied, quota) !! occupied
    ensures forall p | p in Claimed(indexer, name, occupied, quota) ::
              exists i: nat :: indexer(VirtualNodeKey(name, i)) == p
  {
    var n := ClaimStop(indexer, name, occupied, quota);
    if n > 0 {
      var before := CandidatePositions(indexer, name, n - 1) - occupied;
      var x := indexer(VirtualNodeKey(name, n - 1));
      assert CandidatePositions(indexer, name, n) - occupied == before + ({x} - occupied);
      assert FreshCount(indexer, name, occupied, n - 1) < quota;
      assert |before + ({x} - occupied)| <= |before| + 1;
    }
    CandidatesAreKeys(indexer, name, n);
  }

  /** One step of the collision-skipping loop: candidate `i` adds its
      position unless that position is already taken. */
  lemma ClaimStep(indexer: Bytes -> Position, name: Name, occupied: set<Position>, claimed: set<Position>, i: nat)
    requires claimed == CandidatePositions(indexer, name, i) - occupied
    ensures var x := indexer(VirtualNodeKey(name, i));
            CandidatePositions(indexer, name, i + 1) - occupied
            == if x in occupied + claimed then claimed else claimed + {x}
  {
  }

  /** The state of the collision-skipping loop of addNode after `i`
      candidates: `claimed` holds the fresh positions seen so far and
      `count` (the source's succCount) their number. */
  ghost predicate ClaimProgress(indexer: Bytes -> Position, name: Name, occupied: set<Position>, quota: int,
                                claimed: set<Position>, count: int, i: nat)
  {
    && CanClaim(indexer, name, occupied, quota)
    && i <= ClaimStop(indexer, name, occupied, quota)
    && claimed == CandidatePositions(indexer, name, i) - occupied
    && count == |claimed|
  }

  /** A loop step below the quota stays within the stopping point and
      either skips an occupied position or claims a fresh one. */
  lemma ClaimAdvance(indexer: Bytes -> Position, name: Name, occupied: set<Position>, quota: int,
                     claimed: set<Position>, count: int, i: nat)
    requires ClaimProgress(indexer, name, occupied, quota, claimed, count, i) && count < quota
    ensures i < ClaimStop(indexer, name, occupied, quota)
    ensures var x := indexer(VirtualNodeKey(name, i));
            if x in occupied + claimed then ClaimProgress(indexer, name, occupied, quota, claimed, count, i + 1)
            else ClaimProgress(indexer, name, occupied, quota, claimed + {x}, count + 1, i + 1)
  {
    assert FreshCount(indexer, name, occupied, i) == |claimed|;
    ClaimStep(indexer, name, occupied, claimed, i);
  }

  /** Once the quota is reached the loop has claimed exactly `Claimed`. */
  lemma ClaimDone(indexer: Bytes -> Position, name: Name, occupied: set<Position>, quota: int,
                  claimed: set<Position>, count: int, i: nat)
    requires ClaimProgress(indexer, name, occupied, quota, claimed, count, i) && count >= quota
    ensures claimed == Claimed(indexer, name, occupied, quota)
  {
    assert FreshCount(indexer, name, occupied, i) == |claimed|;
  }

  lemma {:induction false} CandidatesAreKeys(indexer: Bytes -> Position, name: Name, n: nat)
    ensures forall p | p in CandidatePositions(indexer, name, n) ::
              exists i: nat :: i < n && indexer(VirtualNodeKey(name, i)) == p
  {
    if n > 0 {
      CandidatesAreKeys(indexer, name, n - 1);
    }
  }

  // ---------------------------------------------------------------------
  // The tables and their invariant

  /** `realNodeMap` and `virtualNodeMap`. */
  datatype Tables<Node> = Tables(
    realNodes: map<Name, RealNode<Node>>,
    virtualNodes: map<Position, VirtualNode<Node>>)

  function EmptyTables<Node>(): Tables<Node>
  {
    Tables(map[], map[])
  }

  /** Every position maps to one registered owner that lists it, and every
      registered node's positions map back to it. */
  ghost predicate TablesValid<Node>(t: Tables<Node>)
  {
    && (forall p | p in t.virtualNodes ::
          && t.virtualNodes[p].beginIndex == p
          && t.virtualNodes[p].owner in t.realNodes
          && p in t.realNodes[t.virtualNodes[p].owner].virtualNodeIndexs
          && t.virtualNodes[p].node == t.realNodes[t.virtualNodes[p].owner].node)
    && (forall n | n in t.realNodes ::
          && t.realNodes[n].name == n
          && forall p | p in t.realNodes[n].virtualNodeIndexs ::
               p in t.virtualNodes && t.virtualNodes[p].owner == n)
  }

  /** The owned-position sets of distinct nodes are disjoint, and together
      they are exactly the positions of the ring. */
  lemma OwnershipPartition<Node>(t: Tables<Node>)
    requires TablesValid(t)
    ensures forall a, b | a in t.realNodes && b in t.realNodes && a != b ::
              t.realNodes[a].virtualNodeIndexs !! t.realNodes[b].virtualNodeIndexs
    ensures forall p :: p in t.virtualNodes <==>
              exists n :: n in t.realNodes && p in t.realNodes[n].virtualNodeIndexs
  {
    forall a, b | a in t.realNodes && b in t.realNodes && a != b
      ensures t.realNodes[a].virtualNodeIndexs !! t.realNodes[b].virtualNodeIndexs
    {
      forall p | p in t.realNodes[a].virtualNodeIndexs
        ensures p !in t.realNodes[b].virtualNodeIndexs
      {
        assert t.virtualNodes[p].owner == a;
      }
    }
  }

  /** A node registered with positions `claimed`, all of them fresh. */
  function Register<Node>(t: Tables<Node>, name: Name, node: Node, claimed: set<Position>): (r: Tables<Node>)
    requires claimed !! t.virtualNodes.Keys
    ensures r.virtualNodes.Keys == t.virtualNodes.Keys + claimed
    ensures forall p | p in t.virtualNodes :: r.virtualNodes[p] == t.virtualNodes[p]
    ensures forall p | p in claimed :: r.virtualNodes[p] == VirtualNode(p, name, node)
  {
    Tables(t.realNodes[name := RealNode(name, claimed, node)],
           t.virtualNodes + map p | p in claimed :: VirtualNode(p, name, node))
  }

  /** `vm` is `vm0` with one virtual node of `name` at each claimed position. */
  ghost predicate Stamped<Node>(vm: map<Position, VirtualNode<Node>>, vm0: map<Position, VirtualNode<Node>>,
                                claimed: set<Position>, name: Name, node: Node)
  {
    && vm.Keys == vm0.Keys + claimed
    && (forall p | p in vm0 :: vm[p] == vm0[p])
    && (forall p | p in claimed :: vm[p] == VirtualNode(p, name, node))
  }

  lemma StampedStep<Node>(vm: map<Position, VirtualNode<Node>>, vm0: map<Position, VirtualNode<Node>>,
                          claimed: set<Position>, name: Name, node: Node, x: Position)
    requires Stamped(vm, vm0, claimed, name, node) && x !in vm
    ensures Stamped(vm[x := VirtualNode(x, name, node)], vm0, claimed + {x}, name, node)
  {
  }
  /** One iteration of the collision-skipping loop on its whole state:
      candidate `i` is skipped when its position is in the map, and is
      claimed and stamped otherwise. */
  lemma ClaimIterate<Node>(indexer: Bytes -> Position, name: Name, node: Node, quota: int,
                           vm0: map<Position, VirtualNode<Node>>, vm: map<Position, VirtualNode<Node>>,
                           claimed: set<Position>, count: int, i: nat)
    requires ClaimProgress(indexer, name, vm0.Keys, quota, claimed, count, i) && count < quota
    requires Stamped(vm, vm0, claimed, name, node)
    ensures i < ClaimStop(indexer, name, vm0.Keys, quota)
    ensures var x := indexer(VirtualNodeKey(name, i));
            if x in vm then ClaimProgress(indexer, name, vm0.Keys, quota, claimed, count, i + 1)
            else && ClaimProgress(indexer, name, vm0.Keys, quota, claimed + {x}, count + 1, i + 1)
                 && Stamped(vm[x := VirtualNode(x, name, node)], vm0, claimed + {x}, name, node)
  {
    ClaimAdvance(indexer, name, vm0.Keys, quota, claimed, count, i);
    var x := indexer(VirtualNodeKey(name, i));
    if x !in vm {
      StampedStep(vm, vm0, claimed, name, node, x);
    }
  }


  /** Stamping the claimed positions is the virtual-node half of `Register`. */
  lemma StampedRegister<Node>(t: Tables<Node>, name: Name, node: Node, claimed: set<Position>,
                              vm: map<Position, VirtualNode<Node>>)
    requires claimed !! t.virtualNodes.Keys && Stamped(vm, t.virtualNodes, claimed, name, node)
    ensures vm == Register(t, name, node, claimed).virtualNodes
  {
  }

  lemma RegisterValid<Node>(t: Tables<Node>, name: Name, node: Node, claimed: set<Position>)
    requires TablesValid(t) && name !in t.realNodes && claimed !! t.virtualNodes.Keys
    ensures TablesValid(Register(t, name, node, claimed))
  {
    var r := Register(t, name, node, claimed);
    forall n | n in r.realNodes
      ensures r.realNodes[n].name == n
      ensures forall p | p in r.realNodes[n].virtualNodeIndexs :: p in r.virtualNodes && r.virtualNodes[p].owner == n
    {
      if n != name {
        assert r.realNodes[n] == t.realNodes[n];
      }
    }
  }

  /** A node and all its positions taken out of the tables. */
  function Unregister<Node>(t: Tables<Node>, name: Name): (r: Tables<Node>)
    requires name in t.realNodes
  {
    Tables(t.realNodes - {name}, t.virtualNodes - t.realNodes[name].virtualNodeIndexs)
  }

  /** Removal deletes exactly the node's record and the positions it owns;
      every other node and position is untouched, and the invariant holds. */
  lemma UnregisterValid<Node>(t: Tables<Node>, name: Name)
    requires TablesValid(t) && name in t.realNodes
    ensures TablesValid(Unregister(t, name))
    ensures Unregister(t, name).realNodes.Keys == t.realNodes.Keys - {name}
    ensures forall n | n in Unregister(t, name).realNodes :: Unregister(t, name).realNodes[n] == t.realNodes[n]
    ensures forall p | p in t.virtualNodes ::
              (p in Unregister(t, name).virtualNodes <==> t.virtualNodes[p].owner != name)
    ensures forall p | p in Unregister(t, name).virtualNodes ::
              Unregister(t, name).virtualNodes[p] == t.virtualNodes[p]
  {
    var r := Unregister(t, name);
    forall n | n in r.realNodes
      ensures forall p | p in r.realNodes[n].virtualNodeIndexs :: p in r.virtualNodes && r.virtualNodes[p].owner == n
    {
      forall p | p in r.realNodes[n].virtualNodeIndexs
        ensures p in r.virtualNodes && r.virtualNodes[p].owner == n
      {
        assert t.virtualNodes[p].owner == n;
        assert p !in t.realNodes[name].virtualNodeIndexs;
      }
    }
  }

  // ---------------------------------------------------------------------
  // The three operations on tables

  /** addNode's precondition for termination: when the node passes the
      checks, its candidates can yield the quota. */
  ghost predicate AddTerminates<Node>(option: CHashOption<Node>, t: Tables<Node>, node: Node, weight: int)
  {
    weight >= 1 && option.nodeNaming(node).Ok? && option.nodeNaming(node).value !in t.realNodes
    ==> CanClaim(option.indexer, option.nodeNaming(node).value, t.virtualNodes.Keys,
                 option.virtualNodeFactor * weight)
  }

  /** What addNode does to the tables, or the error it reports. */
  ghost function AddSpec<Node>(option: CHashOption<Node>, t: Tables<Node>, node: Node, weight: int): (r: Result<Tables<Node>, CHashError>)
    requires AddTerminates(option, t, node, weight)
    ensures r.Err? <==>
              weight < 1 || option.nodeNaming(node).Err? || option.nodeNaming(node).value in t.realNodes
  {
    if weight < 1 then Err(BadWeight)
    else match option.nodeNaming(node)
      case Err(cause) => Err(NamingFailed(cause))
      case Ok(name) =>
        if name in t.realNodes then Err(NodeExisted(name))
        else
          var quota := option.virtualNodeFactor * weight;
          Ok(Register(t, name, node, Claimed(option.indexer, name, t.virtualNodes.Keys, quota)))
  }

  /** A successful add registers the node with exactly factor*weight fresh
      positions, all owned by it; every earlier position keeps its owner. */
  lemma AddSpecProperties<Node>(option: CHashOption<Node>, t: Tables<Node>, node: Node, weight: int)
    requires option.virtualNodeFactor >= 1 && TablesValid(t)
    requires AddTerminates(option, t, node, weight)
    requires AddSpec(option, t, node, weight).Ok?
    ensures var r := AddSpec(option, t, node, weight).value;
            var name := option.nodeNaming(node).value;
            var added := r.virtualNodes.Keys - t.virtualNodes.Keys;
            && TablesValid(r)
            && r.realNodes.Keys == t.realNodes.Keys + {name}
            && t.virtualNodes.Keys <= r.virtualNodes.Keys
            && |added| == option.virtualNodeFactor * weight
            && added == r.realNodes[name].virtualNodeIndexs
            && (forall p | p in added :: r.virtualNodes[p].owner == name && r.virtualNodes[p].node == node)
            && (forall p | p in t.virtualNodes :: r.virtualNodes[p] == t.virtualNodes[p])
            && (forall n | n in t.realNodes :: r.realNodes[n] == t.realNodes[n])
  {
    var name := option.nodeNaming(node).value;
    var quota := option.virtualNodeFactor * weight;
    MulPositive(option.virtualNodeFactor, weight);
    var claimed := Claimed(option.indexer, name, t.virtualNodes.Keys, quota);
    AddSpecIsRegister(option, t, node, weight);
    ClaimedSize(option.indexer, name, t.virtualNodes.Keys, quota);
    RegisterProperties(t, name, node, claimed);
  }

  lemma AddSpecIsRegister<Node>(option: CHashOption<Node>, t: Tables<Node>, node: Node, weight: int)
    requires AddTerminates(option, t, node, weight)
    requires AddSpec(option, t, node, weight).Ok?
    ensures var name := option.nodeNaming(node).value;
            var quota := option.virtualNodeFactor * weight;
            AddSpec(option, t, node, weight) ==
            Ok(Register(t, name, node, Claimed(option.indexer, name, t.virtualNodes.Keys, quota)))
  {
  }

  lemma RegisterProperties<Node>(t: Tables<Node>, name: Name, node: Node, claimed: set<Position>)
    requires TablesValid(t) && name !in t.realNodes && claimed !! t.virtualNodes.Keys
    ensures var r := Register(t, name, node, claimed);
            && TablesValid(r)
            && r.realNodes.Keys == t.realNodes.Keys + {name}
            && r.virtualNodes.Keys - t.virtualNodes.Keys == claimed
            && claimed == r.realNodes[name].virtualNodeIndexs
            && (forall n | n in t.realNodes :: r.realNodes[n] == t.realNodes[n])
  {
    RegisterValid(t, name, node, claimed);
  }

  lemma MulPositive(a: int, b: int)
    requires a >= 1 && b >= 1
    ensures a * b >= 1
  {
  }

  /** What removeNode does to the tables, or the error it reports. */
  function RemoveSpec<Node>(option: CHashOption<Node>, t: Tables<Node>, node: Node): (r: Result<Tables<Node>, CHashError>)
    ensures r.Err? <==> option.nodeNaming(node).Err? || option.nodeNaming(node).value !in t.realNodes
  {
    match option.nodeNaming(node)
    case Err(cause) => Err(NamingFailed(cause))
    case Ok(name) =>
      if name !in t.realNodes then Err(NodeNotExist(name))
      else Ok(Unregister(t, name))
  }

  /** The tables NewCHash builds: each node added in turn, the first error
      ending the construction. */
  ghost predicate InitTerminates<Node>(option: CHashOption<Node>, nodes: seq<Node>, t: Tables<Node>)
    decreases |nodes|
  {
    |nodes| == 0 ||
    (&& AddTerminates(option, t, nodes[0], option.weightSpecify(nodes[0]))
     && match AddSpec(option, t, nodes[0], option.weightSpecify(nodes[0]))
        case Err(_) => true
        case Ok(t') => InitTerminates(option, nodes[1..], t'))
  }

  ghost function InitSpec<Node>(option: CHashOption<Node>, nodes: seq<Node>, t: Tables<Node>): Result<Tables<Node>, CHashError>
    requires InitTerminates(option, nodes, t)
    decreases |nodes|
  {
    if |nodes| == 0 then Ok(t)
    else match AddSpec(option, t, nodes[0], option.weightSpecify(nodes[0]))
      case Err(e) => Err(e)
      case Ok(t') => InitSpec(option, nodes[1..], t')
  }

  /** One node of the construction loop: building from `nodes` is adding
      the first node and then building from the rest. */
  lemma InitStep<Node>(option: CHashOption<Node>, nodes: seq<Node>, t: Tables<Node>)
    requires |nodes| > 0 && InitTerminates(option, nodes, t)
    ensures AddTerminates(option, t, nodes[0], option.weightSpecify(nodes[0]))
    ensures var a := AddSpec(option, t, nodes[0], option.weightSpecify(nodes[0]));
            && (a.Err? ==> InitSpec(option, nodes, t) == Err(a.error))
            && (a.Ok? ==> InitTerminates(option, nodes[1..], a.value)
                          && InitSpec(option, nodes, t) == InitSpec(option, nodes[1..], a.value))
  {
  }

  /** Construction keeps the invariant: the tables it builds are valid. */
  lemma {:induction false} InitSpecValid<Node>(option: CHashOption<Node>, nodes: seq<Node>, t: Tables<Node>)
    requires option.virtualNodeFactor >= 1 && TablesValid(t) && InitTerminates(option, nodes, t)
    ensures InitSpec(option, nodes, t).Ok? ==> TablesValid(InitSpec(option, nodes, t).value)
    decreases |nodes|
  {
    if |nodes| > 0 {
      var w := option.weightSpecify(nodes[0]);
      if AddSpec(option, t, nodes[0], w).Ok? {
        AddSpecProperties(option, t, nodes[0], w);
        InitSpecValid(option, nodes[1..], AddSpec(option, t, nodes[0], w).value);
      }
    }
  }

  // ---------------------------------------------------------------------
  // Routing

  ghost predicate IsLeast(s: set<Position>, p: Position)
  {
    p in s && forall x | x in s :: p <= x
  }

  /** The query position `q` is served by position `p`: the smallest stored
      position strictly above `q`, or, when there is none, the smallest of
      all (the ring wraps around). */
  ghost function Above(positions: set<Position>, q: Position): set<Position>
  {
    set x | x in positions && q < x
  }

  ghost predicate RoutesTo(positions: set<Position>, q: Position, p: Position)
  {
    var above := Above(positions, q);
    if above != {} then IsLeast(above, p) else IsLeast(positions, p)
  }

  lemma {:induction false} LeastExists(s: set<Position>)
    requires s != {}
    ensures exists p :: IsLeast(s, p)
    decreases |s|
  {
    var x :| x in s;
    if s != {x} {
      var rest := s - {x};
      LeastExists(rest);
      var m :| IsLeast(rest, m);
      var least := if x < m then x else m;
      forall y | y in s ensures least <= y {
        if y != x { assert y in rest; }
      }
      assert IsLeast(s, least);
    } else {
      assert IsLeast(s, x);
    }
  }

  /** Every query position of a non-empty ring is served by exactly one
      stored position. */
  lemma RouteDetermined(positions: set<Position>, q: Position)
    requires positions != {}
    ensures exists p :: RoutesTo(positions, q, p)
    ensures forall p1, p2 | RoutesTo(positions, q, p1) && RoutesTo(positions, q, p2) :: p1 == p2
  {
    var above := Above(positions, q);
    if above != {} {
      LeastExists(above);
      var p :| IsLeast(above, p);
      assert RoutesTo(positions, q, p);
    } else {
      LeastExists(positions);
      var p :| IsLeast(positions, p);
      assert RoutesTo(positions, q, p);
    }
  }

  /** Taking out positions other than the serving one does not change which
      position serves a query. */
  lemma RouteSurvivesRemoval(positions: set<Position>, removed: set<Position>, q: Position, p: Position)
    requires RoutesTo(positions, q, p) && p !in removed
    ensures RoutesTo(positions - removed, q, p)
  {
    var above := Above(positions, q);
    var above' := Above(positions - removed, q);
    assert above' <= above;
    if above != {} {
      assert IsLeast(above, p);
      assert p in above';
      assert IsLeast(above', p);
    } else {
      assert IsLeast(positions, p);
      assert above' == {};
      assert IsLeast(positions - removed, p);
    }
  }

  /** Minimal disruption: after a node is removed, every query that was not
      served by that node is still served by the same position, owned by the
      same node. */
  lemma RemovalKeepsRoutes<Node>(t: Tables<Node>, name: Name, q: Position, p: Position)
    requires TablesValid(t) && name in t.realNodes
    requires RoutesTo(t.virtualNodes.Keys, q, p) && t.virtualNodes[p].owner != name
    ensures p in Unregister(t, name).virtualNodes
    ensures RoutesTo(Unregister(t, name).virtualNodes.Keys, q, p)
    ensures Unregister(t, name).virtualNodes[p] == t.virtualNodes[p]
  {
    UnregisterValid(t, name);
    assert p !in t.realNodes[name].virtualNodeIndexs;
    RouteSurvivesRemoval(t.virtualNodes.Keys, t.realNodes[name].virtualNodeIndexs, q, p);
    assert Unregister(t, name).virtualNodes.Keys == t.virtualNodes.Keys - t.realNodes[name].virtualNodeIndexs;
  }

  // ---------------------------------------------------------------------
  // The sorted list of virtual nodes

  ghost predicate Ascending<Node>(list: seq<VirtualNode<Node>>)
  {
    forall i, j | 0 <= i < j < |list| :: list[i].beginIndex < list[j].beginIndex
  }

  /** `virtualNodeList` is the sorted view of `virtualNodeMap`. */
  ghost predicate ListMatches<Node>(list: seq<VirtualNode<Node>>, m: map<Position, VirtualNode<Node>>)
  {
    && Ascending(list)
    && (forall k | 0 <= k < |list| :: list[k].beginIndex in m && m[list[k].beginIndex] == list[k])
    && (forall p | p in m :: m[p] in list)
  }

  function InsertByIndex<Node>(list: seq<VirtualNode<Node>>, v: VirtualNode<Node>): (r: seq<VirtualNode<Node>>)
    requires Ascending(list)
    requires forall k | 0 <= k < |list| :: list[k].beginIndex != v.beginIndex
    ensures Ascending(r) && |r| == |list| + 1
    ensures forall k | 0 <= k < |r| :: r[k] == v || r[k] in list
    ensures v in r && forall x | x in list :: x in r
    decreases |list|
  {
    if list == [] || v.beginIndex < list[0].beginIndex then [v] + list
    else
      var rest := InsertByIndex(list[1..], v);
      assert forall k | 1 <= k < |list| :: list[0].beginIndex < list[k].beginIndex;
      assert forall k | 0 <= k < |rest| :: list[0].beginIndex < rest[k].beginIndex;
      [list[0]] + rest
  }

  function Positions<Node>(list: seq<VirtualNode<Node>>): set<Position>
  {
    set k | 0 <= k < |list| :: list[k].beginIndex
  }

  lemma {:induction false} AscendingCount<Node>(list: seq<VirtualNode<Node>>)
    requires Ascending(list)
    ensures |Positions(list)| == |list|
  {
    if list != [] {
      AscendingCount(list[1..]);
      assert Positions(list) == {list[0].beginIndex} + Positions(list[1..]) by {
        forall x | x in Positions(list) ensures x in {list[0].beginIndex} + Positions(list[1..]) {
          var k :| 0 <= k < |list| && list[k].beginIndex == x;
          if k > 0 { assert list[1..][k - 1].beginIndex == x; }
        }
      }
      assert list[0].beginIndex !in Positions(list[1..]);
    }
  }

  /** The sorted list has exactly one entry per position of the table. */
  lemma ListSize<Node>(list: seq<VirtualNode<Node>>, m: map<Position, VirtualNode<Node>>)
    requires ListMatches(list, m)
    requires forall p | p in m :: m[p].beginIndex == p
    ensures |list| == |m|
  {
    assert Positions(list) == m.Keys by {
      forall p | p in m ensures p in Positions(list) {
        var k :| 0 <= k < |list| && list[k] == m[p];
      }
    }
    AscendingCount(list);
  }
}
