/** The consistent-hash ring `CHash` of consistenthashing.go as a class
    whose three fields are updated in place: `realNodeMap`,
    `virtualNodeMap` and the cached sorted `virtualNodeList`. Each public
    method is the sequential body of its locked Go counterpart. */
module ConsistentHashing {
  import opened Wrappers
  import opened HashRingSpec

  class CHash<Node> {
    var realNodeMap: map<Name, RealNode<Node>>
    var virtualNodeMap: map<Position, VirtualNode<Node>>
    var virtualNodeList: seq<VirtualNode<Node>>
    const option: CHashOption<Node>

    ghost function State(): Tables<Node>
      reads this
    {
      Tables(realNodeMap, virtualNodeMap)
    }

    /** The invariant of the tables, which holds between any two calls. */
    ghost predicate TablesOk()
      reads this
    {
      option.virtualNodeFactor >= 1 && TablesValid(State())
    }

    /** The invariant that every lookup observes: the tables are consistent
        and the sorted list is their current view. */
    ghost predicate Valid()
      reads this
    {
      TablesOk() && ListMatches(virtualNodeList, virtualNodeMap)
    }

    constructor (option: CHashOption<Node>)
      requires option.virtualNodeFactor >= 1
      ensures this.option == option && State() == EmptyTables() && virtualNodeList == []
      ensures Valid()
    {
      this.option := option;
      realNodeMap := map[];
      virtualNodeMap := map[];
      virtualNodeList := [];
    }

    /** `addNode`: check the weight, the name and that the name is new,
        then claim `factor*weight` fresh positions by walking the candidate
        keys and skipping every occupied position. */
    method Add(node: Node, weight: int, doSort: bool) returns (r: Outcome<CHashError>)
      requires TablesOk() && AddTerminates(option, State(), node, weight)
      modifies this
      ensures TablesOk()
      ensures AddSpec(option, old(State()), node, weight) == if r.Fail? then Err(r.error) else Ok(State())
      ensures r.Fail? ==> State() == old(State())
      ensures r.Pass? && doSort ==> ListMatches(virtualNodeList, virtualNodeMap)
      ensures r.Fail? || !doSort ==> virtualNodeList == old(virtualNodeList)
    {
      if weight < 1 {
        return Fail(BadWeight);
      }
      var naming := option.nodeNaming(node);
      if naming.Err? {
        return Fail(NamingFailed(naming.error));
      }
      var realNodeName := naming.value;
      if realNodeName in realNodeMap {
        return Fail(NodeExisted(realNodeName));
      }
      var quota := option.virtualNodeFactor * weight;
      ghost var occupied := virtualNodeMap.Keys;
      var vm, indexes := ClaimPositions(option.indexer, realNodeName, node, virtualNodeMap, quota);
      virtualNodeMap := vm;
      ghost var registered := Register(old(State()), realNodeName, node, indexes);
      StampedRegister(old(State()), realNodeName, node, indexes, virtualNodeMap);
      RegisterValid(old(State()), realNodeName, node, indexes);
      if doSort {
        SortVirtualNode();
      }
      realNodeMap := realNodeMap[realNodeName := RealNode(realNodeName, indexes, node)];
      assert State() == registered;
      return Pass;
    }

    /** `AddNodeWithWeight`: add with the caller's weight and re-sort. */
    method AddNodeWithWeight(node: Node, weight: int) returns (r: Outcome<CHashError>)
      requires Valid() && AddTerminates(option, State(), node, weight)
      modifies this
      ensures Valid()
      ensures AddSpec(option, old(State()), node, weight) == if r.Fail? then Err(r.error) else Ok(State())
      ensures r.Fail? ==> State() == old(State()) && virtualNodeList == old(virtualNodeList)
    {
      r := Add(node, weight, true);
    }

    /** `AddNode`: add with the weight the options give the node. */
    method AddNode(node: Node) returns (r: Outcome<CHashError>)
      requires Valid() && AddTerminates(option, State(), node, option.weightSpecify(node))
      modifies this
      ensures Valid()
      ensures AddSpec(option, old(State()), node, option.weightSpecify(node))
              == if r.Fail? then Err(r.error) else Ok(State())
      ensures r.Fail? ==> State() == old(State()) && virtualNodeList == old(virtualNodeList)
    {
      r := Add(node, option.weightSpecify(node), true);
    }

    /** `RemoveNode`: drop the node's record and every position it owns,
        then re-sort. */
    method RemoveNode(node: Node) returns (r: Outcome<CHashError>)
      requires Valid()
      modifies this
      ensures Valid()
      ensures RemoveSpec(option, old(State()), node) == if r.Fail? then Err(r.error) else Ok(State())
      ensures r.Fail? ==> State() == old(State()) && virtualNodeList == old(virtualNodeList)
    {
      var naming := option.nodeNaming(node);
      if naming.Err? {
        return Fail(NamingFailed(naming.error));
      }
      var realNodeName := naming.value;
      if realNodeName !in realNodeMap {
        return Fail(NodeNotExist(realNodeName));
      }
      var realNode := realNodeMap[realNodeName];
      realNodeMap := realNodeMap - {realNodeName};
      var rest := realNode.virtualNodeIndexs;
      while rest != {}
        invariant rest <= realNode.virtualNodeIndexs
        invariant virtualNodeMap == old(virtualNodeMap) - (realNode.virtualNodeIndexs - rest)
        invariant realNodeMap == old(realNodeMap) - {realNodeName}
        invariant virtualNodeList == old(virtualNodeList)
        decreases rest
      {
        var index :| index in rest;
        virtualNodeMap := virtualNodeMap - {index};
        rest := rest - {index};
      }
      assert realNode.virtualNodeIndexs - rest == realNode.virtualNodeIndexs;
      assert State() == Unregister(old(State()), realNodeName);
      UnregisterValid(old(State()), realNodeName);
      SortVirtualNode();
      return Pass;
    }

    /** `sortVirtualNode`: rebuild the list from the table, in ascending
        order of position. */
    method SortVirtualNode()
      requires forall p | p in virtualNodeMap :: virtualNodeMap[p].beginIndex == p
      modifies this`virtualNodeList
      ensures ListMatches(virtualNodeList, virtualNodeMap)
    {
      var list: seq<VirtualNode<Node>> := [];
      var rest := virtualNodeMap.Keys;
      while rest != {}
        invariant rest <= virtualNodeMap.Keys
        invariant Ascending(list)
        invariant forall k | 0 <= k < |list| ::
                    list[k].beginIndex in virtualNodeMap && list[k].beginIndex !in rest
                    && virtualNodeMap[list[k].beginIndex] == list[k]
        invariant forall p | p in virtualNodeMap && p !in rest :: virtualNodeMap[p] in list
        decreases rest
      {
        var p :| p in rest;
        list := InsertByIndex(list, virtualNodeMap[p]);
        rest := rest - {p};
      }
      virtualNodeList := list;
    }

    /** `sort.Search` over the list: the first entry whose position is
        strictly greater than `index`. */
    method Search(index: Position) returns (i: nat)
      requires Ascending(virtualNodeList)
      ensures i <= |virtualNodeList|
      ensures forall k | 0 <= k < i :: virtualNodeList[k].beginIndex <= index
      ensures forall k | i <= k < |virtualNodeList| :: index < virtualNodeList[k].beginIndex
    {
      var lo, hi := 0, |virtualNodeList|;
      while lo < hi
        invariant 0 <= lo <= hi <= |virtualNodeList|
        invariant forall k | 0 <= k < lo :: virtualNodeList[k].beginIndex <= index
        invariant forall k | hi <= k < |virtualNodeList| :: index < virtualNodeList[k].beginIndex
      {
        var mid := lo + (hi - lo) / 2;
        if virtualNodeList[mid].beginIndex > index {
          hi := mid;
        } else {
          lo := mid + 1;
        }
      }
      return lo;
    }

    /** `find`: the node of the first position strictly above `index`,
        wrapping to the first entry. The ghost `p` is the serving position. */
    method Find(index: Position) returns (node: Node, ghost p: Position)
      requires Valid() && |virtualNodeList| > 0
      ensures p in virtualNodeMap && RoutesTo(virtualNodeMap.Keys, index, p)
      ensures node == virtualNodeMap[p].node
    {
      var i := Search(index);
      var wrapped := i == |virtualNodeList|;
      if wrapped {
        i := 0;
      }
      node := virtualNodeList[i].node;
      p := virtualNodeList[i].beginIndex;
      assert p in virtualNodeMap && virtualNodeMap[p] == virtualNodeList[i];
      ghost var keys := virtualNodeMap.Keys;
      ghost var above := Above(keys, index);
      forall x | x in keys
        ensures !wrapped && index < x ==> p <= x
        ensures wrapped ==> x <= index && p <= x
      {
        var j :| 0 <= j < |virtualNodeList| && virtualNodeList[j] == virtualNodeMap[x];
        assert virtualNodeList[j].beginIndex == x;
      }
      if wrapped {
        assert above == {};
        assert IsLeast(keys, p);
      } else {
        assert p in above;
        assert IsLeast(above, p);
      }
    }

    /** `Hash`: route `data` to its node, or fail on a ring without
        virtual nodes. */
    method Hash(data: Bytes) returns (r: Result<Node, CHashError>, ghost p: Position)
      requires Valid()
      ensures r.Err? <==> |virtualNodeList| == 0
      ensures r.Err? <==> virtualNodeMap == map[]
      ensures r.Err? ==> r.error == ZeroNode
      ensures r.Ok? ==> p in virtualNodeMap && RoutesTo(virtualNodeMap.Keys, option.indexer(data), p)
                        && r.value == virtualNodeMap[p].node
    {
      ListSize(virtualNodeList, virtualNodeMap);
      if |virtualNodeList| == 0 {
        return Err(ZeroNode), 0;
      }
      var node;
      node, p := Find(option.indexer(data));
      r := Ok(node);
    }
  }

  /** The collision-skipping loop of `addNode`: walk the candidate keys
      `name#constinctethashing#i` for i = 0, 1, ... and claim each position
      not yet in `virtualNodeMap` until `quota` positions are claimed. The
      Go loop writes `c.virtualNodeMap` directly; here it fills a copy that
      the caller stores, which nothing can tell apart under the lock. */
  method ClaimPositions<Node>(indexer: Bytes -> Position, realNodeName: Name, node: Node,
                              virtualNodeMap: map<Position, VirtualNode<Node>>, quota: int)
    returns (vm: map<Position, VirtualNode<Node>>, indexes: set<Position>)
    requires CanClaim(indexer, realNodeName, virtualNodeMap.Keys, quota)
    ensures indexes == Claimed(indexer, realNodeName, virtualNodeMap.Keys, quota)
    ensures Stamped(vm, virtualNodeMap, indexes, realNodeName, node)
  {
    vm := virtualNodeMap;
    indexes := {};
    var succCount := 0;
    var i := 0;
    while succCount < quota
      invariant ClaimProgress(indexer, realNodeName, virtualNodeMap.Keys, quota, indexes, succCount, i)
      invariant Stamped(vm, virtualNodeMap, indexes, realNodeName, node)
      decreases ClaimStop(indexer, realNodeName, virtualNodeMap.Keys, quota) - i
    {
      ClaimIterate(indexer, realNodeName, node, quota, virtualNodeMap, vm, indexes, succCount, i);
      var key := VirtualNodeKey(realNodeName, i);
      var index: Position := indexer(key);
      if index !in vm {
        succCount := succCount + 1;
        vm := vm[index := VirtualNode(index, realNodeName, node)];
        indexes := indexes + {index};
      }
      i := i + 1;
    }
    ClaimDone(indexer, realNodeName, virtualNodeMap.Keys, quota, indexes, succCount, i);
  }

  /** `NewCHash`: reject an empty node list, settle the factor, add every
      node without sorting, then sort once. */
  method NewCHash<Node>(nodes: seq<Node>, options: CHashOption<Node>) returns (r: Result<CHash<Node>, CHashError>)
    requires |nodes| > 0 ==> InitTerminates(Adapted(options, |nodes|), nodes, EmptyTables())
    ensures |nodes| == 0 ==> r == Err(WantAtLeastOneNode)
    ensures r.Ok? ==> fresh(r.value) && r.value.Valid() && r.value.option == Adapted(options, |nodes|)
    ensures |nodes| > 0 ==>
              InitSpec(Adapted(options, |nodes|), nodes, EmptyTables())
              == if r.Ok? then Ok(r.value.State()) else Err(r.error)
  {
    if |nodes| == 0 {
      return Err(WantAtLeastOneNode);
    }
    var option := options.(virtualNodeFactor := AdaptVirtualNodeFactor(options.virtualNodeFactor, |nodes|));
    var ch := new CHash(option);
    ghost var goal := InitSpec(option, nodes, EmptyTables());
    var k := 0;
    while k < |nodes|
      invariant 0 <= k <= |nodes|
      invariant fresh(ch) && ch.option == option && ch.TablesOk()
      invariant InitTerminates(option, nodes[k..], ch.State())
      invariant goal == InitSpec(option, nodes[k..], ch.State())
    {
      assert nodes[k..][0] == nodes[k] && nodes[k..][1..] == nodes[k + 1..];
      InitStep(option, nodes[k..], ch.State());
      var err := ch.Add(nodes[k], option.weightSpecify(nodes[k]), false);
      if err.Fail? {
        return Err(err.error);
      }
      k := k + 1;
    }
    assert nodes[k..] == [];
    ch.SortVirtualNode();
    return Ok(ch);
  }
}
