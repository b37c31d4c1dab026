/** The node registry behind the consistent hash of pkg/chash: a list of node
    names, a map from each name to the position it was given, and a count, all
    three updated in place. */
module NodeSets {

  const TWO_32: int := 0x1_0000_0000

  /** Go's uint32. */
  type U32 = x: int | 0 <= x < TWO_32

  /** The errors `Add` and `Remove` return, or `Ok` for nil; `IndexPanic` is the
      Go runtime panic of slicing the list past its end. */
  datatype Outcome = Ok | DuplicateNode | NodeNotExist | IndexPanic

  /** The list with the element at `index` cut out, the rest in order:
      `append(list[:index], list[index+1:]...)`. */
  function Without(list: seq<string>, index: nat): (r: seq<string>)
    requires index < |list|
    ensures |r| == |list| - 1
    ensures forall i :: 0 <= i < index ==> r[i] == list[i]
    ensures forall i :: index <= i < |r| ==> r[i] == list[i + 1]
  {
    list[..index] + list[index + 1..]
  }

  /** The registry invariant kept while only `Add` is used, for fewer than 2^32
      names: the names are distinct, each is mapped to its position in the list,
      nothing else is mapped, and the count is the length of the list. */
  ghost predicate Indexed(list: seq<string>, m: map<string, U32>, num: U32)
  {
    num == |list| < TWO_32
    && (forall a, b :: 0 <= a < b < |list| ==> list[a] != list[b])
    && (forall i :: 0 <= i < |list| ==> list[i] in m && m[list[i]] == i)
    && (forall k :: k in m ==> exists i :: 0 <= i < |list| && list[i] == k)
  }

  /** `Add` of a new name keeps the registry invariant while the count does not wrap. */
  lemma AddKeepsIndexed(list: seq<string>, m: map<string, U32>, num: U32, node: string)
    requires Indexed(list, m, num) && node !in m && num + 1 < TWO_32
    ensures Indexed(list + [node], m[node := num], num + 1)
  {
    var list', m' := list + [node], m[node := num];
    forall i | 0 <= i < |list'|
      ensures list'[i] in m' && m'[list'[i]] == i
    {
      if i < |list| {
        assert list'[i] == list[i] && list[i] in m;
      }
    }
    forall k | k in m'
      ensures exists i :: 0 <= i < |list'| && list'[i] == k
    {
      if k == node {
        assert list'[|list|] == k;
      } else {
        var i :| 0 <= i < |list| && list[i] == k;
        assert list'[i] == k;
      }
    }
  }

  /** In an indexed registry the position a name is mapped to is where `Get`
      finds it, and `Len` is the number of names. */
  lemma IndexedLookup(list: seq<string>, m: map<string, U32>, num: U32, node: string)
    requires Indexed(list, m, num) && node in m
    ensures m[node] < |list| && list[m[node]] == node
    ensures num == |list|
  {
    var i :| 0 <= i < |list| && list[i] == node;
  }

  /** The map of the corrected `Remove`: the name is dropped and every name after
      it moves down one place. */
  function Unmapped(m: map<string, U32>, node: string): (r: map<string, U32>)
    requires node in m
    ensures r.Keys == m.Keys - {node}
  {
    map k | k in m && k != node :: if m[k] > m[node] then m[k] - 1 else m[k]
  }

  /** The corrected `Remove` keeps the registry invariant and forgets the name,
      so it can be registered again and `Len` stays the number of names. */
  lemma RemoveKeepsIndexed(list: seq<string>, m: map<string, U32>, num: U32, node: string)
    requires Indexed(list, m, num) && node in m
    ensures m[node] < |list|
    ensures Indexed(Without(list, m[node]), Unmapped(m, node), num - 1)
    ensures node !in Unmapped(m, node) && node !in Without(list, m[node])
  {
    IndexedLookup(list, m, num, node);
    var idx := m[node];
    var list', m' := Without(list, idx), Unmapped(m, node);
    forall i | 0 <= i < |list'|
      ensures list'[i] in m' && m'[list'[i]] == i
    {
      if i < idx {
        assert list'[i] == list[i] && list[i] != list[idx];
      } else {
        assert list'[i] == list[i + 1] && list[i + 1] != list[idx];
      }
    }
    forall k | k in m'
      ensures exists i :: 0 <= i < |list'| && list'[i] == k
    {
      var j :| 0 <= j < |list| && list[j] == k;
      if j < idx {
        assert list'[j] == k;
      } else {
        assert j != idx;
        assert list'[j - 1] == k;
      }
    }
    forall i | 0 <= i < |list'|
      ensures list'[i] != node
    {
      if i < idx {
        assert list'[i] == list[i];
      } else {
        assert list'[i] == list[i + 1];
      }
    }
  }

  /** Two removals on an indexed registry of a, b, c: the first removes a, the
      second, meant to remove b, cuts out c, because b is still mapped to its old
      position 1; the count still says 3. Removing c instead after a panics: c is
      still mapped to 2, the length of the shortened list. */
  lemma StaleIndexRemovesWrongNode()
    ensures var list, m := ["a", "b", "c"], map["a" := 0, "b" := 1, "c" := 2];
      Indexed(list, m, 3)
      && Without(list, m["a"]) == ["b", "c"]
      && Without(Without(list, m["a"]), m["b"]) == ["b"]
      && m["c"] >= |Without(list, m["a"])|
  {
    var list, m := ["a", "b", "c"], map["a" := 0, "b" := 1, "c" := 2];
    forall a, b | 0 <= a < b < |list|
      ensures list[a] != list[b]
    {
      assert a < 2 && 0 < b;
    }
    forall i | 0 <= i < |list|
      ensures list[i] in m && m[list[i]] == i
    {
      if i == 0 { assert list[i] == "a"; }
      else if i == 1 { assert list[i] == "b"; }
      else { assert list[i] == "c"; }
    }
    forall k | k in m
      ensures exists i :: 0 <= i < |list| && list[i] == k
    {
      if k == "a" { assert list[0] == k; }
      else if k == "b" { assert list[1] == k; }
      else { assert list[2] == k; }
    }
    assert Without(list, 0) == ["b", "c"];
    assert Without(["b", "c"], 1) == ["b"];
  }

  class NodeSet {
    var nodeList: seq<string>
    var nodeMap: map<string, U32>
    var nodeNum: U32

    /** An empty registry with an allocated map. */
    constructor ()
      ensures nodeList == [] && nodeMap == map[] && nodeNum == 0
      ensures Indexed(nodeList, nodeMap, nodeNum)
    {
      nodeList, nodeMap, nodeNum := [], map[], 0;
    }

    /** `Get`: the name at position i; an index past the list is a Go runtime panic. */
    function Get(i: U32): (node: string)
      reads this
      requires i < |nodeList|
      ensures node in nodeList
    {
      nodeList[i]
    }

    /** `Len`: the count of names ever added, not the length of the list. */
    function Len(): (count: U32)
      reads this
      ensures Indexed(nodeList, nodeMap, nodeNum) ==> count == |nodeList|
    {
      nodeNum
    }

    /** `Add`: refuses a name already mapped; otherwise appends it, maps it to the
        old count and increments the count, wrapping as uint32. */
    method Add(node: string) returns (err: Outcome)
      modifies this
      ensures node in old(nodeMap) ==> err == DuplicateNode
      ensures node in old(nodeMap) ==>
        nodeList == old(nodeList) && nodeMap == old(nodeMap) && nodeNum == old(nodeNum)
      ensures node !in old(nodeMap) ==> err == Ok
      ensures node !in old(nodeMap) ==>
        nodeList == old(nodeList) + [node] && nodeMap == old(nodeMap)[node := old(nodeNum)]
      ensures node !in old(nodeMap) ==> nodeNum == (old(nodeNum) + 1) % TWO_32
      ensures old(Indexed(nodeList, nodeMap, nodeNum)) && old(nodeNum) + 1 < TWO_32 ==>
        Indexed(nodeList, nodeMap, nodeNum)
    {
      if node in nodeMap {
        return DuplicateNode;
      }
      ghost var list, m, num := nodeList, nodeMap, nodeNum;
      nodeList := nodeList + [node];
      nodeMap := nodeMap[node := nodeNum];
      nodeNum := (nodeNum + 1) % TWO_32;
      if Indexed(list, m, num) && num + 1 < TWO_32 {
        AddKeepsIndexed(list, m, num, node);
      }
      err := Ok;
    }

    /** `Remove`, as written: refuses an unmapped name; otherwise cuts the element
        at the name's recorded position out of the list and leaves the map and the
        count as they were. A recorded position at or past the end of the list
        makes `nodeList[index+1:]` panic, and nothing changes. */
    method Remove(node: string) returns (err: Outcome)
      modifies this
      ensures nodeMap == old(nodeMap) && nodeNum == old(nodeNum)
      ensures node !in old(nodeMap) ==> err == NodeNotExist && nodeList == old(nodeList)
      ensures node in old(nodeMap) && old(nodeMap)[node] >= |old(nodeList)| ==>
        err == IndexPanic && nodeList == old(nodeList)
      ensures node in old(nodeMap) && old(nodeMap)[node] < |old(nodeList)| ==>
        err == Ok && nodeList == Without(old(nodeList), old(nodeMap)[node])
    {
      if node !in nodeMap {
        return NodeNotExist;
      }
      var index := nodeMap[node];
      if index >= |nodeList| {
        return IndexPanic;
      }
      nodeList := nodeList[..index] + nodeList[index + 1..];
      err := Ok;
    }

    /** `Remove` as evidently intended: the name also leaves the map, later names
        move down one place and the count drops by one, so the registry stays
        indexed. */
    method RemoveIndexed(node: string) returns (err: Outcome)
      requires Indexed(nodeList, nodeMap, nodeNum)
      modifies this
      ensures Indexed(nodeList, nodeMap, nodeNum)
      ensures node !in old(nodeMap) ==> err == NodeNotExist
      ensures node !in old(nodeMap) ==>
        nodeList == old(nodeList) && nodeMap == old(nodeMap) && nodeNum == old(nodeNum)
      ensures node in old(nodeMap) ==> err == Ok && node !in nodeList && node !in nodeMap
      ensures node in old(nodeMap) ==>
        nodeList == Without(old(nodeList), old(nodeMap)[node]) && nodeMap == Unmapped(old(nodeMap), node)
      ensures node in old(nodeMap) ==> nodeNum == old(nodeNum) - 1
    {
      if node !in nodeMap {
        return NodeNotExist;
      }
      RemoveKeepsIndexed(nodeList, nodeMap, nodeNum, node);
      var index := nodeMap[node];
      ghost var list' := Without(nodeList, index);
      nodeList := nodeList[..index] + nodeList[index + 1..];
      assert nodeList == list';
      nodeMap := Unmapped(nodeMap, node);
      nodeNum := nodeNum - 1;
      err := Ok;
    }
  }
}
