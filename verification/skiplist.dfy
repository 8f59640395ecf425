/**
 * The skip list itself: the head, the current height curLevel and the node counter
 * nodeCnt, with add, get, searchNode and del. Nodes live in the arena `nodes`
 * (index HEAD is the head, NIL is null); the ghost `chains` lists, for each level,
 * the nodes reached from the head along that level's forward links.
 */
module SkipLists {
  import opened Options
  import opened Levels
  import opened SortedEntries
  import opened Arena

  class SkipList<V(0)> {
    var nodes: seq<Node<V>>
    var curLevel: int
    var nodeCnt: int
    ghost var chains: seq<seq<int>>

    /** Every level is linked and sorted and curLevel is the highest level with nodes. */
    ghost predicate Linked()
      reads this
    {
      Structured(nodes, chains, curLevel)
    }

    /** The shape the searches rely on: besides Linked, a node is on exactly the
        levels 0..level. get, searchNode, add and del never read nodeCnt, so they
        need no more than this. */
    ghost predicate Shaped()
      reads this
    {
      Linked() && Nested(nodes, chains)
    }

    /** The invariant add and the intended del keep: the shape, and nodeCnt counts
        the nodes of level 0. */
    ghost predicate Valid()
      reads this
    {
      Shaped() && nodeCnt == |chains[0]|
    }

    /** The (key, value) entries of level 0, in traversal order. */
    ghost function Entries(): seq<(int, V)>
      reads this
      requires Linked()
    {
      EntriesOf(nodes, chains[0])
    }

    /** The map the skip list stores. */
    ghost function Contents(): map<int, V>
      reads this
      requires Linked()
    {
      ToMap(Entries())
    }

    /** The node a search for key stops after at each level: the predecessor of the
        key's position in that level's chain up to curLevel, NIL above. */
    ghost function SearchPath(key: int): seq<int>
      reads this
      requires Linked()
    {
      var ns, cs, top := nodes, chains, curLevel;
      seq(MAX_LEVEL + 1, i requires 0 <= i <= MAX_LEVEL =>
        if i <= top then PredOf(cs[i], Rank(ns, cs[i], key)) else NIL)
    }

    /** The node holding key, or NIL. */
    ghost function NodeOf(key: int): (t: int)
      reads this
      requires Linked()
      ensures t != NIL <==> key in Contents()
      ensures t != NIL ==> t in chains[0] && HEAD < t < |nodes| && nodes[t].key == key && nodes[t].value == Contents()[key]
    {
      var c := chains[0];
      var r := Rank(nodes, c, key);
      LookupChain(nodes, c, key);
      if r < |c| && nodes[c[r]].key == key then c[r] else NIL
    }

    /** The constructor: a head of level MAX_LEVEL with MAX_LEVEL + 1 null links. */
    constructor ()
      ensures Valid()
      ensures Entries() == [] && Contents() == map[]
      ensures curLevel == 0 && nodeCnt == 0 && |nodes| == 1
      ensures forall l :: 0 <= l <= MAX_LEVEL ==> chains[l] == []
    {
      var none: V := *;
      nodes := [Node(0, none, MAX_LEVEL, seq(MAX_LEVEL + 1, _ => NIL))];
      nodeCnt := 0;
      curLevel := 0;
      chains := seq(MAX_LEVEL + 1, _ => []);
    }

    /** Move right along level i while the next node's key is below key: from
        position p of the level-i chain to the position where the search stops. */
    method Advance(i: int, key: int, cur0: int, ghost p0: int) returns (cur: int, ghost p: int)
      requires Linked() && 0 <= i <= MAX_LEVEL
      requires 0 <= p0 <= |chains[i]| && cur0 == PredOf(chains[i], p0)
      requires forall j :: 0 <= j < p0 ==> nodes[chains[i][j]].key < key
      ensures cur == PredOf(chains[i], Rank(nodes, chains[i], key))
      ensures p == Rank(nodes, chains[i], key)
    {
      cur, p := cur0, p0;
      while nodes[cur].forwards[i] != NIL && nodes[nodes[cur].forwards[i]].key < key
        invariant 0 <= p <= |chains[i]| && cur == PredOf(chains[i], p)
        invariant forall j :: 0 <= j < p ==> nodes[chains[i][j]].key < key
        decreases |chains[i]| - p
      {
        cur := nodes[cur].forwards[i];
        p := p + 1;
      }
      RankIs(nodes, chains[i], key, p);
    }

    /**
     * The descent shared by add, get, del and searchNode: from the head at level
     * curLevel down to level 0, move right while the next node's key is below key,
     * and record the node reached at each level (preNodes). preNodes keeps null at
     * the levels above curLevel.
     */
    method Walk(key: int) returns (preNodes: seq<int>)
      requires Shaped()
      ensures preNodes == SearchPath(key)
    {
      var cur := HEAD;
      preNodes := seq(MAX_LEVEL + 1, _ => NIL);
      var i := curLevel;
      ghost var p := 0;
      ghost var path := SearchPath(key);
      while i >= 0
        invariant -1 <= i <= curLevel
        invariant |preNodes| == MAX_LEVEL + 1
        invariant forall l :: i < l <= MAX_LEVEL ==> preNodes[l] == path[l]
        invariant 0 <= i ==> 0 <= p <= |chains[i]| && cur == PredOf(chains[i], p)
        invariant 0 <= i ==> forall j :: 0 <= j < p ==> nodes[chains[i][j]].key < key
        decreases i
      {
        cur, p := Advance(i, key, cur, p);
        preNodes := preNodes[i := cur];
        if 0 < i {
          p := Descend(nodes, chains, curLevel, i, i - 1, key, p);
        }
        i := i - 1;
      }
    }

    /**
     * The splice of add (a new node of level lvl, linked at levels 0..lvl right after
     * the node the search recorded there). On entry the levels above the old curLevel
     * already record the head, and no node carries key.
     */
    method LinkNew(key: int, value: V, lvl: int, preNodes: seq<int>)
      requires ChainsOk(nodes, chains)
      requires 1 <= lvl <= MAX_LEVEL && |preNodes| == MAX_LEVEL + 1
      requires forall l :: 0 <= l <= lvl ==> preNodes[l] == PredOf(chains[l], Rank(nodes, chains[l], key))
      requires forall l, j :: 0 <= l <= MAX_LEVEL && 0 <= j < |chains[l]| ==> nodes[chains[l][j]].key != key
      modifies this`nodes, this`chains
      ensures ChainsOk(nodes, chains)
      ensures |nodes| == old(|nodes|) + 1
      ensures nodes[old(|nodes|)].key == key && nodes[old(|nodes|)].value == value && nodes[old(|nodes|)].level == lvl
      ensures forall m :: 0 <= m < old(|nodes|) ==>
        nodes[m].key == old(nodes[m].key) && nodes[m].value == old(nodes[m].value) && nodes[m].level == old(nodes[m].level)
      ensures forall l :: 0 <= l <= lvl ==>
        chains[l] == Spliced(old(chains[l]), old(Rank(nodes, chains[l], key)), old(|nodes|))
      ensures forall l :: lvl < l <= MAX_LEVEL ==> chains[l] == old(chains[l])
    {
      var n := |nodes|;
      ghost var nodes0, chains0 := nodes, chains;
      LinkingStart(nodes0, chains0, key, value, lvl);
      nodes := nodes + [Node(key, value, lvl, seq(MAX_LEVEL + 1, _ => NIL))];
      var i := 0;
      while i <= lvl
        invariant Linking(nodes0, chains0, nodes, chains, key, value, lvl, i)
      {
        var pre := preNodes[i];
        LinkingStep(nodes0, chains0, nodes, chains, key, value, lvl, i, pre);
        nodes := nodes[n := nodes[n].(forwards := nodes[n].forwards[i := nodes[pre].forwards[i]])];
        nodes := nodes[pre := nodes[pre].(forwards := nodes[pre].forwards[i := n])];
        chains := chains[i := Spliced(chains[i], Rank(nodes0, chains0[i], key), n)];
        i := i + 1;
      }
    }

    /** The overwrite branch of add: the node t found for key gets the new value. */
    method SetValue(key: int, value: V, t: int)
      requires Shaped() && key in Contents() && t == NodeOf(key)
      modifies this
      ensures Shaped()
      ensures Entries() == Upsert(old(Entries()), key, value)
      ensures nodes == old(nodes[t := nodes[t].(value := value)])
      ensures chains == old(chains) && curLevel == old(curLevel) && nodeCnt == old(nodeCnt)
    {
      ghost var r := Rank(nodes, chains[0], key);
      RankSplits(nodes, chains[0], key);
      UpsertAt(Entries(), r, key, value);
      ghost var nodes0 := nodes;
      nodes := nodes[t := nodes[t].(value := value)];
      EntriesUpdated(nodes0, nodes, chains[0], r);
      forall l | 0 <= l <= MAX_LEVEL
        ensures ChainOk(nodes, chains[l], l)
      {
        ChainFrame(nodes0, nodes, chains[l], l);
      }
    }

    /** Lines 116-122 of add: when the new node is higher than the list, the head is
        the predecessor at the levels above curLevel, and curLevel rises to lvl. */
    method RaiseLevel(ghost key: int, lvl: int, preNodes0: seq<int>) returns (preNodes: seq<int>)
      requires Linked() && 1 <= lvl <= MAX_LEVEL && preNodes0 == SearchPath(key)
      modifies this`curLevel
      ensures curLevel == Max(old(curLevel), lvl) && |preNodes| == MAX_LEVEL + 1
      ensures forall l :: 0 <= l <= lvl ==> preNodes[l] == PredOf(chains[l], Rank(nodes, chains[l], key))
    {
      preNodes := preNodes0;
      if lvl > curLevel {
        var i := curLevel + 1;
        while i < lvl + 1
          invariant curLevel + 1 <= i <= lvl + 1 && |preNodes| == MAX_LEVEL + 1
          invariant forall l :: 0 <= l < i ==> preNodes[l] == PredOf(chains[l], Rank(nodes, chains[l], key))
        {
          preNodes := preNodes[i := HEAD];
          i := i + 1;
        }
        curLevel := lvl;
      }
    }

    /** The insert branch of add: record the head at the levels above curLevel that
        the new node reaches, raise curLevel, splice the node in and count it. */
    method Insert(key: int, value: V, lvl: int, preNodes0: seq<int>)
      requires Shaped() && 1 <= lvl <= MAX_LEVEL && key !in Contents()
      requires preNodes0 == SearchPath(key)
      modifies this
      ensures Shaped()
      ensures Entries() == Upsert(old(Entries()), key, value)
      ensures |chains[0]| == old(|chains[0]|) + 1
      ensures |nodes| == old(|nodes|) + 1
      ensures nodes[old(|nodes|)].key == key && nodes[old(|nodes|)].value == value && nodes[old(|nodes|)].level == lvl
      ensures curLevel == Max(old(curLevel), lvl) && nodeCnt == old(nodeCnt) + 1
      ensures forall l :: 0 <= l <= lvl ==>
        chains[l] == Spliced(old(chains[l]), old(Rank(nodes, chains[l], key)), old(|nodes|))
      ensures forall l :: lvl < l <= MAX_LEVEL ==> chains[l] == old(chains[l])
      ensures NodeOf(key) == old(|nodes|)
    {
      AbsentEverywhere(nodes, chains, curLevel, key);
      ghost var nodes0, chains0, level0 := nodes, chains, curLevel;
      var preNodes := RaiseLevel(key, lvl, preNodes0);
      LinkNew(key, value, lvl, preNodes);
      nodeCnt := nodeCnt + 1;
      InsertShape(nodes0, nodes, chains0, chains, level0, key, value, lvl);
    }

    /**
     * add(key, value) with the level getRandomLevel drew: overwrite the value of the
     * node that carries key, or link a new node of level lvl at levels 0..lvl, raising
     * curLevel to lvl, the head recording the levels above the old curLevel. It always
     * returns true.
     */
    method Add(key: int, value: V, lvl: int) returns (ok: bool)
      requires Shaped() && 1 <= lvl <= MAX_LEVEL
      modifies this
      ensures Shaped() && ok
      ensures old(Valid()) ==> Valid()
      ensures Entries() == Upsert(old(Entries()), key, value)
      ensures Contents() == old(Contents())[key := value]
      ensures key in old(Contents()) ==>
        && nodes == old(nodes[NodeOf(key) := nodes[NodeOf(key)].(value := value)])
        && chains == old(chains) && curLevel == old(curLevel) && nodeCnt == old(nodeCnt)
      ensures key !in old(Contents()) ==>
        && |nodes| == old(|nodes|) + 1
        && nodes[old(|nodes|)].key == key && nodes[old(|nodes|)].value == value && nodes[old(|nodes|)].level == lvl
        && curLevel == Max(old(curLevel), lvl) && nodeCnt == old(nodeCnt) + 1
        && NodeOf(key) == old(|nodes|)
        && (forall l :: 0 <= l <= lvl ==>
              chains[l] == Spliced(old(chains[l]), old(Rank(nodes, chains[l], key)), old(|nodes|)))
        && (forall l :: lvl < l <= MAX_LEVEL ==> chains[l] == old(chains[l]))
    {
      UpsertMap(Entries(), key, value);
      var preNodes := Walk(key);
      var cur := nodes[preNodes[0]].forwards[0];
      LookupChain(nodes, chains[0], key);
      if cur != NIL && nodes[cur].key == key {
        SetValue(key, value, cur);
        return true;
      }
      Insert(key, value, lvl, preNodes);
      return true;
    }

    /** get: the value stored under key, or None where the source returns null. The
        descent is add's, shared through Walk: the predecessors it records are a local
        by-product that get does not keep, and nothing in the list changes. */
    method Get(key: int) returns (r: Option<V>)
      requires Shaped()
      ensures r == (if key in Contents() then Some(Contents()[key]) else None)
    {
      var preNodes := Walk(key);
      var cur := nodes[preNodes[0]].forwards[0];
      LookupChain(nodes, chains[0], key);
      if cur != NIL && nodes[cur].key == key {
        r := Some(nodes[cur].value);
      } else {
        r := None;
      }
    }

    /** searchNode: whether key is stored. It descends like get, through Walk, and
        discards the predecessors Walk records. */
    method SearchNode(key: int) returns (found: bool)
      requires Shaped()
      ensures found <==> key in Contents()
    {
      var preNodes := Walk(key);
      var cur := nodes[preNodes[0]].forwards[0];
      LookupChain(nodes, chains[0], key);
      found := cur != NIL && nodes[cur].key == key;
    }

    /** The traversal of dumpFile: the level-0 chain from the head, one (key, value)
        record per node, in the order the records are written. */
    method DumpRecords() returns (records: seq<(int, V)>)
      requires Linked()
      ensures records == Entries()
      ensures StrictlySorted(records)
    {
      records := [];
      var node := nodes[HEAD].forwards[0];
      ghost var j := 0;
      while node != NIL
        invariant 0 <= j <= |chains[0]|
        invariant node == After(chains[0], j)
        invariant records == EntriesOf(nodes, chains[0])[..j]
        decreases |chains[0]| - j
      {
        records := records + [(nodes[node].key, nodes[node].value)];
        node := nodes[node].forwards[0];
        j := j + 1;
      }
      RankSplits(nodes, chains[0], 0);
    }

    /** The unlink loop of del: at levels 0, 1, ... below bound, the predecessor the
        search recorded takes over t's link, until a level where that predecessor
        does not link to t. It ends after level min(bound, t's level + 1) - 1. */
    method Unlink(ghost key: int, t: int, preNodes: seq<int>, bound: int)
      requires ChainsOk(nodes, chains) && Nested(nodes, chains)
      requires t in chains[0] && nodes[t].key == key
      requires 0 <= bound <= MAX_LEVEL + 1 && |preNodes| == MAX_LEVEL + 1
      requires forall l :: 0 <= l < bound ==> preNodes[l] == PredOf(chains[l], Rank(nodes, chains[l], key))
      modifies this`nodes, this`chains
      ensures Unlinking(old(nodes), old(chains), nodes, chains, key, t, Min(bound, old(nodes[t].level) + 1))
    {
      ghost var nodes0, chains0, top := nodes, chains, nodes[t].level + 1;
      UnlinkingStart(nodes, chains, key, t);
      var i := 0;
      while i < bound
        invariant i <= bound && i <= top && Unlinking(nodes0, chains0, nodes, chains, key, t, i)
      {
        var pre := preNodes[i];
        UnlinkingBreak(nodes0, chains0, nodes, chains, key, t, i, pre);
        if nodes[pre].forwards[i] != t {
          assert i == top;
          break;
        }
        UnlinkingStep(nodes0, chains0, nodes, chains, key, t, i, pre);
        nodes := nodes[pre := nodes[pre].(forwards := nodes[pre].forwards[i := nodes[t].forwards[i]])];
        chains := chains[i := Unspliced(chains[i], Position(chains0[i], t))];
        i := i + 1;
      }
    }

    /** The last loop of del: lower curLevel while the head has no successor there. */
    method Shrink()
      requires ChainsOk(nodes, chains) && 0 <= curLevel <= MAX_LEVEL
      requires forall l :: curLevel < l <= MAX_LEVEL ==> chains[l] == []
      modifies this`curLevel
      ensures Linked() && curLevel <= old(curLevel)
      ensures curLevel == 0 || nodes[HEAD].forwards[curLevel] != NIL
      ensures old(chains[curLevel]) != [] ==> curLevel == old(curLevel)
    {
      while curLevel > 0 && nodes[HEAD].forwards[curLevel] == NIL
        invariant 0 <= curLevel <= old(curLevel)
        invariant forall l :: curLevel < l <= MAX_LEVEL ==> chains[l] == []
      {
        assert nodes[PredOf(chains[curLevel], 0)].forwards[curLevel] == After(chains[curLevel], 0);
        curLevel := curLevel - 1;
      }
      if curLevel > 0 {
        assert nodes[PredOf(chains[curLevel], 0)].forwards[curLevel] == After(chains[curLevel], 0);
      }
    }

    /** The search and unlink part of del, with the unlink loop running below bound:
        curLevel as written, curLevel + 1 as intended. found says whether a node
        carried key; that node t leaves exactly the chains of the levels below
        min(bound, t's level + 1), and no node changes key, value or level. */
    method UnlinkKey(key: int, bound: int) returns (found: bool)
      requires Shaped() && curLevel <= bound <= curLevel + 1
      modifies this`nodes, this`chains
      ensures found <==> key in old(Contents())
      ensures ChainsOk(nodes, chains) && |nodes| == old(|nodes|)
      ensures forall l :: curLevel < l <= MAX_LEVEL ==> chains[l] == []
      ensures EntriesOf(nodes, chains[0]) == Remove(old(Entries()), key)
      ensures |chains[0]| == old(|chains[0]|) - (if found then 1 else 0)
      ensures !found ==> nodes == old(nodes) && chains == old(chains)
      ensures found ==>
        var t := old(NodeOf(key));
        && 1 <= old(nodes)[t].level <= curLevel
        && UnlinkedBelow(old(nodes), old(chains), nodes, chains, t, Min(bound, old(nodes)[t].level + 1))
        && (old(nodes)[t].level < bound ==> Nested(nodes, chains))
        && (old(nodes)[t].level >= bound ==> t in chains[curLevel] && t !in chains[0] && !Nested(nodes, chains))
    {
      var preNodes := Walk(key);
      var cur := nodes[preNodes[0]].forwards[0];
      LookupChain(nodes, chains[0], key);
      ghost var nodes0, chains0 := nodes, chains;
      found := cur != NIL && nodes[cur].key == key;
      if found {
        assert cur == NodeOf(key);
        Unlink(key, cur, preNodes, bound);
        UnlinkedAll(nodes0, chains0, curLevel, nodes, chains, key, cur, bound);
      } else {
        RemoveMissing(nodes, chains[0], key);
      }
    }

    /**
     * del, as written: search for key; if a node carries it, unlink it at the levels
     * below curLevel while the recorded predecessor links to it; lower curLevel; then
     * decrement nodeCnt and return true whether or not the key was there. A node whose
     * level equals curLevel stays linked at that level, so the nesting of the levels
     * is kept only when the node's level is below curLevel.
     */
    method Del(key: int) returns (ok: bool)
      requires Shaped()
      modifies this
      ensures ok && nodeCnt == old(nodeCnt) - 1 && |nodes| == old(|nodes|)
      ensures Linked() && curLevel <= old(curLevel)
      ensures curLevel == 0 || nodes[HEAD].forwards[curLevel] != NIL
      ensures Entries() == Remove(old(Entries()), key)
      ensures Contents() == old(Contents()) - {key}
      ensures |chains[0]| == old(|chains[0]|) - (if key in old(Contents()) then 1 else 0)
      ensures key !in old(Contents()) ==>
        nodes == old(nodes) && chains == old(chains) && curLevel == old(curLevel) && Shaped()
      ensures key in old(Contents()) ==>
        var t := old(NodeOf(key));
        UnlinkedBelow(old(nodes), old(chains), nodes, chains, t, Min(old(curLevel), old(nodes)[t].level + 1))
      ensures key in old(Contents()) && old(nodes[NodeOf(key)].level < curLevel) ==>
        Shaped() && (old(Valid()) ==> Valid())
      ensures key in old(Contents()) && old(nodes[NodeOf(key)].level == curLevel) ==>
        && curLevel == old(curLevel)
        && old(NodeOf(key)) in chains[curLevel] && old(NodeOf(key)) !in chains[0]
        && !Nested(nodes, chains)
    {
      RemoveMap(Entries(), key);
      var found := UnlinkKey(key, curLevel);
      Shrink();
      nodeCnt := nodeCnt - 1;
      ok := true;
    }

    /** del as evidently intended: the unlink loop runs through curLevel, so the node
        is unlinked at every level it is on, and nodeCnt drops only when a node was
        removed; the result says whether key was there. */
    method DelIntended(key: int) returns (found: bool)
      requires Valid()
      modifies this
      ensures Valid() && curLevel <= old(curLevel)
      ensures found <==> key in old(Contents())
      ensures Entries() == Remove(old(Entries()), key)
      ensures Contents() == old(Contents()) - {key}
      ensures found ==>
        var t := old(NodeOf(key));
        nodeCnt == old(nodeCnt) - 1 && UnlinkedBelow(old(nodes), old(chains), nodes, chains, t, old(nodes)[t].level + 1)
      ensures !found ==>
        nodes == old(nodes) && chains == old(chains) && curLevel == old(curLevel) && nodeCnt == old(nodeCnt)
    {
      RemoveMap(Entries(), key);
      found := UnlinkKey(key, curLevel + 1);
      assert Nested(nodes, chains);
      Shrink();
      if found {
        nodeCnt := nodeCnt - 1;
      }
    }
  }

  /** The entries of that scenario, step by step. */
  lemma ScenarioEntries()
    ensures Upsert([], 1, "a") == [(1, "a")]
    ensures Upsert([(1, "a")], 3, "c") == [(1, "a"), (3, "c")]
    ensures Upsert([(1, "a"), (3, "c")], 2, "b") == [(1, "a"), (2, "b"), (3, "c")]
    ensures Remove([(1, "a"), (2, "b"), (3, "c")], 2) == [(1, "a"), (3, "c")]
  {
  }

  /** Insert (1, "a"), (3, "c"), (2, "b") at levels 1, 2, 1: get(2) is "b" and the walk
      along level 0 lists 1, 2, 3 in order. Deleting 2, whose level is below curLevel, makes get(2)
      absent, leaves 1, 3 at level 0 and two nodes counted. */
  method AddGetDelScenario() returns (before: Option<string>, after: Option<string>,
                                      full: seq<(int, string)>, order: seq<(int, string)>, count: int)
    ensures before == Some("b") && after == None
    ensures full == [(1, "a"), (2, "b"), (3, "c")]
    ensures order == [(1, "a"), (3, "c")] && count == 2
  {
    ScenarioEntries();
    var s := new SkipList<string>();
    var ok := s.Add(1, "a", 1);
    ok := s.Add(3, "c", 2);
    ok := s.Add(2, "b", 1);
    before := s.Get(2);
    full := s.DumpRecords();
    ok := s.Del(2);
    after := s.Get(2);
    order := s.DumpRecords();
    count := s.nodeCnt;
  }

  /**
   * del as written, on concrete input: put key 1 with level 1 into a new list and
   * delete it. The level-0 chain is then empty but the head still links to the
   * deleted node at level 1.
   */
  method DelScenario() returns (first0: int, first1: int, ok: bool)
    ensures first0 == NIL && first1 == 1 && ok
  {
    var s := new SkipList<int>();
    assert s.chains[0] == [] && s.chains[1] == [];
    var added := s.Add(1, 10, 1);
    assert s.chains[1] == [1] && 1 in s.Contents();
    ok := s.Del(1);
    assert s.chains[0] == [];
    FirstOfChain(s.nodes, s.chains[0], 0);
    SoleNode(s.nodes, s.chains[1], 1);
    first0 := s.nodes[HEAD].forwards[0];
    first1 := s.nodes[HEAD].forwards[1];
  }

  /** del as written of a key that was never there: on a new list, del(5) returns
      true and drops nodeCnt to -1; get(3) still answers null; a second del(5)
      drops nodeCnt to -2. */
  method DelMissingScenario() returns (ok: bool, r: Option<int>, count1: int, count2: int)
    ensures ok && r == None && count1 == -1 && count2 == -2
  {
    var t := new SkipList<int>();
    ok := t.Del(5);
    count1 := t.nodeCnt;
    r := t.Get(3);
    ok := t.Del(5);
    count2 := t.nodeCnt;
  }

  /** The same input through the intended del: the node is gone from every level,
      curLevel drops back to 0, and deleting a missing key reports it and leaves
      nodeCnt at 0. */
  method DelIntendedScenario() returns (first1: int, top: int, found: bool, count: int)
    ensures first1 == NIL && top == 0
    ensures !found && count == 0
  {
    var s := new SkipList<int>();
    assert s.chains[0] == [] && s.chains[1] == [];
    var added := s.Add(1, 10, 1);
    assert 1 in s.Contents();
    found := s.DelIntended(1);
    EmptyEverywhere(s.nodes, s.chains, s.curLevel);
    FirstOfChain(s.nodes, s.chains[1], 1);
    first1 := s.nodes[HEAD].forwards[1];
    top := s.curLevel;
    var t := new SkipList<int>();
    found := t.DelIntended(2);
    count := t.nodeCnt;
  }
}
