/**
 * The nodes of the skip list, kept in an arena: a node is an index into a sequence
 * of node records, index HEAD is the head node and NIL stands for null. For each
 * level, the ghost "chain" is the list of nodes met by following that level's
 * forward links from the head. This module states what it means for a chain to be
 * linked and sorted, and proves that splicing a node into a chain, or out of it,
 * at the place the search stops keeps it so.
 */
module Arena {
  import opened Levels
  import opened SortedEntries

  const NIL := -1
  const HEAD := 0

  /** A node: its key, its value, the level drawn for it and its forward links, one
      slot per level 0..MAX_LEVEL, as the source allocates them. */
  datatype Node<V> = Node(key: int, value: V, level: int, forwards: seq<int>)

  function Max(a: int, b: int): int
  {
    if a < b then b else a
  }

  function Min(a: int, b: int): int
  {
    if a < b then a else b
  }

  /** Every node has MAX_LEVEL + 1 forward slots, the head has level MAX_LEVEL and
      every other node a level drawn by getRandomLevel. */
  ghost predicate WellFormed<V>(nodes: seq<Node<V>>)
  {
    && |nodes| >= 1
    && nodes[HEAD].level == MAX_LEVEL
    && (forall n :: 0 <= n < |nodes| ==> |nodes[n].forwards| == MAX_LEVEL + 1)
    && (forall n :: HEAD < n < |nodes| ==> 1 <= nodes[n].level <= MAX_LEVEL)
  }

  /** Every node of c is a node of the arena other than the head. */
  ghost predicate InArena<V>(nodes: seq<Node<V>>, c: seq<int>)
  {
    forall j :: 0 <= j < |c| ==> HEAD < c[j] < |nodes|
  }

  /** Keys strictly increase along c. */
  ghost predicate KeysIncrease<V>(nodes: seq<Node<V>>, c: seq<int>)
    requires InArena(nodes, c)
  {
    forall a, b :: 0 <= a < b < |c| ==> nodes[c[a]].key < nodes[c[b]].key
  }

  /** The node whose forward link leads to position p of the chain c. */
  function PredOf(c: seq<int>, p: int): int
    requires 0 <= p <= |c|
  {
    if p == 0 then HEAD else c[p - 1]
  }

  /** The node at position p of the chain c, or NIL past its end. */
  function After(c: seq<int>, p: int): int
    requires 0 <= p <= |c|
  {
    if p < |c| then c[p] else NIL
  }

  /** c is the chain of level i: its nodes are linked at level i in order from the
      head, the last one links to NIL, their keys increase, and each was drawn at
      level i or above. */
  ghost predicate ChainOk<V>(nodes: seq<Node<V>>, c: seq<int>, i: int)
    requires WellFormed(nodes) && 0 <= i <= MAX_LEVEL
  {
    && InArena(nodes, c)
    && (forall j :: 0 <= j < |c| ==> i <= nodes[c[j]].level)
    && KeysIncrease(nodes, c)
    && (forall p :: 0 <= p <= |c| ==> nodes[PredOf(c, p)].forwards[i] == After(c, p))
  }

  /** Every level's chain is linked and sorted. */
  ghost predicate ChainsOk<V>(nodes: seq<Node<V>>, chains: seq<seq<int>>)
  {
    && WellFormed(nodes)
    && |chains| == MAX_LEVEL + 1
    && (forall i :: 0 <= i <= MAX_LEVEL ==> ChainOk(nodes, chains[i], i))
  }

  /** The shape every operation keeps: each level's chain is linked and sorted, the
      levels above curLevel are empty, and curLevel is 0 or a level that has nodes. */
  ghost predicate Structured<V>(nodes: seq<Node<V>>, chains: seq<seq<int>>, curLevel: int)
  {
    && ChainsOk(nodes, chains)
    && 0 <= curLevel <= MAX_LEVEL
    && (forall i :: curLevel < i <= MAX_LEVEL ==> chains[i] == [])
    && (curLevel == 0 || chains[curLevel] != [])
  }

  /** A node is linked at level i exactly when it is linked at level 0 and its level is
      at least i. */
  ghost predicate Nested<V>(nodes: seq<Node<V>>, chains: seq<seq<int>>)
  {
    && |chains| == MAX_LEVEL + 1
    && forall i, n :: 0 <= i <= MAX_LEVEL && HEAD < n < |nodes| ==>
         (n in chains[i] <==> n in chains[0] && i <= nodes[n].level)
  }

  /** The (key, value) entries of the nodes of c, in chain order. */
  ghost function EntriesOf<V>(nodes: seq<Node<V>>, c: seq<int>): seq<(int, V)>
    requires InArena(nodes, c)
  {
    seq(|c|, j requires 0 <= j < |c| => (nodes[c[j]].key, nodes[c[j]].value))
  }

  /** r is where a search for key stops in c: every node before r has a smaller
      key, and the node at r, if there is one, does not. */
  ghost predicate StopsAt<V>(nodes: seq<Node<V>>, c: seq<int>, key: int, r: int)
    requires InArena(nodes, c)
  {
    && 0 <= r <= |c|
    && (forall j :: 0 <= j < r ==> nodes[c[j]].key < key)
    && (r < |c| ==> nodes[c[r]].key >= key)
  }

  /** Scanning c from position from, past keys below key, stops somewhere. */
  lemma {:induction false} StopExists<V>(nodes: seq<Node<V>>, c: seq<int>, key: int, from: int)
    requires InArena(nodes, c) && 0 <= from <= |c|
    requires forall j :: 0 <= j < from ==> nodes[c[j]].key < key
    ensures exists r :: StopsAt(nodes, c, key, r)
    decreases |c| - from
  {
    if from == |c| || nodes[c[from]].key >= key {
      assert StopsAt(nodes, c, key, from);
    } else {
      StopExists(nodes, c, key, from + 1);
    }
  }

  /** The number of nodes a search for key passes at one level: the position of the
      first node of c whose key is not below key. */
  ghost function Rank<V>(nodes: seq<Node<V>>, c: seq<int>, key: int): (r: nat)
    requires InArena(nodes, c)
    ensures r <= |c|
    ensures forall j :: 0 <= j < r ==> nodes[c[j]].key < key
    ensures r < |c| ==> nodes[c[r]].key >= key
  {
    StopExists(nodes, c, key, 0);
    var r :| StopsAt(nodes, c, key, r);
    r
  }

  /** c with n put in at position r. */
  function Spliced(c: seq<int>, r: int, n: int): seq<int>
    requires 0 <= r <= |c|
  {
    c[..r] + [n] + c[r..]
  }

  /** c without its node at position r. */
  function Unspliced(c: seq<int>, r: int): seq<int>
    requires 0 <= r < |c|
  {
    c[..r] + c[r + 1..]
  }

  /** The position of a node in a chain that holds it. */
  ghost function Position(c: seq<int>, x: int): (j: int)
    requires x in c
    ensures 0 <= j < |c| && c[j] == x
  {
    if c[0] == x then 0 else 1 + Position(c[1..], x)
  }

  /** Any position where the keys before are below key and the key at it is not is the rank. */
  lemma RankIs<V>(nodes: seq<Node<V>>, c: seq<int>, key: int, p: int)
    requires InArena(nodes, c) && 0 <= p <= |c|
    requires forall j :: 0 <= j < p ==> nodes[c[j]].key < key
    requires p < |c| ==> nodes[c[p]].key >= key
    ensures Rank(nodes, c, key) == p
  {
  }

  /** The rank at which a search for key stops is the split point of the chain's entries. */
  lemma RankSplits<V>(nodes: seq<Node<V>>, c: seq<int>, key: int)
    requires InArena(nodes, c) && KeysIncrease(nodes, c)
    ensures StrictlySorted(EntriesOf(nodes, c))
    ensures SplitAt(EntriesOf(nodes, c), Rank(nodes, c, key), key)
  {
  }

  /** A chain lookup: key is in the map of a sorted chain exactly when the node where
      the search for key stops carries key, and the map gives that node's value. */
  lemma LookupChain<V>(nodes: seq<Node<V>>, c: seq<int>, key: int)
    requires InArena(nodes, c) && KeysIncrease(nodes, c)
    ensures var r := Rank(nodes, c, key);
      && (key in ToMap(EntriesOf(nodes, c)) <==> r < |c| && nodes[c[r]].key == key)
      && (key in ToMap(EntriesOf(nodes, c)) ==> ToMap(EntriesOf(nodes, c))[key] == nodes[c[r]].value)
  {
    RankSplits(nodes, c, key);
    LookupAt(EntriesOf(nodes, c), Rank(nodes, c, key), key);
  }

  /** In a sorted chain, a node carrying key sits at the rank of key. */
  lemma RankOfMember<V>(nodes: seq<Node<V>>, c: seq<int>, key: int, t: int)
    requires InArena(nodes, c) && KeysIncrease(nodes, c)
    requires t in c && nodes[t].key == key
    ensures Rank(nodes, c, key) == Position(c, t)
    ensures Rank(nodes, c, key) < |c| && c[Rank(nodes, c, key)] == t
  {
    var j := Position(c, t);
    forall k | 0 <= k < j
      ensures nodes[c[k]].key < key
    {
      assert nodes[c[k]].key < nodes[c[j]].key;
    }
    RankIs(nodes, c, key, j);
  }

  /** Dropping a level: the node the search reached at level i > 0 is the head or a
      node also linked at level i - 1, and every node before it there has a smaller
      key, so the search resumes at level i - 1 from position q. */
  lemma Descend<V>(nodes: seq<Node<V>>, chains: seq<seq<int>>, curLevel: int, i: int, lo: int, key: int, p: int)
      returns (q: int)
    requires Structured(nodes, chains, curLevel) && Nested(nodes, chains)
    requires 0 < i <= MAX_LEVEL && lo == i - 1 && 0 <= p <= |chains[i]|
    requires forall j :: 0 <= j < p ==> nodes[chains[i][j]].key < key
    ensures 0 <= q <= |chains[lo]|
    ensures PredOf(chains[lo], q) == PredOf(chains[i], p)
    ensures forall j :: 0 <= j < q ==> nodes[chains[lo][j]].key < key
  {
    if p == 0 {
      q := 0;
    } else {
      var cur := chains[i][p - 1];
      assert cur in chains[i];
      var c := chains[lo];
      q := Position(c, cur) + 1;
      forall j | 0 <= j < q
        ensures nodes[c[j]].key < key
      {
        if j < q - 1 {
          assert nodes[c[j]].key < nodes[c[q - 1]].key;
        }
      }
    }
  }

  /** Changing neither keys, levels nor the level-i links keeps a chain of level i. */
  lemma ChainFrame<V>(nodes: seq<Node<V>>, nodes': seq<Node<V>>, c: seq<int>, i: int)
    requires WellFormed(nodes) && WellFormed(nodes') && |nodes| <= |nodes'| && 0 <= i <= MAX_LEVEL
    requires ChainOk(nodes, c, i)
    requires forall m :: 0 <= m < |nodes| ==>
      nodes'[m].key == nodes[m].key && nodes'[m].level == nodes[m].level && nodes'[m].forwards[i] == nodes[m].forwards[i]
    ensures ChainOk(nodes', c, i)
  {
    assert forall p :: 0 <= p <= |c| ==> 0 <= PredOf(c, p) < |nodes|;
  }

  /** The rank of a key depends only on the keys of the chain's nodes. */
  lemma RankFrame<V>(nodes: seq<Node<V>>, nodes': seq<Node<V>>, c: seq<int>, key: int)
    requires InArena(nodes, c) && InArena(nodes', c)
    requires forall j :: 0 <= j < |c| ==> nodes'[c[j]].key == nodes[c[j]].key
    ensures Rank(nodes', c, key) == Rank(nodes, c, key)
  {
    RankIs(nodes', c, key, Rank(nodes, c, key));
  }

  /** Appending a node to the arena keeps every chain. */
  lemma AppendNode<V>(nodes: seq<Node<V>>, chains: seq<seq<int>>, node: Node<V>)
    requires ChainsOk(nodes, chains)
    requires |node.forwards| == MAX_LEVEL + 1 && 1 <= node.level <= MAX_LEVEL
    ensures ChainsOk(nodes + [node], chains)
  {
    forall l | 0 <= l <= MAX_LEVEL
      ensures ChainOk(nodes + [node], chains[l], l)
    {
      ChainFrame(nodes, nodes + [node], chains[l], l);
    }
  }

  /** One step of the splice loop of add: linking node n, which carries key, in at
      level i after the predecessor its search recorded keeps every chain linked
      and sorted, with n put in at level i. */
  lemma SpliceLevel<V>(nodes: seq<Node<V>>, nodes': seq<Node<V>>, chains: seq<seq<int>>, i: int, key: int, n: int)
    requires ChainsOk(nodes, chains) && WellFormed(nodes') && 0 <= i <= MAX_LEVEL && |nodes'| == |nodes|
    requires HEAD < n < |nodes| && nodes[n].key == key && nodes'[n].key == key && i <= nodes'[n].level
    requires forall j :: 0 <= j < |chains[i]| ==> nodes[chains[i][j]].key != key
    requires forall m :: 0 <= m < |nodes| ==> nodes'[m].key == nodes[m].key && nodes'[m].level == nodes[m].level
    requires var r := Rank(nodes, chains[i], key);
      && nodes'[n].forwards[i] == After(chains[i], r)
      && nodes'[PredOf(chains[i], r)].forwards[i] == n
      && forall m :: 0 <= m < |nodes| && m != n && m != PredOf(chains[i], r) ==> nodes'[m].forwards[i] == nodes[m].forwards[i]
    requires forall m, l :: 0 <= m < |nodes| && 0 <= l <= MAX_LEVEL && l != i ==> nodes'[m].forwards[l] == nodes[m].forwards[l]
    ensures ChainsOk(nodes', chains[i := Spliced(chains[i], Rank(nodes, chains[i], key), n)])
  {
    var c := chains[i];
    var r := Rank(nodes, c, key);
    assert n !in c;
    SpliceOk(nodes, nodes', c, i, key, n, r);
    forall l | 0 <= l <= MAX_LEVEL && l != i
      ensures ChainOk(nodes', chains[l], l)
    {
      ChainFrame(nodes, nodes', chains[l], l);
    }
  }

  /** The state of the splice loop of add after levels 0..i-1: the arena is the old
      one with the new node (key, value, level lvl) appended, the chains of levels
      below i have it put in where the search for key stopped, and the others are as
      they were. */
  ghost predicate Linking<V>(nodes0: seq<Node<V>>, chains0: seq<seq<int>>, nodes: seq<Node<V>>, chains: seq<seq<int>>,
                             key: int, value: V, lvl: int, i: int)
  {
    && ChainsOk(nodes0, chains0) && ChainsOk(nodes, chains)
    && 1 <= lvl <= MAX_LEVEL && 0 <= i <= lvl + 1
    && (forall l, j :: 0 <= l <= MAX_LEVEL && 0 <= j < |chains0[l]| ==> nodes0[chains0[l][j]].key != key)
    && |nodes| == |nodes0| + 1
    && nodes[|nodes0|].key == key && nodes[|nodes0|].value == value && nodes[|nodes0|].level == lvl
    && (forall m :: 0 <= m < |nodes0| ==>
          nodes[m].key == nodes0[m].key && nodes[m].value == nodes0[m].value && nodes[m].level == nodes0[m].level)
    && (forall l :: 0 <= l < i ==> chains[l] == Spliced(chains0[l], Rank(nodes0, chains0[l], key), |nodes0|))
    && (forall l :: i <= l <= MAX_LEVEL ==> chains[l] == chains0[l])
  }

  /** Appending the new node, with all its links null, starts the splice loop. */
  lemma LinkingStart<V>(nodes0: seq<Node<V>>, chains0: seq<seq<int>>, key: int, value: V, lvl: int)
    requires ChainsOk(nodes0, chains0) && 1 <= lvl <= MAX_LEVEL
    requires forall l, j :: 0 <= l <= MAX_LEVEL && 0 <= j < |chains0[l]| ==> nodes0[chains0[l][j]].key != key
    ensures Linking(nodes0, chains0, nodes0 + [Node(key, value, lvl, seq(MAX_LEVEL + 1, _ => NIL))], chains0, key, value, lvl, 0)
  {
    AppendNode(nodes0, chains0, Node(key, value, lvl, seq(MAX_LEVEL + 1, _ => NIL)));
  }

  /** One round of the splice loop: the new node takes over the level-i link of the
      predecessor the search recorded, and the predecessor links to the new node. */
  lemma LinkingStep<V>(nodes0: seq<Node<V>>, chains0: seq<seq<int>>, nodes: seq<Node<V>>, chains: seq<seq<int>>,
                       key: int, value: V, lvl: int, i: int, pre: int)
    requires Linking(nodes0, chains0, nodes, chains, key, value, lvl, i) && i <= lvl
    requires pre == PredOf(chains0[i], Rank(nodes0, chains0[i], key))
    ensures 0 <= pre < |nodes| && pre != |nodes0|
    ensures var n := |nodes0|;
      var nodes1 := nodes[n := nodes[n].(forwards := nodes[n].forwards[i := nodes[pre].forwards[i]])];
      var nodes2 := nodes1[pre := nodes1[pre].(forwards := nodes1[pre].forwards[i := n])];
      Linking(nodes0, chains0, nodes2, chains[i := Spliced(chains[i], Rank(nodes0, chains0[i], key), n)], key, value, lvl, i + 1)
  {
    var n := |nodes0|;
    RankFrame(nodes0, nodes, chains[i], key);
    var nodes1 := nodes[n := nodes[n].(forwards := nodes[n].forwards[i := nodes[pre].forwards[i]])];
    var nodes2 := nodes1[pre := nodes1[pre].(forwards := nodes1[pre].forwards[i := n])];
    SpliceLevel(nodes, nodes2, chains, i, key, n);
  }

  /** Splicing: a node n with key absent from c, linked after the node at position r
      of the search for key and before that node's old successor, gives the chain
      with n put in at position r. */
  lemma SpliceOk<V>(nodes: seq<Node<V>>, nodes': seq<Node<V>>, c: seq<int>, i: int, key: int, n: int, r: int)
    requires WellFormed(nodes) && WellFormed(nodes') && |nodes'| == |nodes| && 0 <= i <= MAX_LEVEL
    requires ChainOk(nodes, c, i)
    requires HEAD < n < |nodes| && n !in c
    requires 0 <= r <= |c|
    requires forall j :: 0 <= j < r ==> nodes[c[j]].key < key
    requires forall j :: r <= j < |c| ==> nodes[c[j]].key > key
    requires forall m :: 0 <= m < |nodes| && m != n ==>
      nodes'[m].key == nodes[m].key && nodes'[m].level == nodes[m].level
    requires nodes'[n].key == key && i <= nodes'[n].level
    requires nodes'[n].forwards[i] == After(c, r)
    requires nodes'[PredOf(c, r)].forwards[i] == n
    requires forall m :: 0 <= m < |nodes| && m != n && m != PredOf(c, r) ==>
      nodes'[m].forwards[i] == nodes[m].forwards[i]
    ensures ChainOk(nodes', Spliced(c, r, n), i)
  {
    SpliceSorted(nodes, nodes', c, key, n, r);
    SpliceLinked(nodes, nodes', c, i, n, r);
  }

  /** The keys of the spliced chain increase. */
  lemma SpliceSorted<V>(nodes: seq<Node<V>>, nodes': seq<Node<V>>, c: seq<int>, key: int, n: int, r: int)
    requires InArena(nodes, c) && KeysIncrease(nodes, c) && |nodes'| == |nodes|
    requires HEAD < n < |nodes| && 0 <= r <= |c|
    requires forall j :: 0 <= j < r ==> nodes[c[j]].key < key
    requires forall j :: r <= j < |c| ==> nodes[c[j]].key > key
    requires forall m :: 0 <= m < |nodes| && m != n ==> nodes'[m].key == nodes[m].key
    requires nodes'[n].key == key && n !in c
    ensures InArena(nodes', Spliced(c, r, n)) && KeysIncrease(nodes', Spliced(c, r, n))
  {
    var c' := Spliced(c, r, n);
    assert forall j :: 0 <= j < r ==> c'[j] == c[j];
    assert forall j :: r < j < |c'| ==> c'[j] == c[j - 1];
    forall a, b | 0 <= a < b < |c'|
      ensures nodes'[c'[a]].key < nodes'[c'[b]].key
    {
      if b < r {
        assert nodes[c[a]].key < nodes[c[b]].key;
      } else if a > r {
        assert nodes[c[a - 1]].key < nodes[c[b - 1]].key;
      }
    }
  }

  /** The links of the spliced chain. */
  lemma SpliceLinked<V>(nodes: seq<Node<V>>, nodes': seq<Node<V>>, c: seq<int>, i: int, n: int, r: int)
    requires WellFormed(nodes) && WellFormed(nodes') && |nodes'| == |nodes| && 0 <= i <= MAX_LEVEL
    requires ChainOk(nodes, c, i)
    requires HEAD < n < |nodes| && n !in c && 0 <= r <= |c|
    requires forall m :: 0 <= m < |nodes| && m != n ==> nodes'[m].level == nodes[m].level
    requires i <= nodes'[n].level
    requires nodes'[n].forwards[i] == After(c, r)
    requires nodes'[PredOf(c, r)].forwards[i] == n
    requires forall m :: 0 <= m < |nodes| && m != n && m != PredOf(c, r) ==>
      nodes'[m].forwards[i] == nodes[m].forwards[i]
    ensures forall j :: 0 <= j < |Spliced(c, r, n)| ==> i <= nodes'[Spliced(c, r, n)[j]].level
    ensures forall p :: 0 <= p <= |Spliced(c, r, n)| ==>
      nodes'[PredOf(Spliced(c, r, n), p)].forwards[i] == After(Spliced(c, r, n), p)
  {
    var c' := Spliced(c, r, n);
    assert forall j :: 0 <= j < r ==> c'[j] == c[j];
    assert c'[r] == n;
    assert forall j :: r < j < |c'| ==> c'[j] == c[j - 1];
    forall p | 0 <= p <= |c'|
      ensures nodes'[PredOf(c', p)].forwards[i] == After(c', p)
    {
      if p < r {
        assert PredOf(c', p) == PredOf(c, p);
        if p > 0 {
          assert nodes[c[p - 1]].key < nodes[c[r - 1]].key;
        }
        assert nodes[PredOf(c, p)].forwards[i] == After(c, p);
      } else if p == r {
        assert PredOf(c', p) == PredOf(c, r);
      } else if p == r + 1 {
        assert PredOf(c', p) == n;
      } else {
        assert PredOf(c', p) == PredOf(c, p - 1) == c[p - 2];
        if r > 0 {
          assert nodes[c[r - 1]].key < nodes[c[p - 2]].key;
        }
        assert nodes[PredOf(c, p - 1)].forwards[i] == After(c, p - 1);
      }
    }
  }

  /** Unsplicing: linking the node before position r to the node after it gives the
      chain without its node at position r. */
  lemma UnspliceOk<V>(nodes: seq<Node<V>>, nodes': seq<Node<V>>, c: seq<int>, i: int, r: int)
    requires WellFormed(nodes) && WellFormed(nodes') && |nodes'| == |nodes| && 0 <= i <= MAX_LEVEL
    requires ChainOk(nodes, c, i) && 0 <= r < |c|
    requires forall m :: 0 <= m < |nodes| ==>
      nodes'[m].key == nodes[m].key && nodes'[m].level == nodes[m].level
    requires nodes'[PredOf(c, r)].forwards[i] == After(c, r + 1)
    requires forall m :: 0 <= m < |nodes| && m != PredOf(c, r) ==> nodes'[m].forwards[i] == nodes[m].forwards[i]
    ensures ChainOk(nodes', Unspliced(c, r), i)
  {
    var c' := Unspliced(c, r);
    UnsplicedSorted(nodes, nodes', c, r);
    assert |c'| == |c| - 1;
    assert forall j :: 0 <= j < r ==> c'[j] == c[j];
    assert forall j :: r <= j < |c'| ==> c'[j] == c[j + 1];
    forall p | 0 <= p <= |c'|
      ensures nodes'[PredOf(c', p)].forwards[i] == After(c', p)
    {
      if p < r {
        assert PredOf(c', p) == PredOf(c, p);
        if p > 0 {
          assert nodes[c[p - 1]].key < nodes[c[r - 1]].key;
        }
        assert nodes[PredOf(c, p)].forwards[i] == After(c, p);
      } else if p == r {
        assert PredOf(c', p) == PredOf(c, r);
      } else {
        assert PredOf(c', p) == PredOf(c, p + 1) == c[p];
        if r > 0 {
          assert nodes[c[r - 1]].key < nodes[c[p]].key;
        }
        assert nodes[PredOf(c, p + 1)].forwards[i] == After(c, p + 1);
      }
    }
  }

  /** The keys of the unspliced chain increase. */
  lemma UnsplicedSorted<V>(nodes: seq<Node<V>>, nodes': seq<Node<V>>, c: seq<int>, r: int)
    requires InArena(nodes, c) && KeysIncrease(nodes, c) && 0 <= r < |c| && |nodes'| == |nodes|
    requires forall m :: 0 <= m < |nodes| ==> nodes'[m].key == nodes[m].key
    ensures InArena(nodes', Unspliced(c, r)) && KeysIncrease(nodes', Unspliced(c, r))
  {
    var c' := Unspliced(c, r);
    assert forall j :: 0 <= j < r ==> c'[j] == c[j];
    assert forall j :: r <= j < |c'| ==> c'[j] == c[j + 1];
    forall a, b | 0 <= a < b < |c'|
      ensures nodes'[c'[a]].key < nodes'[c'[b]].key
    {
      if b < r {
        assert nodes[c[a]].key < nodes[c[b]].key;
      } else if a >= r {
        assert nodes[c[a + 1]].key < nodes[c[b + 1]].key;
      } else {
        assert nodes[c[a]].key < nodes[c[b + 1]].key;
      }
    }
  }

  /** The nodes of the spliced chain are those of the chain and n. */
  lemma SplicedMembers(c: seq<int>, r: int, n: int)
    requires 0 <= r <= |c|
    ensures forall x :: x in Spliced(c, r, n) <==> x == n || x in c
  {
    assert c == c[..r] + c[r..];
  }

  /** The nodes of the unspliced chain are those of the chain but the one removed. */
  lemma UnsplicedMembers<V>(nodes: seq<Node<V>>, c: seq<int>, r: int)
    requires InArena(nodes, c) && KeysIncrease(nodes, c) && 0 <= r < |c|
    ensures forall x :: x in Unspliced(c, r) <==> x in c && x != c[r]
  {
    var c' := Unspliced(c, r);
    assert |c'| == |c| - 1;
    assert forall j :: 0 <= j < r ==> c'[j] == c[j];
    assert forall j :: r <= j < |c'| ==> c'[j] == c[j + 1];
    forall x | x in c'
      ensures x in c && x != c[r]
    {
      var j :| 0 <= j < |c'| && c'[j] == x;
      if j < r {
        assert nodes[c[j]].key < nodes[c[r]].key;
      } else {
        assert c[j + 1] == x && nodes[c[r]].key < nodes[c[j + 1]].key;
      }
    }
    forall x | x in c && x != c[r]
      ensures x in c'
    {
      var j :| 0 <= j < |c| && c[j] == x;
      if j < r {
        assert c'[j] == x;
      } else {
        assert c'[j - 1] == x;
      }
    }
  }

  /** The entries of a spliced chain: the new node's entry put in at the splice position. */
  lemma EntriesSpliced<V>(nodes: seq<Node<V>>, nodes': seq<Node<V>>, c: seq<int>, r: int, n: int)
    requires InArena(nodes, c) && 0 <= r <= |c| && |nodes| <= |nodes'| && 0 < n < |nodes'|
    requires forall m :: 0 <= m < |nodes| ==> nodes'[m].key == nodes[m].key && nodes'[m].value == nodes[m].value
    ensures InArena(nodes', Spliced(c, r, n))
    ensures EntriesOf(nodes', Spliced(c, r, n))
      == EntriesOf(nodes, c)[..r] + [(nodes'[n].key, nodes'[n].value)] + EntriesOf(nodes, c)[r..]
  {
  }

  /** Overwriting the value of the node at position r of a sorted chain overwrites
      that one entry. */
  lemma EntriesUpdated<V>(nodes: seq<Node<V>>, nodes': seq<Node<V>>, c: seq<int>, r: int)
    requires InArena(nodes, c) && KeysIncrease(nodes, c) && 0 <= r < |c| && |nodes| == |nodes'|
    requires forall m :: 0 <= m < |nodes| && m != c[r] ==> nodes'[m].key == nodes[m].key && nodes'[m].value == nodes[m].value
    requires nodes'[c[r]].key == nodes[c[r]].key
    ensures InArena(nodes', c)
    ensures EntriesOf(nodes', c) == EntriesOf(nodes, c)[r := (nodes'[c[r]].key, nodes'[c[r]].value)]
  {
    forall j | 0 <= j < |c| && j != r
      ensures c[j] != c[r]
    {
      if j < r {
        assert nodes[c[j]].key < nodes[c[r]].key;
      } else {
        assert nodes[c[r]].key < nodes[c[j]].key;
      }
    }
  }

  /** A key that no level-0 node carries is carried by no node of any level. */
  lemma AbsentEverywhere<V>(nodes: seq<Node<V>>, chains: seq<seq<int>>, curLevel: int, key: int)
    requires Structured(nodes, chains, curLevel) && Nested(nodes, chains)
    requires key !in ToMap(EntriesOf(nodes, chains[0]))
    ensures forall l, j :: 0 <= l <= MAX_LEVEL && 0 <= j < |chains[l]| ==> nodes[chains[l][j]].key != key
  {
    forall l, j | 0 <= l <= MAX_LEVEL && 0 <= j < |chains[l]|
      ensures nodes[chains[l][j]].key != key
    {
      var x := chains[l][j];
      assert x in chains[l];
      if nodes[x].key == key {
        RankOfMember(nodes, chains[0], key, x);
        LookupChain(nodes, chains[0], key);
        assert false;
      }
    }
  }

  /** Splicing a new node n of level lvl into the chains of levels 0..lvl keeps every
      node on exactly the levels up to its own. */
  lemma NestedAfterSplice<V>(nodes: seq<Node<V>>, nodes': seq<Node<V>>, chains: seq<seq<int>>, chains': seq<seq<int>>,
                             key: int, lvl: int)
    requires Nested(nodes, chains) && |chains'| == MAX_LEVEL + 1 && 0 <= lvl <= MAX_LEVEL
    requires forall l :: 0 <= l <= MAX_LEVEL ==> InArena(nodes, chains[l])
    requires |nodes'| == |nodes| + 1 && nodes'[|nodes|].level == lvl
    requires forall m :: 0 <= m < |nodes| ==> nodes'[m].level == nodes[m].level
    requires forall l :: 0 <= l <= lvl ==> chains'[l] == Spliced(chains[l], Rank(nodes, chains[l], key), |nodes|)
    requires forall l :: lvl < l <= MAX_LEVEL ==> chains'[l] == chains[l]
    ensures Nested(nodes', chains')
  {
    var n := |nodes|;
    forall l | 0 <= l <= MAX_LEVEL
      ensures forall x :: x in chains'[l] <==> x in chains[l] || (x == n && l <= lvl)
    {
      if l <= lvl {
        SplicedMembers(chains[l], Rank(nodes, chains[l], key), n);
      } else {
        assert n !in chains[l];
      }
    }
  }

  /** After the splice of add: with the new node n of level lvl put in at levels
      0..lvl where the search for its key stopped, and curLevel raised to lvl if
      lower, the shape holds again, level 0 has one more node, and the entries are
      the old ones with (key, value) inserted in key order. */
  lemma InsertShape<V>(nodes: seq<Node<V>>, nodes': seq<Node<V>>, chains: seq<seq<int>>, chains': seq<seq<int>>,
                       curLevel: int, key: int, value: V, lvl: int)
    requires Structured(nodes, chains, curLevel) && Nested(nodes, chains)
    requires key !in ToMap(EntriesOf(nodes, chains[0]))
    requires ChainsOk(nodes', chains') && 1 <= lvl <= MAX_LEVEL
    requires |nodes'| == |nodes| + 1
    requires nodes'[|nodes|].key == key && nodes'[|nodes|].value == value && nodes'[|nodes|].level == lvl
    requires forall m :: 0 <= m < |nodes| ==>
      nodes'[m].key == nodes[m].key && nodes'[m].value == nodes[m].value && nodes'[m].level == nodes[m].level
    requires forall l :: 0 <= l <= lvl ==> chains'[l] == Spliced(chains[l], Rank(nodes, chains[l], key), |nodes|)
    requires forall l :: lvl < l <= MAX_LEVEL ==> chains'[l] == chains[l]
    ensures Structured(nodes', chains', Max(curLevel, lvl)) && Nested(nodes', chains')
    ensures |chains'[0]| == |chains[0]| + 1
    ensures EntriesOf(nodes', chains'[0]) == Upsert(EntriesOf(nodes, chains[0]), key, value)
    ensures Rank(nodes', chains'[0], key) < |chains'[0]| && chains'[0][Rank(nodes', chains'[0], key)] == |nodes|
  {
    var top := Max(curLevel, lvl);
    if top != lvl {
      assert chains'[top] == chains[top];
    }
    NestedAfterSplice(nodes, nodes', chains, chains', key, lvl);
    var r := Rank(nodes, chains[0], key);
    LookupChain(nodes, chains[0], key);
    RankSplits(nodes, chains[0], key);
    UpsertAt(EntriesOf(nodes, chains[0]), r, key, value);
    EntriesSpliced(nodes, nodes', chains[0], r, |nodes|);
    assert chains'[0][r] == |nodes|;
    RankOfMember(nodes', chains'[0], key, |nodes|);
  }

  /** Taking the node t at position r of the level-i chain out: its predecessor pre
      takes over its level-i link, which keeps every chain linked and sorted. */
  lemma UnlinkLevel<V>(nodes: seq<Node<V>>, chains: seq<seq<int>>, i: int, r: int, pre: int, t: int)
    requires ChainsOk(nodes, chains) && 0 <= i <= MAX_LEVEL && 0 <= r < |chains[i]|
    requires pre == PredOf(chains[i], r) && t == chains[i][r]
    ensures 0 <= pre < |nodes| && 0 <= t < |nodes|
    ensures var nodes' := nodes[pre := nodes[pre].(forwards := nodes[pre].forwards[i := nodes[t].forwards[i]])];
      && ChainsOk(nodes', chains[i := Unspliced(chains[i], r)]) && |nodes'| == |nodes|
      && forall m :: 0 <= m < |nodes| ==>
           nodes'[m].key == nodes[m].key && nodes'[m].value == nodes[m].value && nodes'[m].level == nodes[m].level
  {
    var c := chains[i];
    var nodes' := nodes[pre := nodes[pre].(forwards := nodes[pre].forwards[i := nodes[t].forwards[i]])];
    assert PredOf(c, r + 1) == t;
    UnspliceOk(nodes, nodes', c, i, r);
    forall l | 0 <= l <= MAX_LEVEL && l != i
      ensures ChainOk(nodes', chains[l], l)
    {
      ChainFrame(nodes, nodes', chains[l], l);
    }
  }

  /** Node t taken out of the levels below top: it has left exactly the chains of
      those levels, every other chain is as it was, and no node has changed key,
      value or level. */
  ghost predicate UnlinkedBelow<V>(nodes0: seq<Node<V>>, chains0: seq<seq<int>>,
                                   nodes: seq<Node<V>>, chains: seq<seq<int>>, t: int, top: int)
  {
    && |chains0| == |chains| == MAX_LEVEL + 1 && |nodes| == |nodes0|
    && 0 <= top <= MAX_LEVEL + 1
    && (forall m :: 0 <= m < |nodes0| ==>
          nodes[m].key == nodes0[m].key && nodes[m].value == nodes0[m].value && nodes[m].level == nodes0[m].level)
    && (forall l :: 0 <= l < top ==> t in chains0[l] && chains[l] == Unspliced(chains0[l], Position(chains0[l], t)))
    && (forall l :: top <= l <= MAX_LEVEL ==> chains[l] == chains0[l])
  }

  /** The state of the unlink loop of del after levels 0..i-1, for the node t that
      carries key: the node is taken out of the chains of levels below i, the other
      chains are as they were, and no key, value or level has changed. */
  ghost predicate Unlinking<V>(nodes0: seq<Node<V>>, chains0: seq<seq<int>>,
                               nodes: seq<Node<V>>, chains: seq<seq<int>>, key: int, t: int, i: int)
  {
    && ChainsOk(nodes0, chains0)
    && t in chains0[0] && nodes0[t].key == key
    && (forall l :: 1 <= l <= nodes0[t].level ==> t in chains0[l])
    && ChainsOk(nodes, chains)
    && 0 <= i <= nodes0[t].level + 1
    && UnlinkedBelow(nodes0, chains0, nodes, chains, t, i)
  }

  /** Before the first round of the unlink loop nothing has changed. */
  lemma UnlinkingStart<V>(nodes: seq<Node<V>>, chains: seq<seq<int>>, key: int, t: int)
    requires ChainsOk(nodes, chains) && Nested(nodes, chains)
    requires t in chains[0] && nodes[t].key == key
    ensures Unlinking(nodes, chains, nodes, chains, key, t, 0)
  {
  }

  /** The test that ends the unlink loop: the predecessor the search recorded at
      level i links to t exactly when t was drawn at level i or above. */
  lemma UnlinkingBreak<V>(nodes0: seq<Node<V>>, chains0: seq<seq<int>>,
                          nodes: seq<Node<V>>, chains: seq<seq<int>>, key: int, t: int, i: int, pre: int)
    requires Unlinking(nodes0, chains0, nodes, chains, key, t, i) && i <= MAX_LEVEL
    requires pre == PredOf(chains0[i], Rank(nodes0, chains0[i], key))
    ensures 0 <= pre < |nodes| && pre != t
    ensures nodes[pre].forwards[i] == t <==> i <= nodes0[t].level
  {
    var c := chains0[i];
    var r := Rank(nodes0, c, key);
    assert nodes[pre].forwards[i] == After(c, r);
    if i <= nodes0[t].level {
      assert t in c;
      RankOfMember(nodes0, c, key, t);
    } else {
      assert t !in c;
    }
    if pre != HEAD {
      assert nodes0[pre].key < key;
    }
  }

  /** One round of the unlink loop: the predecessor at level i takes over t's level-i
      link, which takes t out of the chain of level i. */
  lemma UnlinkingStep<V>(nodes0: seq<Node<V>>, chains0: seq<seq<int>>,
                         nodes: seq<Node<V>>, chains: seq<seq<int>>, key: int, t: int, i: int, pre: int)
    requires Unlinking(nodes0, chains0, nodes, chains, key, t, i) && i <= nodes0[t].level
    requires pre == PredOf(chains0[i], Rank(nodes0, chains0[i], key))
    ensures 0 <= pre < |nodes| && 0 <= t < |nodes|
    ensures Unlinking(nodes0, chains0,
                      nodes[pre := nodes[pre].(forwards := nodes[pre].forwards[i := nodes[t].forwards[i]])],
                      chains[i := Unspliced(chains[i], Position(chains0[i], t))], key, t, i + 1)
  {
    var c := chains0[i];
    assert t in c;
    var r := Position(c, t);
    RankOfMember(nodes0, c, key, t);
    assert chains[i] == c;
    UnlinkLevel(nodes, chains, i, r, pre, t);
    UnlinkingNext(nodes0, chains0, nodes, chains,
                  nodes[pre := nodes[pre].(forwards := nodes[pre].forwards[i := nodes[t].forwards[i]])],
                  chains[i := Unspliced(chains[i], r)], key, t, i);
  }

  /** The bookkeeping of one round of the unlink loop, for any new arena that keeps
      keys, values and levels and links the new chains. */
  lemma UnlinkingNext<V>(nodes0: seq<Node<V>>, chains0: seq<seq<int>>, nodes: seq<Node<V>>, chains: seq<seq<int>>,
                         nodes': seq<Node<V>>, chains': seq<seq<int>>, key: int, t: int, i: int)
    requires Unlinking(nodes0, chains0, nodes, chains, key, t, i) && i <= nodes0[t].level
    requires ChainsOk(nodes', chains') && |nodes'| == |nodes|
    requires forall m :: 0 <= m < |nodes| ==>
      nodes'[m].key == nodes[m].key && nodes'[m].value == nodes[m].value && nodes'[m].level == nodes[m].level
    requires chains' == chains[i := Unspliced(chains0[i], Position(chains0[i], t))]
    ensures Unlinking(nodes0, chains0, nodes', chains', key, t, i + 1)
  {
  }

  /** Once level 0 is unlinked, the entries are the old ones without key, level 0 has
      one node fewer, and the levels above curLevel are still empty. */
  lemma UnlinkedEntries<V>(nodes0: seq<Node<V>>, chains0: seq<seq<int>>, curLevel0: int,
                           nodes: seq<Node<V>>, chains: seq<seq<int>>, key: int, t: int, i: int)
    requires Unlinking(nodes0, chains0, nodes, chains, key, t, i) && 1 <= i
    requires Structured(nodes0, chains0, curLevel0)
    ensures EntriesOf(nodes, chains[0]) == Remove(EntriesOf(nodes0, chains0[0]), key)
    ensures |chains[0]| == |chains0[0]| - 1
    ensures nodes0[t].level <= curLevel0
    ensures forall l :: curLevel0 < l <= MAX_LEVEL ==> chains[l] == []
  {
    var c := chains0[0];
    var r := Position(c, t);
    RankOfMember(nodes0, c, key, t);
    RankSplits(nodes0, c, key);
    RemoveAt(EntriesOf(nodes0, c), r, key);
    EntriesUnspliced(nodes0, nodes, c, r);
    assert t in chains0[nodes0[t].level];
  }

  /** A node unlinked at all its levels leaves every node on exactly the levels up to
      its own. */
  lemma UnlinkedNested<V>(nodes0: seq<Node<V>>, chains0: seq<seq<int>>,
                          nodes: seq<Node<V>>, chains: seq<seq<int>>, key: int, t: int, i: int)
    requires Unlinking(nodes0, chains0, nodes, chains, key, t, i) && i == nodes0[t].level + 1
    requires Nested(nodes0, chains0)
    ensures Nested(nodes, chains)
  {
    forall l | 0 <= l <= nodes0[t].level
      ensures forall x :: x in chains[l] <==> x in chains0[l] && x != t
    {
      UnsplicedMembers(nodes0, chains0[l], Position(chains0[l], t));
    }
  }

  /** A node unlinked only below its own level stays reachable at its level from the
      head but is gone from level 0, so the nesting of the levels is broken. */
  lemma UnlinkedPartly<V>(nodes0: seq<Node<V>>, chains0: seq<seq<int>>,
                          nodes: seq<Node<V>>, chains: seq<seq<int>>, key: int, t: int, i: int)
    requires Unlinking(nodes0, chains0, nodes, chains, key, t, i) && 1 <= i <= nodes0[t].level
    ensures t in chains[nodes0[t].level] && t !in chains[0]
    ensures !Nested(nodes, chains)
  {
    UnsplicedMembers(nodes0, chains0[0], Position(chains0[0], t));
    assert t in chains0[nodes0[t].level];
  }

  /** What the unlink loop of del leaves when it runs below a bound of at least
      curLevel: the entries without key, one node fewer at level 0, every chain still
      linked and the levels above curLevel still empty; the levels stay nested
      exactly when the loop reached the node's own level. */
  lemma UnlinkedAll<V>(nodes0: seq<Node<V>>, chains0: seq<seq<int>>, curLevel0: int,
                       nodes: seq<Node<V>>, chains: seq<seq<int>>, key: int, t: int, bound: int)
    requires Structured(nodes0, chains0, curLevel0) && Nested(nodes0, chains0)
    requires t in chains0[0] && curLevel0 <= bound
    requires Unlinking(nodes0, chains0, nodes, chains, key, t, Min(bound, nodes0[t].level + 1))
    ensures ChainsOk(nodes, chains) && nodes0[t].level <= curLevel0
    ensures forall l :: curLevel0 < l <= MAX_LEVEL ==> chains[l] == []
    ensures EntriesOf(nodes, chains[0]) == Remove(EntriesOf(nodes0, chains0[0]), key)
    ensures |chains[0]| == |chains0[0]| - 1
    ensures nodes0[t].level < bound ==> Nested(nodes, chains)
    ensures nodes0[t].level >= bound ==> t in chains[curLevel0] && t !in chains[0] && !Nested(nodes, chains)
  {
    assert t in chains0[1];
    var i := Min(bound, nodes0[t].level + 1);
    UnlinkedEntries(nodes0, chains0, curLevel0, nodes, chains, key, t, i);
    if nodes0[t].level < bound {
      UnlinkedNested(nodes0, chains0, nodes, chains, key, t, i);
    } else {
      UnlinkedPartly(nodes0, chains0, nodes, chains, key, t, i);
    }
  }

  /** Removing a key that a sorted chain does not hold leaves its entries as they are. */
  lemma RemoveMissing<V>(nodes: seq<Node<V>>, c: seq<int>, key: int)
    requires InArena(nodes, c) && KeysIncrease(nodes, c)
    requires key !in ToMap(EntriesOf(nodes, c))
    ensures Remove(EntriesOf(nodes, c), key) == EntriesOf(nodes, c)
  {
    RankSplits(nodes, c, key);
    LookupChain(nodes, c, key);
    RemoveAt(EntriesOf(nodes, c), Rank(nodes, c, key), key);
  }

  /** The entries of an unspliced chain: the entry at that position taken out. */
  lemma EntriesUnspliced<V>(nodes: seq<Node<V>>, nodes': seq<Node<V>>, c: seq<int>, r: int)
    requires InArena(nodes, c) && 0 <= r < |c| && |nodes| == |nodes'|
    requires forall m :: 0 <= m < |nodes| ==> nodes'[m].key == nodes[m].key && nodes'[m].value == nodes[m].value
    ensures InArena(nodes', Unspliced(c, r))
    ensures EntriesOf(nodes', Unspliced(c, r)) == EntriesOf(nodes, c)[..r] + EntriesOf(nodes, c)[r + 1..]
  {
  }

  /** The head's level-i link leads to the first node of the level-i chain, or is
      null when the chain is empty. */
  lemma FirstOfChain<V>(nodes: seq<Node<V>>, c: seq<int>, i: int)
    requires WellFormed(nodes) && 0 <= i <= MAX_LEVEL && ChainOk(nodes, c, i)
    ensures nodes[HEAD].forwards[i] == After(c, 0)
  {
    assert PredOf(c, 0) == HEAD;
  }

  /** In an arena of the head and one node, a chain holding that node starts with
      it, so the head links to it. */
  lemma SoleNode<V>(nodes: seq<Node<V>>, c: seq<int>, i: int)
    requires WellFormed(nodes) && 0 <= i <= MAX_LEVEL && ChainOk(nodes, c, i)
    requires |nodes| == 2 && 1 in c
    ensures c[0] == 1 && nodes[HEAD].forwards[i] == 1
  {
    FirstOfChain(nodes, c, i);
  }

  /** With the levels nested, a list with no node at level 0 has no node at any
      level, so curLevel is 0. */
  lemma EmptyEverywhere<V>(nodes: seq<Node<V>>, chains: seq<seq<int>>, curLevel: int)
    requires Structured(nodes, chains, curLevel) && Nested(nodes, chains) && chains[0] == []
    ensures curLevel == 0
    ensures forall l :: 0 <= l <= MAX_LEVEL ==> chains[l] == []
  {
    forall l | 0 <= l <= MAX_LEVEL
      ensures chains[l] == []
    {
      if chains[l] != [] {
        MemberBelow(nodes, chains, l, 0);
      }
    }
  }

  /** With the levels nested, every node of a level's chain is also on level 0. */
  lemma MemberBelow<V>(nodes: seq<Node<V>>, chains: seq<seq<int>>, l: int, j: int)
    requires ChainsOk(nodes, chains) && Nested(nodes, chains)
    requires 0 <= l <= MAX_LEVEL && 0 <= j < |chains[l]|
    ensures chains[l][j] in chains[0]
  {
    assert chains[l][j] in chains[l];
  }
}
