/**
 * DataStore.h: the index engine. The arena `all_stocks` is a sequence of
 * records and a Stock* into it is the record's position. insert_stock files a
 * record under its normalized name and sector and pushes its ranking handles.
 * Valid(h) says the indices are what insert_stock builds when it is given the
 * positions h in order.
 */
module DataStores {
  import opened Wrappers
  import opened Stocks
  import opened Ranking
  import opened HeapOrder
  import opened StoreKeys
  import opened StoreIndex
  import opened Sorting
  import opened QuickSorts
  import opened HashMaps
  import opened AvlShape
  import opened AvlTrees
  import opened MinHeaps
  import opened MaxHeaps
  import opened AdjacencyListGraphs
  import opened StoreQueries
  import opened Similarity
  import opened CsvParsing
  import opened Ints

  /** How many records a drain loop `while (!empty && count < n)` takes from a heap of `size`. */
  function Taken(n: int, size: nat): nat
  {
    if n <= 0 then 0 else Min(n, size)
  }

  /**
   * keys were drained from `all` best-first: they come from all, no later key
   * beats an earlier one, and nothing left behind beats any key taken.
   */
  ghost predicate DrainedFrom(max: bool, all: multiset<RankKey>, keys: seq<RankKey>)
  {
    multiset(keys) <= all &&
    (forall a, b :: 0 <= a < b < |keys| ==> !Beats(max, keys[b], keys[a])) &&
    (forall x, a :: x in all - multiset(keys) && 0 <= a < |keys| ==> !Beats(max, x, keys[a]))
  }

  /** The record positions a list of handles refers to, in order. */
  function Refs(keys: seq<RankKey>): (out: seq<nat>)
    ensures |out| == |keys| && forall j :: 0 <= j < |keys| ==> out[j] == keys[j].ref
  {
    if keys == [] then [] else Refs(keys[..|keys| - 1]) + [keys[|keys| - 1].ref]
  }

  /** Midway through a drain: keys taken best-first from all, rest still in the heap. */
  ghost predicate Draining(max: bool, all: multiset<RankKey>, keys: seq<RankKey>, rest: seq<RankKey>)
  {
    multiset(keys) + multiset(rest) == all &&
    (forall a, b :: 0 <= a < b < |keys| ==> !Beats(max, keys[b], keys[a])) &&
    (forall x, a :: x in rest && 0 <= a < |keys| ==> !Beats(max, x, keys[a]))
  }

  /** Taking the top k of the heap and popping it keeps the drain best-first. */
  lemma DrainStep(max: bool, all: multiset<RankKey>, keys: seq<RankKey>, before: seq<RankKey>,
                  after: seq<RankKey>, k: RankKey)
    requires Draining(max, all, keys, before)
    requires before != [] && k == before[0] && forall x :: x in before ==> !Beats(max, x, k)
    requires multiset(after) == multiset(before) - multiset{k}
    ensures Draining(max, all, keys + [k], after)
  {
    assert k in multiset(before);
    assert multiset(keys + [k]) + multiset(after) == all;
    var keys' := keys + [k];
    forall a, b | 0 <= a < b < |keys'|
      ensures !Beats(max, keys'[b], keys'[a])
    {
      if b == |keys| {
        assert keys'[a] == keys[a] && k in before;
      }
    }
    forall x | x in after
      ensures x in before
    {
      assert x in multiset(after);
    }
  }

  /** When the drain stops, what is left is exactly what was not taken. */
  lemma DrainDone(max: bool, all: multiset<RankKey>, keys: seq<RankKey>, rest: seq<RankKey>)
    requires Draining(max, all, keys, rest)
    ensures DrainedFrom(max, all, keys)
  {
    assert all - multiset(keys) == multiset(rest);
    forall x, a | x in all - multiset(keys) && 0 <= a < |keys|
      ensures !Beats(max, x, keys[a])
    {
      assert x in multiset(rest);
      assert x in rest;
    }
  }

  /** One turn of DrainMax: read the top, then pop it. */
  method TakeMax(heap: MaxHeap, ghost all: multiset<RankKey>, ghost keys: seq<RankKey>) returns (k: RankKey)
    requires heap.Valid() && heap.heap != [] && Draining(true, all, keys, heap.heap)
    modifies heap
    ensures heap.Valid() && |heap.heap| == |old(heap.heap)| - 1
    ensures Draining(true, all, keys + [k], heap.heap)
  {
    ghost var before := heap.heap;
    var top := heap.Top();
    k := top.value;
    heap.Pop();
    DrainStep(true, all, keys, before, heap.heap, k);
  }

  /** One turn of DrainMin: read the top, then pop it. */
  method TakeMin(heap: MinHeap, ghost all: multiset<RankKey>, ghost keys: seq<RankKey>) returns (k: RankKey)
    requires heap.Valid() && heap.heap != [] && Draining(false, all, keys, heap.heap)
    modifies heap
    ensures heap.Valid() && |heap.heap| == |old(heap.heap)| - 1
    ensures Draining(false, all, keys + [k], heap.heap)
  {
    ghost var before := heap.heap;
    var top := heap.Top();
    k := top.value;
    heap.Pop();
    DrainStep(false, all, keys, before, heap.heap, k);
  }

  /**
   * The loop of top_n_roe and recommend on a max-heap: pop the top while the
   * heap is not empty and fewer than n have been taken, keeping each record.
   */
  method DrainMax(heap: MaxHeap, n: int) returns (out: seq<nat>, ghost keys: seq<RankKey>)
    requires heap.Valid()
    modifies heap
    ensures heap.Valid() && |keys| == Taken(n, |old(heap.heap)|) && out == Refs(keys)
    ensures DrainedFrom(true, multiset(old(heap.heap)), keys)
  {
    ghost var all := multiset(heap.heap);
    out := [];
    keys := [];
    var count := 0;
    var empty := heap.Empty();
    while !empty && count < n
      invariant heap.Valid() && count == |keys| && out == Refs(keys)
      invariant empty <==> heap.heap == []
      invariant count <= n || count == 0
      invariant Draining(true, all, keys, heap.heap) && |all| == |keys| + |heap.heap|
      decreases |heap.heap|
    {
      var k := TakeMax(heap, all, keys);
      keys := keys + [k];
      out := out + [k.ref];
      count := count + 1;
      empty := heap.Empty();
    }
    DrainDone(true, all, keys, heap.heap);
  }

  /** lowest_n_pe's loop on a min-heap. */
  method DrainMin(heap: MinHeap, n: int) returns (out: seq<nat>, ghost keys: seq<RankKey>)
    requires heap.Valid()
    modifies heap
    ensures heap.Valid() && |keys| == Taken(n, |old(heap.heap)|) && out == Refs(keys)
    ensures DrainedFrom(false, multiset(old(heap.heap)), keys)
  {
    ghost var all := multiset(heap.heap);
    out := [];
    keys := [];
    var count := 0;
    var empty := heap.Empty();
    while !empty && count < n
      invariant heap.Valid() && count == |keys| && out == Refs(keys)
      invariant empty <==> heap.heap == []
      invariant count <= n || count == 0
      invariant Draining(false, all, keys, heap.heap) && |all| == |keys| + |heap.heap|
      decreases |heap.heap|
    {
      var k := TakeMin(heap, all, keys);
      keys := keys + [k];
      out := out + [k.ref];
      count := count + 1;
      empty := heap.Empty();
    }
    DrainDone(false, all, keys, heap.heap);
  }

  /* ---------------- one predicate per index ---------------- */

  /** What the name index holds for a key, stated on the records: by_name maps
    * each normalized name to the last record inserted under it. */
  lemma NameLookup(stocks: seq<Stock>, h: seq<nat>, key: string)
    requires InArena(h, |stocks|)
    ensures key in LastWins(NameKeys(stocks, h), h) <==>
      exists j :: 0 <= j < |h| && Key(stocks[h[j]].companyName) == key
    ensures key in LastWins(NameKeys(stocks, h), h) ==>
      exists j :: 0 <= j < |h| && h[j] == LastWins(NameKeys(stocks, h), h)[key] &&
        Key(stocks[h[j]].companyName) == key &&
        forall j' :: j < j' < |h| ==> Key(stocks[h[j']].companyName) != key
  {
    var ks := NameKeys(stocks, h);
    LastWinsMeaning(ks, h, key);
    if key in LastWins(ks, h) {
      var j :| 0 <= j < |ks| && ks[j] == key && LastWins(ks, h)[key] == h[j] &&
        forall j' :: j < j' < |ks| ==> ks[j'] != key;
      NameKeysAt(stocks, h, j);
      forall j' | j < j' < |h|
        ensures Key(stocks[h[j']].companyName) != key
      {
        NameKeysAt(stocks, h, j');
      }
    } else {
      forall j | 0 <= j < |h|
        ensures Key(stocks[h[j]].companyName) != key
      {
        NameKeysAt(stocks, h, j);
      }
    }
  }

  ghost predicate NamesIndexed(m: HashMap<string, nat>, stocks: seq<Stock>, h: seq<nat>)
    reads m, m.buckets
  {
    InArena(h, |stocks|) && m.Valid() && m.contents == LastWins(NameKeys(stocks, h), h)
  }

  /** sectors maps each normalized sector to its records in insertion order. */
  ghost predicate SectorsIndexed(m: HashMap<string, seq<nat>>, stocks: seq<Stock>, h: seq<nat>)
    reads m, m.buckets
  {
    InArena(h, |stocks|) && m.Valid() && m.contents == Grouped(SectorKeys(stocks, h), h)
  }

  /** by_pe and low_pe_heap hold the P/E handles, high_roe_heap the ROE handles. */
  ghost predicate HandlesIndexed(tree: AVLTree, low: MinHeap, high: MaxHeap, stocks: seq<Stock>, h: seq<nat>)
    reads tree, low, high
  {
    InArena(h, |stocks|) && tree.Valid() && low.Valid() && high.Valid() &&
    tree.root == PeTree(stocks, h) &&
    multiset(low.heap) == multiset(PeKeys(stocks, h)) &&
    multiset(high.heap) == multiset(RoeKeys(stocks, h))
  }

  /** One more insertion: the name now maps to i. */
  lemma NamesStep(stocks: seq<Stock>, h: seq<nat>, i: nat)
    requires InArena(h, |stocks|) && i < |stocks|
    ensures InArena(h + [i], |stocks|)
    ensures LastWins(NameKeys(stocks, h + [i]), h + [i]) ==
      LastWins(NameKeys(stocks, h), h)[Key(stocks[i].companyName) := i]
  {
    var h' := h + [i];
    assert h'[..|h|] == h;
    var ks := NameKeys(stocks, h');
    assert ks[..|h|] == NameKeys(stocks, h);
  }

  /** One more insertion: i is appended to its sector's list, which is created if missing. */
  lemma SectorsStep(stocks: seq<Stock>, h: seq<nat>, i: nat)
    requires InArena(h, |stocks|) && i < |stocks|
    ensures InArena(h + [i], |stocks|)
    ensures var g := Grouped(SectorKeys(stocks, h), h);
      var k := Key(stocks[i].sector);
      Grouped(SectorKeys(stocks, h + [i]), h + [i]) == if k in g then g[k := g[k] + [i]] else g[k := [i]]
  {
    var h' := h + [i];
    assert h'[..|h|] == h;
    var ks := SectorKeys(stocks, h');
    assert ks[..|h|] == SectorKeys(stocks, h);
  }

  /** One more insertion: one more P/E handle in the tree, one more of each handle in the heaps. */
  lemma HandlesStep(stocks: seq<Stock>, h: seq<nat>, i: nat)
    requires InArena(h, |stocks|) && i < |stocks|
    ensures InArena(h + [i], |stocks|)
    ensures PeTree(stocks, h + [i]) == InsertNode(PeTree(stocks, h), PeKey(stocks, i))
    ensures PeKeys(stocks, h + [i]) == PeKeys(stocks, h) + [PeKey(stocks, i)]
    ensures RoeKeys(stocks, h + [i]) == RoeKeys(stocks, h) + [RoeKey(stocks, i)]
  {
    var h' := h + [i];
    assert h'[..|h|] == h;
  }

  /** A second write to a key replaces the first. */
  lemma Overwrite<K, V>(m: map<K, V>, k: K, a: V, b: V)
    ensures m[k := a][k := b] == m[k := b]
  {
  }

  /** `sectors[key].push_back(s)` on a sector that has a list. */
  method AppendToSector(m: HashMap<string, seq<nat>>, key: string, i: nat)
    requires m.Valid() && key in m.contents
    modifies m, m.buckets
    ensures m.Valid() && m.buckets == old(m.buckets)
    ensures m.contents == old(m.contents)[key := old(m.contents)[key] + [i]]
  {
    var members := m.Get(key);
    m.Assign(key, members + [i]);
  }

  /** `sectors.insert(key, new_vec)` then `sectors[key].push_back(s)` on a new sector. */
  method StartSector(m: HashMap<string, seq<nat>>, key: string, i: nat)
    requires m.Valid() && key !in m.contents
    modifies m, m.buckets
    ensures m.Valid() && (m.buckets == old(m.buckets) || fresh(m.buckets))
    ensures m.contents == old(m.contents)[key := [i]]
  {
    ghost var before := m.contents;
    m.Insert(key, []);
    m.Assign(key, [i]);
    Overwrite(before, key, [], [i]);
  }

  /** insert_stock's name step: by_name[normalize_key(name)] = s. */
  method InsertName(m: HashMap<string, nat>, stocks: seq<Stock>, ghost h: seq<nat>, i: nat)
    requires NamesIndexed(m, stocks, h) && i < |stocks|
    modifies m, m.buckets
    ensures NamesIndexed(m, stocks, h + [i])
    ensures m.buckets == old(m.buckets) || fresh(m.buckets)
  {
    NamesStep(stocks, h, i);
    var key := NormalizeKey(stocks[i].companyName);
    m.Insert(key, i);
  }

  /** insert_stock's sector step: sectors[normalize_key(sector)].push_back(s), creating the list first. */
  method InsertSector(m: HashMap<string, seq<nat>>, stocks: seq<Stock>, ghost h: seq<nat>, i: nat)
    requires SectorsIndexed(m, stocks, h) && i < |stocks|
    modifies m, m.buckets
    ensures SectorsIndexed(m, stocks, h + [i])
    ensures m.buckets == old(m.buckets) || fresh(m.buckets)
  {
    SectorsStep(stocks, h, i);
    var key := NormalizeKey(stocks[i].sector);
    var has := m.Contains(key);
    if has {
      AppendToSector(m, key, i);
    } else {
      StartSector(m, key, i);
    }
  }

  /** insert_stock's ranking step: the P/E handle into by_pe and low_pe_heap, the ROE handle into high_roe_heap. */
  method InsertHandles(tree: AVLTree, low: MinHeap, high: MaxHeap, stocks: seq<Stock>, ghost h: seq<nat>, i: nat)
    requires HandlesIndexed(tree, low, high, stocks, h) && i < |stocks|
    modifies tree, low, high
    ensures HandlesIndexed(tree, low, high, stocks, h + [i])
  {
    HandlesStep(stocks, h, i);
    var peKey := PeKey(stocks, i);
    tree.Insert(peKey);
    low.Push(peKey);
    high.Push(RoeKey(stocks, i));
  }

  /** The name stage of insert_stock: by_name takes record i, the other indices keep their state. */
  method NameStage(names: HashMap<string, nat>, sectors: HashMap<string, seq<nat>>,
                   tree: AVLTree, low: MinHeap, high: MaxHeap, stocks: seq<Stock>, ghost h: seq<nat>, i: nat)
    requires NamesIndexed(names, stocks, h) && SectorsIndexed(sectors, stocks, h)
    requires HandlesIndexed(tree, low, high, stocks, h) && i < |stocks|
    modifies names, names.buckets
    ensures NamesIndexed(names, stocks, h + [i]) && SectorsIndexed(sectors, stocks, h)
    ensures HandlesIndexed(tree, low, high, stocks, h)
    ensures names.buckets == old(names.buckets) || fresh(names.buckets)
    ensures sectors.buckets == old(sectors.buckets)
  {
    InsertName(names, stocks, h, i);
  }

  /** The sector stage of insert_stock: sectors takes record i, the other indices keep their state. */
  method SectorStage(names: HashMap<string, nat>, sectors: HashMap<string, seq<nat>>,
                     tree: AVLTree, low: MinHeap, high: MaxHeap, stocks: seq<Stock>, ghost h: seq<nat>, i: nat)
    requires NamesIndexed(names, stocks, h + [i]) && SectorsIndexed(sectors, stocks, h)
    requires HandlesIndexed(tree, low, high, stocks, h) && i < |stocks|
    modifies sectors, sectors.buckets
    ensures NamesIndexed(names, stocks, h + [i]) && SectorsIndexed(sectors, stocks, h + [i])
    ensures HandlesIndexed(tree, low, high, stocks, h)
    ensures sectors.buckets == old(sectors.buckets) || fresh(sectors.buckets)
    ensures names.buckets == old(names.buckets)
  {
    InsertSector(sectors, stocks, h, i);
  }

  /** The ranking stage of insert_stock: the tree and heaps take record i, the maps keep their state. */
  method HandleStage(names: HashMap<string, nat>, sectors: HashMap<string, seq<nat>>,
                     tree: AVLTree, low: MinHeap, high: MaxHeap, stocks: seq<Stock>, ghost h: seq<nat>, i: nat)
    requires NamesIndexed(names, stocks, h + [i]) && SectorsIndexed(sectors, stocks, h + [i])
    requires HandlesIndexed(tree, low, high, stocks, h) && i < |stocks|
    modifies tree, low, high
    ensures NamesIndexed(names, stocks, h + [i]) && SectorsIndexed(sectors, stocks, h + [i])
    ensures HandlesIndexed(tree, low, high, stocks, h + [i])
    ensures names.buckets == old(names.buckets) && sectors.buckets == old(sectors.buckets)
  {
    InsertHandles(tree, low, high, stocks, h, i);
  }

  /** All five indices are what inserting the records h of the arena in order builds. */
  ghost predicate Indexed(names: HashMap<string, nat>, sectors: HashMap<string, seq<nat>>,
                          tree: AVLTree, low: MinHeap, high: MaxHeap, stocks: seq<Stock>, h: seq<nat>)
    reads names, names.buckets, sectors, sectors.buckets, tree, low, high
  {
    NamesIndexed(names, stocks, h) && SectorsIndexed(sectors, stocks, h) &&
    HandlesIndexed(tree, low, high, stocks, h)
  }

  /** insert_stock on the five indices: each of them takes record i. */
  method InsertInto(names: HashMap<string, nat>, sectors: HashMap<string, seq<nat>>,
                    tree: AVLTree, low: MinHeap, high: MaxHeap, stocks: seq<Stock>, ghost h: seq<nat>, i: nat)
    requires Indexed(names, sectors, tree, low, high, stocks, h) && i < |stocks|
    modifies names, names.buckets, sectors, sectors.buckets, tree, low, high
    ensures Indexed(names, sectors, tree, low, high, stocks, h + [i])
    ensures names.buckets == old(names.buckets) || fresh(names.buckets)
    ensures sectors.buckets == old(sectors.buckets) || fresh(sectors.buckets)
  {
    NameStage(names, sectors, tree, low, high, stocks, h, i);
    SectorStage(names, sectors, tree, low, high, stocks, h, i);
    HandleStage(names, sectors, tree, low, high, stocks, h, i);
  }

  /** The empty indices of a new or cleared store, each a new object. */
  method EmptyIndices(keyBytes: string -> seq<Byte>)
      returns (names: HashMap<string, nat>, sectors: HashMap<string, seq<nat>>,
               tree: AVLTree, low: MinHeap, high: MaxHeap)
    ensures fresh(names) && fresh(names.buckets) && fresh(sectors) && fresh(sectors.buckets)
    ensures fresh(tree) && fresh(low) && fresh(high)
    ensures Indexed(names, sectors, tree, low, high, [], [])
  {
    tree := new AVLTree();
    low := new MinHeap();
    high := new MaxHeap();
    names := new HashMap(DEFAULT_CAPACITY, keyBytes, 0);
    sectors := new HashMap(DEFAULT_CAPACITY, keyBytes, []);
  }

  /** Indices holding no record index any arena the same way. */
  lemma EmptyIndexedAnyArena(names: HashMap<string, nat>, sectors: HashMap<string, seq<nat>>,
                             tree: AVLTree, low: MinHeap, high: MaxHeap, stocks: seq<Stock>)
    requires Indexed(names, sectors, tree, low, high, [], [])
    ensures Indexed(names, sectors, tree, low, high, stocks, [])
  {
  }

  /** load_csv's loop: insert_stock on every record of the arena, in arena order. */
  method IndexAll(names: HashMap<string, nat>, sectors: HashMap<string, seq<nat>>,
                  tree: AVLTree, low: MinHeap, high: MaxHeap, stocks: seq<Stock>)
    requires Indexed(names, sectors, tree, low, high, stocks, [])
    modifies names, names.buckets, sectors, sectors.buckets, tree, low, high
    ensures Indexed(names, sectors, tree, low, high, stocks, Range(|stocks|))
  {
    var i := 0;
    while i < |stocks|
      invariant 0 <= i <= |stocks|
      invariant Indexed(names, sectors, tree, low, high, stocks, Range(i))
      invariant names.buckets == old(names.buckets) || fresh(names.buckets)
      invariant sectors.buckets == old(sectors.buckets) || fresh(sectors.buckets)
    {
      InsertInto(names, sectors, tree, low, high, stocks, Range(i), i);
      i := i + 1;
    }
  }

  /**
   * Once every record is inserted in arena order, the sectors index has a
   * list for a key iff some record's sector normalizes to it, and that list
   * is what filter_by_sector returns.
   */
  lemma SectorIndexAgrees(m: HashMap<string, seq<nat>>, stocks: seq<Stock>, key: string)
    requires SectorsIndexed(m, stocks, Range(|stocks|))
    ensures key in m.contents <==> SectorRecords(stocks, key) != []
    ensures key in m.contents ==> m.contents[key] == SectorRecords(stocks, key)
  {
    GroupedMembers(SectorKeys(stocks, Range(|stocks|)), Range(|stocks|), key);
  }

  /** collect_pe_range's loop: the records whose P/E lies in [minPe, maxPe] appended in arena order. */
  method AppendPeRange(stocks: seq<Stock>, minPe: real, maxPe: real, prior: seq<nat>) returns (out: seq<nat>)
    requires InArena(prior, |stocks|)
    ensures out == prior + PeRange(stocks, minPe, maxPe, |stocks|) && InArena(out, |stocks|)
  {
    out := prior;
    var i := 0;
    while i < |stocks|
      invariant 0 <= i <= |stocks|
      invariant out == prior + PeRange(stocks, minPe, maxPe, i)
    {
      var v := stocks[i].pe;
      if v >= minPe && v <= maxPe {
        out := out + [i];
      }
      i := i + 1;
    }
    ghost var found := PeRange(stocks, minPe, maxPe, |stocks|);
    forall j | 0 <= j < |out|
      ensures out[j] < |stocks|
    {
      if j >= |prior| {
        assert out[j] == found[j - |prior|];
      }
    }
  }

  /** similar's last loop: the records of the first k pairs (all of them when fewer). */
  method TakeFirst(sorted: seq<(nat, real)>, k: int) returns (out: seq<nat>)
    ensures |out| == Taken(k, |sorted|)
    ensures forall j :: 0 <= j < |out| ==> out[j] == sorted[j].0
  {
    out := [];
    var i := 0;
    while i < |sorted| && i < k
      invariant 0 <= i <= Taken(k, |sorted|) && |out| == i
      invariant forall j :: 0 <= j < i ==> out[j] == sorted[j].0
    {
      out := out + [sorted[i].0];
      i := i + 1;
    }
  }

  class DataStore {
    var sectors: HashMap<string, seq<nat>>
    var byName: HashMap<string, nat>
    var byPe: AVLTree
    var lowPeHeap: MinHeap
    var highRoeHeap: MaxHeap
    var similarityGraph: AdjacencyListGraph<int>
    var allStocks: seq<Stock>
    /** The key bytes both hash maps hash (see HashMaps). */
    const keyBytes: string -> seq<Byte>
    /**
     * Each index is what inserting the records h in order builds: names map
     * to their last record, sectors list their records in insertion order,
     * the P/E tree and both heaps hold one handle per insertion.
     */
    ghost predicate Valid(h: seq<nat>)
      reads this`byName, this`sectors, this`byPe, this`lowPeHeap, this`highRoeHeap, this`allStocks
      reads byName, byName.buckets, sectors, sectors.buckets, byPe, lowPeHeap, highRoeHeap
    {
      Indexed(byName, sectors, byPe, lowPeHeap, highRoeHeap, allStocks, h)
    }

    /** DataStore(): every index empty, the arena empty, an undirected graph with no vertex. */
    constructor (keyBytes: string -> seq<Byte>)
      ensures Valid([]) && allStocks == []
      ensures this.keyBytes == keyBytes && similarityGraph.Valid() && similarityGraph.numVertices == 0
    {
      this.keyBytes := keyBytes;
      var names, sectorLists, tree, low, high := EmptyIndices(keyBytes);
      sectors, byName, byPe, lowPeHeap, highRoeHeap := sectorLists, names, tree, low, high;
      similarityGraph := new AdjacencyListGraph(false, 0, 0);
      allStocks := [];
    }

    /** clear: fresh empty indices and graph, and an empty arena. */
    method Clear()
      modifies this
      ensures Valid([]) && allStocks == []
      ensures fresh(byName) && fresh(byName.buckets) && fresh(sectors) && fresh(sectors.buckets)
      ensures fresh(byPe) && fresh(lowPeHeap) && fresh(highRoeHeap)
      ensures fresh(similarityGraph) && similarityGraph.Valid() && similarityGraph.numVertices == 0
      ensures similarityGraph.adjacencyList == [] && !similarityGraph.isDirected
    {
      ResetIndices();
      similarityGraph := new AdjacencyListGraph(false, 0, 0);
    }

    /** The index half of clear: fresh empty indices over an empty arena. */
    method ResetIndices()
      modifies this`byName, this`sectors, this`byPe, this`lowPeHeap, this`highRoeHeap, this`allStocks
      ensures Valid([]) && allStocks == []
      ensures fresh(byName) && fresh(byName.buckets) && fresh(sectors) && fresh(sectors.buckets)
      ensures fresh(byPe) && fresh(lowPeHeap) && fresh(highRoeHeap)
    {
      byName, sectors, byPe, lowPeHeap, highRoeHeap := EmptyIndices(keyBytes);
      allStocks := [];
    }

    /**
     * insert_stock(&all_stocks[i]): the name maps to i (last write wins), i is
     * appended to its sector's list (created empty first), and its P/E handle
     * goes into the tree and the min-heap, its ROE handle into the max-heap.
     */
    method InsertStock(i: nat, ghost h: seq<nat>)
      requires Valid(h) && i < |allStocks|
      modifies byName, byName.buckets, sectors, sectors.buckets, byPe, lowPeHeap, highRoeHeap
      ensures Valid(h + [i])
      ensures byName.buckets == old(byName.buckets) || fresh(byName.buckets)
      ensures sectors.buckets == old(sectors.buckets) || fresh(sectors.buckets)
    {
      InsertInto(byName, sectors, byPe, lowPeHeap, highRoeHeap, allStocks, h, i);
    }

    /**
     * load_csv: the store is cleared; when the file cannot be opened it stays
     * empty, otherwise the arena is what the parser reads from its lines,
     * every record is inserted in arena order and the similarity graph is
     * built over the arena.
     */
    method LoadCsv(file: Option<seq<string>>, read: string -> Option<real>, noise: (nat, int) -> Factors)
        returns (ok: bool)
      modifies this
      ensures ok <==> file.Some?
      ensures !ok ==> allStocks == [] && Valid([])
      ensures ok ==> allStocks == DataRecords(file.value, 0, false, read, noise) && Valid(Range(|allStocks|))
      ensures SimilarityGraphOf(similarityGraph, allStocks)
    {
      Clear();
      if file.None? {
        return false;
      }
      var stocks, header := ParseLines(file.value, read, noise);
      allStocks := stocks;
      IndexArena();
      ok := true;
    }

    /**
     * The rest of load_csv once the arena is filled: every record inserted in
     * arena order and the similarity graph built over the arena (the two
     * steps touch disjoint state, so their order is immaterial).
     */
    method IndexArena()
      requires Indexed(byName, sectors, byPe, lowPeHeap, highRoeHeap, [], [])
      modifies this`similarityGraph, byName, byName.buckets, sectors, sectors.buckets, byPe, lowPeHeap, highRoeHeap
      ensures Valid(Range(|allStocks|)) && SimilarityGraphOf(similarityGraph, allStocks)
    {
      IndexRecords();
      similarityGraph := BuildSimilarityGraph(allStocks);
    }

    /** The index half of build_indices: every arena record inserted in arena order. */
    method IndexRecords()
      requires Indexed(byName, sectors, byPe, lowPeHeap, highRoeHeap, [], [])
      modifies byName, byName.buckets, sectors, sectors.buckets, byPe, lowPeHeap, highRoeHeap
      ensures Valid(Range(|allStocks|))
    {
      EmptyIndexedAnyArena(byName, sectors, byPe, lowPeHeap, highRoeHeap, allStocks);
      IndexAll(byName, sectors, byPe, lowPeHeap, highRoeHeap, allStocks);
    }

    /**
     * search_by_name: a record is found iff some inserted record's name
     * normalizes like the query, and it is the last such record inserted.
     */
    method SearchByName(name: string, ghost h: seq<nat>) returns (r: Option<nat>)
      requires Valid(h)
      ensures r.Some? <==> exists j :: 0 <= j < |h| && Key(allStocks[h[j]].companyName) == Key(name)
      ensures r.Some? ==>
        exists j :: 0 <= j < |h| && h[j] == r.value && Key(allStocks[h[j]].companyName) == Key(name) &&
          forall j' :: j < j' < |h| ==> Key(allStocks[h[j']].companyName) != Key(name)
    {
      var key := NormalizeKey(name);
      NameLookup(allStocks, h, key);
      var has := byName.Contains(key);
      if has {
        var v := byName.Get(key);
        r := Some(v);
      } else {
        r := None;
      }
    }

    /** filter_by_sector: a scan of the arena for records whose sector normalizes like the query. */
    method FilterBySector(sector: string) returns (result: seq<nat>)
      ensures result == SectorRecords(allStocks, Key(sector))
    {
      var key := NormalizeKey(sector);
      ghost var ks := ArenaSectors(allStocks);
      result := [];
      var i := 0;
      while i < |allStocks|
        invariant 0 <= i <= |allStocks|
        invariant result == Members(ks[..i], Range(i), key)
      {
        var stockKey := NormalizeKey(allStocks[i].sector);
        ArenaSectorsAt(allStocks, i);
        MembersStep(ks, key, i);
        if stockKey == key {
          result := result + [i];
        }
        i := i + 1;
      }
      assert ks[..i] == ks;
    }

    /** sector_stats: one scan of the arena accumulating the sums, the price extremes and the count. */
    method SectorStatsOf(sector: string) returns (st: SectorStats)
      ensures st == SectorSummary(allStocks, Key(sector))
    {
      var key := NormalizeKey(sector);
      var sumPe, sumRoe, sumDiv := 0.0, 0.0, 0.0;
      var minPrice, maxPrice := PriceCeiling, -PriceCeiling;
      var count := 0;
      ghost var ks := ArenaSectors(allStocks);
      var i := 0;
      while i < |allStocks|
        invariant 0 <= i <= |allStocks|
        invariant Running(sumPe, sumRoe, sumDiv, minPrice, maxPrice, count) == Scanned(allStocks, ks, key, i)
      {
        ArenaSectorsAt(allStocks, i);
        var stockKey := NormalizeKey(allStocks[i].sector);
        if stockKey == key {
          var s := allStocks[i];
          sumPe := sumPe + s.pe;
          sumRoe := sumRoe + s.roe;
          sumDiv := sumDiv + s.dividendYield;
          if s.price < minPrice {
            minPrice := s.price;
          }
          if s.price > maxPrice {
            maxPrice := s.price;
          }
          count := count + 1;
        }
        i := i + 1;
      }
      ScanGivesSummary(allStocks, key);
      var avgPe, avgRoe, avgDiv := 0.0, 0.0, 0.0;
      if count > 0 {
        avgPe := sumPe / count as real;
        avgRoe := sumRoe / count as real;
        avgDiv := sumDiv / count as real;
      }
      st := SectorStats(avgPe, avgRoe, avgDiv, minPrice, maxPrice, count);
    }

    /** compare_vs_sector: "No stock" for a null record, otherwise the three verdicts against its sector. */
    method CompareVsSector(s: Option<nat>) returns (res: string)
      requires s.Some? ==> s.value < |allStocks|
      ensures res == Comparison(allStocks, s)
    {
      if s.None? {
        return "No stock";
      }
      var stock := allStocks[s.value];
      var st := SectorStatsOf(stock.sector);
      if st.count == 0 {
        return "Sector data unavailable";
      }
      res := "P/E: " + Side(stock.pe < st.avgPe);
      res := res + "; ROE: " + Side(stock.roe < st.avgRoe);
      res := res + "; Dividend Yield: " + Side(stock.dividendYield < st.avgDivYield);
    }

    /** sort_by_metric: quick_sort over the whole vector by the chosen feature_value. */
    method SortByMetric(a: array<nat>, metricId: int)
      modifies a
      ensures multiset(a[..]) == multiset(old(a[..]))
      ensures forall x, y :: 0 <= x < y < a.Length ==> Metric(allStocks, metricId, a[x]) <= Metric(allStocks, metricId, a[y])
    {
      var stocks := allStocks;
      QuickSort(a, 0, a.Length - 1, x => Metric(stocks, metricId, x));
      assert a[..] == a[..][0..a.Length];
      assert old(a[..]) == old(a[..])[0..a.Length];
    }

    /**
     * collect_pe_range: the records whose P/E lies in [minPe, maxPe] are
     * appended to out in arena order; when out then holds more than one
     * record it is sorted by P/E.
     */
    method CollectPeRange(minPe: real, maxPe: real, prior: seq<nat>) returns (out: seq<nat>)
      requires InArena(prior, |allStocks|)
      ensures multiset(out) == multiset(prior + PeRange(allStocks, minPe, maxPe, |allStocks|))
      ensures |out| <= 1 ==> out == prior + PeRange(allStocks, minPe, maxPe, |allStocks|)
      ensures InArena(out, |allStocks|)
      ensures |out| > 1 ==> forall x, y :: 0 <= x < y < |out| ==> allStocks[out[x]].pe <= allStocks[out[y]].pe
    {
      out := AppendPeRange(allStocks, minPe, maxPe, prior);
      if |out| > 1 {
        out := SortedCopyByPe(out);
      }
    }

    /** collect_pe_range's final step: the collected records sorted by P/E with sort_by_metric. */
    method SortedCopyByPe(collected: seq<nat>) returns (out: seq<nat>)
      requires InArena(collected, |allStocks|)
      ensures |out| == |collected| && multiset(out) == multiset(collected) && InArena(out, |allStocks|)
      ensures forall x, y :: 0 <= x < y < |out| ==> allStocks[out[x]].pe <= allStocks[out[y]].pe
    {
      var a := new nat[|collected|](j requires 0 <= j < |collected| => collected[j]);
      assert a[..] == collected;
      SortByMetric(a, 1);
      out := a[..];
      SortedByPe(allStocks, collected, out);
    }

    /**
     * top_n_roe: a copy of the ROE max-heap drained best-first: the first
     * min(n, inserted) records by ROE (ties broken by company name), each an
     * inserted record.
     */
    method TopNRoe(n: int, ghost h: seq<nat>) returns (out: seq<nat>, ghost keys: seq<RankKey>)
      requires Valid(h)
      ensures |out| == Taken(n, |h|) && out == Refs(keys)
      ensures DrainedFrom(true, multiset(RoeKeys(allStocks, h)), keys)
      ensures forall j :: 0 <= j < |out| ==> out[j] in h && keys[j] == RoeKey(allStocks, out[j])
    {
      var copy := new MaxHeap.Copy(highRoeHeap);
      assert |copy.heap| == |multiset(RoeKeys(allStocks, h))| == |h|;
      out, keys := DrainMax(copy, n);
      forall j | 0 <= j < |out|
        ensures out[j] in h && keys[j] == RoeKey(allStocks, out[j])
      {
        assert keys[j] in multiset(keys);
        RoeKeysAreHandles(allStocks, h, keys[j]);
      }
    }

    /** lowest_n_pe: a copy of the P/E min-heap drained lowest-first. */
    method LowestNPe(n: int, ghost h: seq<nat>) returns (out: seq<nat>, ghost keys: seq<RankKey>)
      requires Valid(h)
      ensures |out| == Taken(n, |h|) && out == Refs(keys)
      ensures DrainedFrom(false, multiset(PeKeys(allStocks, h)), keys)
      ensures forall j :: 0 <= j < |out| ==> out[j] in h && keys[j] == PeKey(allStocks, out[j])
    {
      var copy := new MinHeap.Copy(lowPeHeap);
      assert |copy.heap| == |multiset(PeKeys(allStocks, h))| == |h|;
      out, keys := DrainMin(copy, n);
      forall j | 0 <= j < |out|
        ensures out[j] in h && keys[j] == PeKey(allStocks, out[j])
      {
        assert keys[j] in multiset(keys);
        PeKeysAreHandles(allStocks, h, keys[j]);
      }
    }

    /**
     * recommend: every record's score under the strategy's weights goes
     * into a new max-heap, which is drained best-first for topN records.
     */
    method Recommend(strategy: int, topN: int) returns (out: seq<nat>, ghost keys: seq<RankKey>)
      ensures |out| == Taken(topN, |allStocks|) && out == Refs(keys)
      ensures DrainedFrom(true, multiset(RecKeys(allStocks, strategy, |allStocks|)), keys)
      ensures forall j :: 0 <= j < |out| ==> out[j] < |allStocks| && keys[j] == RecKey(allStocks, strategy, out[j])
    {
      var heap := new MaxHeap();
      var i := 0;
      while i < |allStocks|
        invariant 0 <= i <= |allStocks| && heap.Valid()
        invariant multiset(heap.heap) == multiset(RecKeys(allStocks, strategy, i))
      {
        heap.Push(RecKey(allStocks, strategy, i));
        i := i + 1;
      }
      assert |heap.heap| == |multiset(RecKeys(allStocks, strategy, i))| == |allStocks|;
      out, keys := DrainMax(heap, topN);
      forall j | 0 <= j < |out|
        ensures out[j] < |allStocks| && keys[j] == RecKey(allStocks, strategy, out[j])
      {
        assert keys[j] in multiset(keys);
        RecKeysAreHandles(allStocks, strategy, |allStocks|, keys[j]);
      }
    }

    /**
     * similar: the other records, ordered by distance from record index by
     * the exchange sort, and the first k of them; nothing for an index
     * outside the arena. The records returned are nearest first, and no
     * record left out is nearer than any returned.
     */
    method Similar(index: int, k: int) returns (out: seq<nat>)
      ensures !(0 <= index < |allStocks|) ==> out == []
      ensures 0 <= index < |allStocks| ==> |out| == Taken(k, |allStocks| - 1)
      ensures forall j :: 0 <= j < |out| ==> out[j] < |allStocks| && out[j] != index
      ensures 0 <= index < |allStocks| ==> forall a, b :: 0 <= a < b < |out| ==>
        DistanceSq(allStocks[index], allStocks[out[a]]) <= DistanceSq(allStocks[index], allStocks[out[b]])
      ensures 0 <= index < |allStocks| ==> forall x, j :: 0 <= x < |allStocks| && x != index && x !in out && 0 <= j < |out| ==>
        DistanceSq(allStocks[index], allStocks[out[j]]) <= DistanceSq(allStocks[index], allStocks[x])
    {
      out := [];
      if index < 0 || index >= |allStocks| {
        return;
      }
      var stocks := allStocks;
      var pairs := DistancePairs(stocks, index);
      var sorted := ExchangeSort(pairs, Distance);
      out := TakeFirst(sorted, k);
      NearestFirst(stocks, index, DistancesFrom(stocks, index, |stocks|), sorted, out);
    }
  }
}
