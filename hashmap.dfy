/**
 * HashMap.h: separate chaining. `buckets` holds one chain per slot, head
 * first; a key lives in the chain of slot hash_function(key). New keys are
 * prepended to their chain, and the table doubles its capacity before an
 * insert whenever size >= 0.75 * capacity.
 *
 * The ghost field `contents` is the key-to-value map the chains represent.
 * hash_function folds the bytes of the key's object representation; those
 * bytes are given by the constructor parameter `keyBytes`.
 */
module HashMaps {

  type Byte = b: int | 0 <= b < 256

  const DEFAULT_CAPACITY := 16

  /** hash_function's loop: Horner's rule base 31, reduced after every byte. */
  function HashFold(bytes: seq<Byte>, cap: int): (h: int)
    requires cap > 0
    ensures 0 <= h < cap
  {
    if |bytes| == 0 then 0
    else (HashFold(bytes[..|bytes| - 1], cap) * 31 + bytes[|bytes| - 1]) % cap
  }

  /** The unreduced polynomial the bytes denote in base 31. */
  function Poly(bytes: seq<Byte>): nat
  {
    if |bytes| == 0 then 0 else Poly(bytes[..|bytes| - 1]) * 31 + bytes[|bytes| - 1]
  }

  lemma MulAtLeast(x: int, c: int)
    requires x >= 1 && c > 0
    ensures x * c >= c
  {
    assert x * c == (x - 1) * c + c;
  }

  /** Euclidean remainders are unique. */
  lemma ModUnique(a: int, c: int, k: int, r: int)
    requires c > 0 && 0 <= r < c && a == k * c + r
    ensures a % c == r
  {
    var q := a / c;
    var s := a % c;
    assert (k - q) * c == s - r;
    if k - q >= 1 {
      MulAtLeast(k - q, c);
    } else if q - k >= 1 {
      MulAtLeast(q - k, c);
    }
  }

  /** One Horner step commutes with the reduction. */
  lemma ModHornerStep(p: int, cap: int, x: int)
    requires cap > 0 && p >= 0 && x >= 0
    ensures ((p % cap) * 31 + x) % cap == (p * 31 + x) % cap
  {
    var q := p / cap;
    var t := (p % cap) * 31 + x;
    assert p == q * cap + p % cap;
    assert p * 31 + x == (q * 31) * cap + t;
    var u := t / cap;
    assert t == u * cap + t % cap;
    assert p * 31 + x == (q * 31 + u) * cap + t % cap;
    ModUnique(p * 31 + x, cap, q * 31 + u, t % cap);
  }

  /** Reducing after every step gives the polynomial reduced once. */
  lemma {:induction false} HashFoldIsPolyMod(bytes: seq<Byte>, cap: int)
    requires cap > 0
    ensures HashFold(bytes, cap) == Poly(bytes) % cap
  {
    if |bytes| > 0 {
      var init := bytes[..|bytes| - 1];
      HashFoldIsPolyMod(init, cap);
      ModHornerStep(Poly(init), cap, bytes[|bytes| - 1]);
    }
  }

  /** The slot of key k in a table of `cap` chains. */
  function SlotOf<K>(keyBytes: K -> seq<Byte>, cap: int, k: K): int
    requires cap > 0
  {
    HashFold(keyBytes(k), cap)
  }

  /** Some node of the chain carries key k. */
  ghost predicate KeyIn<K, V>(chain: seq<(K, V)>, k: K)
  {
    exists j :: 0 <= j < |chain| && chain[j].0 == k
  }

  /** Every node sits in the chain of its key's slot and carries that key's value. */
  ghost predicate NodesOk<K, V>(chains: seq<seq<(K, V)>>, keyBytes: K -> seq<Byte>, m: map<K, V>)
    requires |chains| > 0
  {
    forall b, j :: 0 <= b < |chains| && 0 <= j < |chains[b]| ==>
      SlotOf(keyBytes, |chains|, chains[b][j].0) == b && chains[b][j].0 in m &&
      m[chains[b][j].0] == chains[b][j].1
  }

  /** No key occurs twice in a chain. */
  ghost predicate NoDup<K, V>(chains: seq<seq<(K, V)>>)
  {
    forall b, i, j :: 0 <= b < |chains| && 0 <= i < j < |chains[b]| ==> chains[b][i].0 != chains[b][j].0
  }

  /** Every key of the map has a node in its slot's chain. */
  ghost predicate Complete<K, V>(chains: seq<seq<(K, V)>>, keyBytes: K -> seq<Byte>, m: map<K, V>)
    requires |chains| > 0
  {
    forall k :: k in m ==> KeyIn(chains[SlotOf(keyBytes, |chains|, k)], k)
  }

  /** The chains represent the map m: the hash-chain invariant of HashMap.h. */
  ghost predicate ChainsOk<K, V>(chains: seq<seq<(K, V)>>, keyBytes: K -> seq<Byte>, m: map<K, V>)
  {
    |chains| > 0 && NodesOk(chains, keyBytes, m) && NoDup(chains) && Complete(chains, keyBytes, m)
  }

  lemma EmptyChainsOk<K, V>(chains: seq<seq<(K, V)>>, keyBytes: K -> seq<Byte>)
    requires |chains| > 0 && forall b :: 0 <= b < |chains| ==> chains[b] == []
    ensures ChainsOk(chains, keyBytes, map[])
  {
  }

  /** A chain walk that reaches the end without meeting k proves k absent. */
  lemma MissingFromChain<K, V>(chains: seq<seq<(K, V)>>, keyBytes: K -> seq<Byte>, m: map<K, V>, k: K)
    requires ChainsOk(chains, keyBytes, m)
    requires forall j :: 0 <= j < |chains[SlotOf(keyBytes, |chains|, k)]| ==>
      chains[SlotOf(keyBytes, |chains|, k)][j].0 != k
    ensures k !in m
  {
  }

  /** Overwriting the value in k's node maps k to the new value. */
  lemma OverwriteChainsOk<K, V>(chains: seq<seq<(K, V)>>, keyBytes: K -> seq<Byte>, m: map<K, V>,
                               k: K, j: int, v: V)
    requires ChainsOk(chains, keyBytes, m)
    requires 0 <= j < |chains[SlotOf(keyBytes, |chains|, k)]|
    requires chains[SlotOf(keyBytes, |chains|, k)][j].0 == k
    ensures var idx := SlotOf(keyBytes, |chains|, k);
      ChainsOk(chains[idx := chains[idx][j := (k, v)]], keyBytes, m[k := v])
  {
    var idx := SlotOf(keyBytes, |chains|, k);
    var c: seq<seq<(K, V)>> := chains[idx := chains[idx][j := (k, v)]];
    forall b, i | 0 <= b < |c| && 0 <= i < |c[b]|
      ensures c[b][i].0 == chains[b][i].0
    {
    }
    forall b, i | 0 <= b < |c| && 0 <= i < |c[b]| && !(b == idx && i == j)
      ensures c[b][i] == chains[b][i] && c[b][i].0 != k
    {
      if b == idx {
        if i < j {
          assert chains[b][i].0 != chains[b][j].0;
        } else {
          assert chains[b][j].0 != chains[b][i].0;
        }
      }
    }
    assert NodesOk(c, keyBytes, m[k := v]);
    assert NoDup(c);
    forall k' | k' in m[k := v]
      ensures KeyIn(c[SlotOf(keyBytes, |c|, k')], k')
    {
      var s := SlotOf(keyBytes, |c|, k');
      if k' == k {
        assert c[idx][j].0 == k;
      } else {
        assert KeyIn(chains[s], k');
        var j' :| 0 <= j' < |chains[s]| && chains[s][j'].0 == k';
        assert c[s][j'].0 == k';
      }
    }
  }

  lemma PrependNodes<K, V>(chains: seq<seq<(K, V)>>, keyBytes: K -> seq<Byte>, m: map<K, V>, k: K, v: V)
    requires |chains| > 0 && NodesOk(chains, keyBytes, m) && k !in m
    ensures var idx := SlotOf(keyBytes, |chains|, k);
      NodesOk(chains[idx := [(k, v)] + chains[idx]], keyBytes, m[k := v])
  {
    var idx := SlotOf(keyBytes, |chains|, k);
    var c: seq<seq<(K, V)>> := chains[idx := [(k, v)] + chains[idx]];
    forall b, j | 0 <= b < |c| && 0 <= j < |c[b]|
      ensures SlotOf(keyBytes, |c|, c[b][j].0) == b && c[b][j].0 in m[k := v] && m[k := v][c[b][j].0] == c[b][j].1
    {
      if b == idx && j > 0 {
        assert c[b][j] == chains[b][j - 1];
      }
    }
  }

  lemma PrependNoDup<K, V>(chains: seq<seq<(K, V)>>, keyBytes: K -> seq<Byte>, m: map<K, V>, k: K, v: V)
    requires |chains| > 0 && NodesOk(chains, keyBytes, m) && NoDup(chains) && k !in m
    ensures var idx := SlotOf(keyBytes, |chains|, k);
      NoDup(chains[idx := [(k, v)] + chains[idx]])
  {
    var idx := SlotOf(keyBytes, |chains|, k);
    var c: seq<seq<(K, V)>> := chains[idx := [(k, v)] + chains[idx]];
    forall b, i, j | 0 <= b < |c| && 0 <= i < j < |c[b]|
      ensures c[b][i].0 != c[b][j].0
    {
      if b == idx {
        assert c[b][j] == chains[b][j - 1];
        if i > 0 {
          assert c[b][i] == chains[b][i - 1];
        }
      }
    }
  }

  lemma PrependComplete<K, V>(chains: seq<seq<(K, V)>>, keyBytes: K -> seq<Byte>, m: map<K, V>, k: K, v: V)
    requires |chains| > 0 && Complete(chains, keyBytes, m)
    ensures var idx := SlotOf(keyBytes, |chains|, k);
      Complete(chains[idx := [(k, v)] + chains[idx]], keyBytes, m[k := v])
  {
    var idx := SlotOf(keyBytes, |chains|, k);
    var c: seq<seq<(K, V)>> := chains[idx := [(k, v)] + chains[idx]];
    forall k' | k' in m[k := v]
      ensures KeyIn(c[SlotOf(keyBytes, |c|, k')], k')
    {
      if k' == k {
        assert c[idx][0].0 == k;
      } else {
        var s := SlotOf(keyBytes, |c|, k');
        assert KeyIn(chains[s], k');
        var j' :| 0 <= j' < |chains[s]| && chains[s][j'].0 == k';
        if s == idx {
          assert c[s][j' + 1].0 == k';
        } else {
          assert c[s][j'].0 == k';
        }
      }
    }
  }

  /** Prepending a node for an absent key k adds k to the map. */
  lemma PrependChainsOk<K, V>(chains: seq<seq<(K, V)>>, keyBytes: K -> seq<Byte>, m: map<K, V>, k: K, v: V)
    requires ChainsOk(chains, keyBytes, m) && k !in m
    ensures var idx := SlotOf(keyBytes, |chains|, k);
      ChainsOk(chains[idx := [(k, v)] + chains[idx]], keyBytes, m[k := v])
  {
    PrependNodes(chains, keyBytes, m, k, v);
    PrependNoDup(chains, keyBytes, m, k, v);
    PrependComplete(chains, keyBytes, m, k, v);
  }

  /** The chain without its node j. */
  function Unlink<K, V>(chain: seq<(K, V)>, j: int): (r: seq<(K, V)>)
    requires 0 <= j < |chain|
    ensures |r| == |chain| - 1
    ensures forall i :: 0 <= i < |r| ==> r[i] == if i < j then chain[i] else chain[i + 1]
  {
    chain[..j] + chain[j + 1..]
  }

  lemma UnlinkNodes<K, V>(chains: seq<seq<(K, V)>>, keyBytes: K -> seq<Byte>, m: map<K, V>, k: K, j: int)
    requires |chains| > 0 && NodesOk(chains, keyBytes, m) && NoDup(chains)
    requires 0 <= j < |chains[SlotOf(keyBytes, |chains|, k)]|
    requires chains[SlotOf(keyBytes, |chains|, k)][j].0 == k
    ensures var idx := SlotOf(keyBytes, |chains|, k);
      NodesOk(chains[idx := Unlink(chains[idx], j)], keyBytes, m - {k})
  {
    var idx := SlotOf(keyBytes, |chains|, k);
    var c: seq<seq<(K, V)>> := chains[idx := Unlink(chains[idx], j)];
    forall b, i | 0 <= b < |c| && 0 <= i < |c[b]|
      ensures SlotOf(keyBytes, |c|, c[b][i].0) == b && c[b][i].0 in m - {k} && (m - {k})[c[b][i].0] == c[b][i].1
    {
      if b == idx {
        if i < j {
          assert c[b][i] == chains[b][i];
          assert chains[b][i].0 != chains[b][j].0;
        } else {
          assert c[b][i] == chains[b][i + 1];
          assert chains[b][j].0 != chains[b][i + 1].0;
        }
      }
    }
  }

  lemma UnlinkNoDup<K, V>(chains: seq<seq<(K, V)>>, idx: int, j: int)
    requires NoDup(chains) && 0 <= idx < |chains| && 0 <= j < |chains[idx]|
    ensures NoDup(chains[idx := Unlink(chains[idx], j)])
  {
    var c: seq<seq<(K, V)>> := chains[idx := Unlink(chains[idx], j)];
    forall b, i, i' | 0 <= b < |c| && 0 <= i < i' < |c[b]|
      ensures c[b][i].0 != c[b][i'].0
    {
      if b == idx {
        var oi := if i < j then i else i + 1;
        var oi' := if i' < j then i' else i' + 1;
        assert c[b][i] == chains[b][oi] && c[b][i'] == chains[b][oi'];
      }
    }
  }

  lemma UnlinkComplete<K, V>(chains: seq<seq<(K, V)>>, keyBytes: K -> seq<Byte>, m: map<K, V>, k: K, j: int)
    requires |chains| > 0 && Complete(chains, keyBytes, m)
    requires 0 <= j < |chains[SlotOf(keyBytes, |chains|, k)]|
    requires chains[SlotOf(keyBytes, |chains|, k)][j].0 == k
    ensures var idx := SlotOf(keyBytes, |chains|, k);
      Complete(chains[idx := Unlink(chains[idx], j)], keyBytes, m - {k})
  {
    var idx := SlotOf(keyBytes, |chains|, k);
    var c: seq<seq<(K, V)>> := chains[idx := Unlink(chains[idx], j)];
    forall k' | k' in m - {k}
      ensures KeyIn(c[SlotOf(keyBytes, |c|, k')], k')
    {
      var s := SlotOf(keyBytes, |c|, k');
      assert KeyIn(chains[s], k');
      var j' :| 0 <= j' < |chains[s]| && chains[s][j'].0 == k';
      if s == idx {
        if j' < j {
          assert c[s][j'].0 == k';
        } else {
          assert c[s][j' - 1].0 == k';
        }
      } else {
        assert c[s][j'].0 == k';
      }
    }
  }

  /** Unlinking k's node removes k from the map. */
  lemma UnlinkChainsOk<K, V>(chains: seq<seq<(K, V)>>, keyBytes: K -> seq<Byte>, m: map<K, V>, k: K, j: int)
    requires ChainsOk(chains, keyBytes, m)
    requires 0 <= j < |chains[SlotOf(keyBytes, |chains|, k)]|
    requires chains[SlotOf(keyBytes, |chains|, k)][j].0 == k
    ensures var idx := SlotOf(keyBytes, |chains|, k);
      ChainsOk(chains[idx := Unlink(chains[idx], j)], keyBytes, m - {k})
  {
    UnlinkNodes(chains, keyBytes, m, k, j);
    UnlinkNoDup(chains, SlotOf(keyBytes, |chains|, k), j);
    UnlinkComplete(chains, keyBytes, m, k, j);
  }

  /** The keys of a chain's nodes. */
  ghost function KeysOf<K, V>(chain: seq<(K, V)>): set<K>
  {
    if |chain| == 0 then {} else KeysOf(chain[..|chain| - 1]) + {chain[|chain| - 1].0}
  }

  lemma {:induction false} KeysOfIsKeyIn<K, V>(chain: seq<(K, V)>, k: K)
    ensures k in KeysOf(chain) <==> KeyIn(chain, k)
    decreases |chain|
  {
    if |chain| > 0 {
      var init := chain[..|chain| - 1];
      KeysOfIsKeyIn(init, k);
      if KeyIn(init, k) {
        var j :| 0 <= j < |init| && init[j].0 == k;
        assert chain[j].0 == k;
      }
      if KeyIn(chain, k) && chain[|chain| - 1].0 != k {
        var j :| 0 <= j < |chain| && chain[j].0 == k;
        assert init[j].0 == k;
      }
    }
  }

  /** In a chain without repeated keys, a node's key is not among the keys before it. */
  lemma KeysOfPrefix<K, V>(chain: seq<(K, V)>, n: int)
    requires 0 <= n < |chain|
    requires forall i, j :: 0 <= i < j < |chain| ==> chain[i].0 != chain[j].0
    ensures chain[n].0 !in KeysOf(chain[..n])
    ensures KeysOf(chain[..n + 1]) == KeysOf(chain[..n]) + {chain[n].0}
  {
    assert chain[..n + 1][..n] == chain[..n];
    forall j | 0 <= j < n
      ensures chain[..n][j].0 != chain[n].0
    {
      assert chain[..n][j] == chain[j];
    }
    KeysOfIsKeyIn(chain[..n], chain[n].0);
  }

  /** One more node of a chain being re-inserted: its key is new and joins the keys so far. */
  lemma ReinsertKey<K, V>(chain: seq<(K, V)>, n: int, oldKeys: set<K>, keys: set<K>)
    requires 0 <= n < |chain|
    requires forall i, j :: 0 <= i < j < |chain| ==> chain[i].0 != chain[j].0
    requires oldKeys !! KeysOf(chain)
    requires keys == oldKeys + KeysOf(chain[..n])
    ensures chain[n].0 !in keys
    ensures keys + {chain[n].0} == oldKeys + KeysOf(chain[..n + 1])
  {
    KeysOfPrefix(chain, n);
    KeysOfIsKeyIn(chain, chain[n].0);
    assert chain[n].0 in KeysOf(chain);
  }

  /** A map whose keys lie inside old0's and miss one of old0's keys is smaller than old0. */
  lemma SmallerMap<K, V>(m: map<K, V>, old0: map<K, V>, k: K)
    requires forall k' :: k' in m ==> k' in old0
    requires k in old0 && k !in m
    ensures |m| < |old0|
  {
    assert m.Keys <= old0.Keys - {k};
    SubsetCardinality(m.Keys, old0.Keys - {k});
    assert |m.Keys| == |m| && |old0.Keys| == |old0|;
    assert |old0.Keys - {k}| == |old0| - 1;
  }

  /** The nodes of the chain of slot b carry their keys' values, each key once. */
  lemma ChainNodes<K, V>(chains: seq<seq<(K, V)>>, keyBytes: K -> seq<Byte>, m: map<K, V>, b: int)
    requires ChainsOk(chains, keyBytes, m) && 0 <= b < |chains|
    ensures forall j :: 0 <= j < |chains[b]| ==> chains[b][j].0 in m && m[chains[b][j].0] == chains[b][j].1
    ensures forall i, j :: 0 <= i < j < |chains[b]| ==> chains[b][i].0 != chains[b][j].0
  {
  }

  /** The keys in the chain of slot b are exactly the map's keys hashing to b. */
  lemma ChainKeys<K, V>(chains: seq<seq<(K, V)>>, keyBytes: K -> seq<Byte>, m: map<K, V>, b: int)
    requires ChainsOk(chains, keyBytes, m) && 0 <= b < |chains|
    ensures forall k :: k in KeysOf(chains[b]) <==> k in m && SlotOf(keyBytes, |chains|, k) == b
  {
    forall k
      ensures k in KeysOf(chains[b]) <==> k in m && SlotOf(keyBytes, |chains|, k) == b
    {
      KeysOfIsKeyIn(chains[b], k);
      if KeyIn(chains[b], k) {
        var j :| 0 <= j < |chains[b]| && chains[b][j].0 == k;
      }
    }
  }

  /** The keys of m whose slot in a table of |chains| chains is below i. */
  ghost function KeysBelow<K, V>(chains: seq<seq<(K, V)>>, keyBytes: K -> seq<Byte>, m: map<K, V>, i: int): set<K>
    requires |chains| > 0
  {
    set k | k in m && SlotOf(keyBytes, |chains|, k) < i
  }

  /** What rehash's outer loop needs about old chain i, whose keys are keysI. */
  lemma RehashStep<K, V>(chains: seq<seq<(K, V)>>, keyBytes: K -> seq<Byte>, m: map<K, V>, i: int, keysI: set<K>)
    requires |chains| > 0
    requires forall k :: k in keysI <==> k in m && SlotOf(keyBytes, |chains|, k) == i
    ensures KeysBelow(chains, keyBytes, m, i) !! keysI
    ensures KeysBelow(chains, keyBytes, m, i) + keysI == KeysBelow(chains, keyBytes, m, i + 1)
  {
    var below := KeysBelow(chains, keyBytes, m, i);
    var next := KeysBelow(chains, keyBytes, m, i + 1);
    forall k | k in below
      ensures k !in keysI && k in next
    {
      assert k in m && SlotOf(keyBytes, |chains|, k) < i;
    }
    forall k | k in keysI
      ensures k in next
    {
      assert k in m && SlotOf(keyBytes, |chains|, k) == i;
    }
    forall k | k in next
      ensures k in below || k in keysI
    {
      assert k in m && SlotOf(keyBytes, |chains|, k) < i + 1;
    }
  }

  /** Everything rehash's outer loop needs about old chain i. */
  lemma RehashChain<K, V>(chains: seq<seq<(K, V)>>, keyBytes: K -> seq<Byte>, m: map<K, V>, i: int)
    requires ChainsOk(chains, keyBytes, m) && 0 <= i < |chains|
    ensures ChainFrom(chains[i], m)
    ensures KeysBelow(chains, keyBytes, m, i) !! KeysOf(chains[i])
    ensures KeysBelow(chains, keyBytes, m, i) + KeysOf(chains[i]) == KeysBelow(chains, keyBytes, m, i + 1)
  {
    ChainKeys(chains, keyBytes, m, i);
    ChainNodes(chains, keyBytes, m, i);
    RehashStep(chains, keyBytes, m, i, KeysOf(chains[i]));
  }

  lemma KeysBelowAll<K, V>(chains: seq<seq<(K, V)>>, keyBytes: K -> seq<Byte>, m: map<K, V>)
    requires |chains| > 0
    ensures KeysBelow(chains, keyBytes, m, |chains|) == m.Keys
  {
  }

  lemma UpdateKeys<K, V>(m: map<K, V>, k: K, v: V)
    ensures m[k := v].Keys == m.Keys + {k}
  {
  }

  lemma SubsetCardinality<K>(a: set<K>, b: set<K>)
    requires a <= b
    ensures |a| <= |b|
    decreases |b|
  {
    if b != {} {
      var x :| x in b;
      SubsetCardinality(a - {x}, b - {x});
    }
  }

  /** Every key of m is a key of old0 with the same value. */
  ghost predicate Agrees<K, V>(m: map<K, V>, old0: map<K, V>)
  {
    forall k :: k in m ==> k in old0 && m[k] == old0[k]
  }

  lemma AgreesEverywhere<K, V>(m: map<K, V>, old0: map<K, V>)
    requires Agrees(m, old0) && m.Keys == old0.Keys
    ensures m == old0
  {
  }

  /** A chain whose nodes are entries of old0, each key once. */
  ghost predicate ChainFrom<K, V>(chain: seq<(K, V)>, old0: map<K, V>)
  {
    (forall j :: 0 <= j < |chain| ==> chain[j].0 in old0 && old0[chain[j].0] == chain[j].1) &&
    (forall i, j :: 0 <= i < j < |chain| ==> chain[i].0 != chain[j].0)
  }

  /** Re-inserting node n of a chain adds a new key, keeps agreement with old0 and leaves room. */
  lemma ReinsertStep<K, V>(chain: seq<(K, V)>, n: int, old0: map<K, V>, oldKeys: set<K>, before: map<K, V>)
    requires 0 <= n < |chain| && ChainFrom(chain, old0) && oldKeys !! KeysOf(chain)
    requires before.Keys == oldKeys + KeysOf(chain[..n]) && Agrees(before, old0)
    ensures chain[n].0 !in before && |before| < |old0|
    ensures before[chain[n].0 := chain[n].1].Keys == oldKeys + KeysOf(chain[..n + 1])
    ensures Agrees(before[chain[n].0 := chain[n].1], old0)
  {
    var (k, v) := chain[n];
    ReinsertKey(chain, n, oldKeys, before.Keys);
    SmallerMap(before, old0, k);
    UpdateKeys(before, k, v);
  }

  class HashMap<K(==), V> {
    var buckets: array<seq<(K, V)>>
    var capacity: int
    var size: int
    const keyBytes: K -> seq<Byte>
    /** Value{}: what operator[] stores for a missing key. */
    const dflt: V
    ghost var contents: map<K, V>

    /** The slot hash_function assigns to k at the current capacity. */
    ghost function Slot(k: K): int
      reads this
      requires capacity > 0
    {
      SlotOf(keyBytes, capacity, k)
    }

    ghost predicate Valid()
      reads this, buckets
    {
      buckets.Length == capacity && capacity > 0 &&
      size == |contents| && 4 * size <= 3 * capacity + 3 &&
      ChainsOk(buckets[..], keyBytes, contents)
    }

    /** Allocates `initialCapacity` empty chains. */
    constructor (initialCapacity: int, keyBytes: K -> seq<Byte>, dflt: V)
      requires initialCapacity > 0
      ensures Valid() && fresh(buckets)
      ensures contents == map[] && capacity == initialCapacity
      ensures this.keyBytes == keyBytes && this.dflt == dflt
    {
      buckets := new seq<(K, V)>[initialCapacity](_ => []);
      capacity := initialCapacity;
      size := 0;
      this.keyBytes := keyBytes;
      this.dflt := dflt;
      contents := map[];
      new;
      EmptyChainsOk(buckets[..], keyBytes);
    }

    /** Folds the key's bytes with Horner's rule, reducing modulo capacity each step. */
    method HashFunction(key: K) returns (h: int)
      requires capacity > 0
      ensures 0 <= h < capacity && h == Slot(key)
      ensures h == Poly(keyBytes(key)) % capacity
    {
      var bytes := keyBytes(key);
      var hash := 0;
      var i := 0;
      while i < |bytes|
        invariant 0 <= i <= |bytes| && hash == HashFold(bytes[..i], capacity)
      {
        assert bytes[..i + 1][..i] == bytes[..i];
        hash := (hash * 31 + bytes[i]) % capacity;
        if hash < 0 {
          hash := hash + capacity;
        }
        i := i + 1;
      }
      assert bytes[..i] == bytes;
      HashFoldIsPolyMod(bytes, capacity);
      if hash >= 0 {
        return hash;
      } else {
        return -hash;
      }
    }

    /** Walks the chain at `index`; returns the position of `key`, or -1 at the chain's end. */
    method FindInChain(index: int, key: K) returns (pos: int)
      requires Valid() && index == Slot(key)
      ensures -1 <= pos < |buckets[index]|
      ensures pos >= 0 ==> buckets[index][pos].0 == key && key in contents && contents[key] == buckets[index][pos].1
      ensures pos < 0 <==> key !in contents
    {
      var chain := buckets[index];
      var current := 0;
      while current < |chain|
        invariant 0 <= current <= |chain|
        invariant forall j :: 0 <= j < current ==> chain[j].0 != key
      {
        if chain[current].0 == key {
          assert buckets[..][index][current] == chain[current];
          return current;
        }
        current := current + 1;
      }
      MissingFromChain(buckets[..], keyBytes, contents, key);
      return -1;
    }

    /**
     * insert after its load check: overwrite the value if the chain already
     * holds the key, otherwise prepend a new node and count it.
     */
    method Place(key: K, value: V)
      requires Valid() && 4 * size < 3 * capacity
      modifies this, buckets
      ensures Valid() && buckets == old(buckets) && capacity == old(capacity)
      ensures contents == old(contents)[key := value]
      ensures size == old(size) + (if key in old(contents) then 0 else 1)
      ensures key !in old(contents) ==>
        buckets[Slot(key)] == [(key, value)] + old(buckets[Slot(key)])
    {
      var index := HashFunction(key);
      var pos := FindInChain(index, key);
      if pos >= 0 {
        OverwriteChainsOk(buckets[..], keyBytes, contents, key, pos, value);
        buckets[index] := buckets[index][pos := (key, value)];
        contents := contents[key := value];
        return;
      }
      PrependChainsOk(buckets[..], keyBytes, contents, key, value);
      buckets[index] := [(key, value)] + buckets[index];
      size := size + 1;
      contents := contents[key := value];
    }

    /** rehash's inner loop: walks one old chain head to tail, inserting each node. */
    method ReinsertChain(chain: seq<(K, V)>, ghost old0: map<K, V>)
      requires Valid() && ChainFrom(chain, old0) && Agrees(contents, old0)
      requires contents.Keys !! KeysOf(chain)
      requires 4 * |old0| < 3 * capacity
      modifies this, buckets
      ensures Valid() && buckets == old(buckets) && capacity == old(capacity)
      ensures contents.Keys == old(contents).Keys + KeysOf(chain)
      ensures Agrees(contents, old0)
    {
      var current := 0;
      while current < |chain|
        invariant 0 <= current <= |chain|
        invariant Valid() && buckets == old(buckets) && capacity == old(capacity)
        invariant contents.Keys == old(contents).Keys + KeysOf(chain[..current])
        invariant Agrees(contents, old0)
      {
        var (k, v) := chain[current];
        ReinsertStep(chain, current, old0, old(contents).Keys, contents);
        // the load check at the top of insert cannot fire during a rehash
        assert !(4 * size >= 3 * capacity);
        Place(k, v);
        current := current + 1;
      }
      assert chain[..current] == chain;
    }

    /** rehash's outer loop: re-inserts the nodes of every old chain into the (empty) new table. */
    method MoveChains(oldBuckets: array<seq<(K, V)>>, ghost oldContents: map<K, V>)
      requires Valid() && contents == map[] && oldBuckets != buckets
      requires oldBuckets.Length > 0 && ChainsOk(oldBuckets[..], keyBytes, oldContents)
      requires 4 * |oldContents| < 3 * capacity
      modifies this, buckets
      ensures Valid() && buckets == old(buckets) && capacity == old(capacity)
      ensures contents == oldContents
    {
      ghost var oldChains := oldBuckets[..];
      var i := 0;
      while i < oldBuckets.Length
        invariant 0 <= i <= oldBuckets.Length
        invariant Valid() && buckets == old(buckets) && capacity == old(capacity)
        invariant contents.Keys == KeysBelow(oldChains, keyBytes, oldContents, i)
        invariant Agrees(contents, oldContents)
      {
        var chain := oldBuckets[i];
        assert chain == oldChains[i];
        MoveChain(oldChains, oldContents, i, chain);
        i := i + 1;
      }
      KeysBelowAll(oldChains, keyBytes, oldContents);
      AgreesEverywhere(contents, oldContents);
    }

    /** One turn of rehash's outer loop: the nodes of old chain i join those of the chains before it. */
    method MoveChain(ghost oldChains: seq<seq<(K, V)>>, ghost oldContents: map<K, V>, i: int, chain: seq<(K, V)>)
      requires Valid() && ChainsOk(oldChains, keyBytes, oldContents) && 0 <= i < |oldChains|
      requires chain == oldChains[i] && 4 * |oldContents| < 3 * capacity
      requires contents.Keys == KeysBelow(oldChains, keyBytes, oldContents, i)
      requires Agrees(contents, oldContents)
      modifies this, buckets
      ensures Valid() && buckets == old(buckets) && capacity == old(capacity)
      ensures contents.Keys == KeysBelow(oldChains, keyBytes, oldContents, i + 1)
      ensures Agrees(contents, oldContents)
    {
      RehashChain(oldChains, keyBytes, oldContents, i);
      ReinsertChain(chain, oldContents);
    }

    /** Doubles the capacity and re-inserts every node, chain by chain. */
    method Rehash()
      requires Valid()
      modifies this
      ensures Valid() && fresh(buckets)
      ensures capacity == 2 * old(capacity) && contents == old(contents) && size == old(size)
    {
      var oldBuckets := buckets;
      ghost var oldContents := contents;
      capacity := capacity * 2;
      buckets := new seq<(K, V)>[capacity](_ => []);
      size := 0;
      contents := map[];
      EmptyChainsOk(buckets[..], keyBytes);
      MoveChains(oldBuckets, oldContents);
    }

    /** The load check, then the chain search: overwrite or prepend. */
    method Insert(key: K, value: V)
      requires Valid()
      modifies this, buckets
      ensures Valid() && (buckets == old(buckets) || fresh(buckets))
      ensures contents == old(contents)[key := value]
      ensures size == old(size) + (if key in old(contents) then 0 else 1)
      ensures capacity == if 4 * old(size) >= 3 * old(capacity) then 2 * old(capacity) else old(capacity)
      ensures key !in old(contents) ==> buckets[Slot(key)][0] == (key, value)
    {
      if 4 * size >= 3 * capacity {
        Rehash();
      }
      Place(key, value);
    }

    /** Walks the key's chain. */
    method Contains(key: K) returns (found: bool)
      requires Valid()
      ensures found <==> key in contents
    {
      var index := HashFunction(key);
      var pos := FindInChain(index, key);
      return pos >= 0;
    }

    /** operator[] on a key already present: the chain walk finds its node and nothing changes. */
    method Get(key: K) returns (v: V)
      requires Valid() && key in contents
      ensures v == contents[key]
    {
      var index := HashFunction(key);
      var pos := FindInChain(index, key);
      return buckets[index][pos].1;
    }

    /**
     * operator[]: the value of a present key; otherwise inserts Value{} and
     * returns the new head node of the key's chain.
     */
    method Index(key: K) returns (v: V)
      requires Valid()
      modifies this, buckets
      ensures Valid() && (buckets == old(buckets) || fresh(buckets))
      ensures key in old(contents) ==>
        contents == old(contents) && v == old(contents)[key] && size == old(size) && unchanged(this)
      ensures key !in old(contents) ==>
        contents == old(contents)[key := dflt] && v == dflt && size == old(size) + 1
    {
      var index := HashFunction(key);
      var pos := FindInChain(index, key);
      if pos >= 0 {
        return buckets[index][pos].1;
      }
      Insert(key, dflt);
      var slot := HashFunction(key);
      v := buckets[slot][0].1;
    }

    /** Writes through the reference operator[] returns for a present key. */
    method Assign(key: K, value: V)
      requires Valid() && key in contents
      modifies this, buckets
      ensures Valid() && buckets == old(buckets) && capacity == old(capacity) && size == old(size)
      ensures contents == old(contents)[key := value]
    {
      var index := HashFunction(key);
      var pos := FindInChain(index, key);
      OverwriteChainsOk(buckets[..], keyBytes, contents, key, pos, value);
      buckets[index] := buckets[index][pos := (key, value)];
      contents := contents[key := value];
    }

    /** Unlinks the key's node when present, through `prev` or the chain head. */
    method Erase(key: K)
      requires Valid()
      modifies this, buckets
      ensures Valid() && buckets == old(buckets) && capacity == old(capacity)
      ensures contents == old(contents) - {key}
      ensures size == old(size) - (if key in old(contents) then 1 else 0)
    {
      var index := HashFunction(key);
      var pos := FindInChain(index, key);
      if pos >= 0 {
        UnlinkAt(index, pos, key);
      } else {
        assert contents - {key} == contents;
      }
    }

    /** Drops node `pos` of chain `index`, which holds `key`. */
    method UnlinkAt(index: int, pos: int, key: K)
      requires Valid() && index == Slot(key) && key in contents
      requires 0 <= pos < |buckets[index]| && buckets[index][pos].0 == key
      modifies this, buckets
      ensures Valid() && buckets == old(buckets) && capacity == old(capacity)
      ensures contents == old(contents) - {key} && size == old(size) - 1
    {
      ghost var after := buckets[..][index := Unlink(buckets[index], pos)];
      UnlinkChainsOk(buckets[..], keyBytes, contents, key, pos);
      buckets[index] := Unlink(buckets[index], pos);
      assert buckets[..] == after;
      size := size - 1;
      contents := contents - {key};
    }

    method Size() returns (n: int)
      requires Valid()
      ensures n == |contents|
    {
      return size;
    }

    method Empty() returns (b: bool)
      requires Valid()
      ensures b <==> contents == map[]
    {
      return size == 0;
    }
  }

  /** A key occurs in at most one node across all chains. */
  lemma OneNodePerKey<K, V>(chains: seq<seq<(K, V)>>, keyBytes: K -> seq<Byte>, m: map<K, V>,
                            b1: int, j1: int, b2: int, j2: int)
    requires ChainsOk(chains, keyBytes, m)
    requires 0 <= b1 < |chains| && 0 <= j1 < |chains[b1]|
    requires 0 <= b2 < |chains| && 0 <= j2 < |chains[b2]|
    requires chains[b1][j1].0 == chains[b2][j2].0
    ensures b1 == b2 && j1 == j2
  {
  }

  /** When the capacity is a multiple of 4, the load factor never exceeds 3/4. */
  lemma LoadFactorBound<K, V>(m: HashMap<K, V>)
    requires m.Valid() && m.capacity % 4 == 0
    ensures 4 * m.size <= 3 * m.capacity
  {
    var q := m.capacity / 4;
    assert 3 * m.capacity == 12 * q;
  }
}
