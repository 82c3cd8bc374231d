/**
 * What the indices of DataStore.h hold, as functions of the arena and of the
 * order in which insert_stock was called on its records. A record is its
 * position in the arena; `h` lists the positions insert_stock received.
 */
module StoreIndex {
  import opened Stocks
  import opened Ranking
  import opened StoreKeys
  import opened AvlShape
  import opened AvlTrees

  /** 0, 1, ..., n - 1: the positions load_csv inserts, in order. */
  function Range(n: nat): (r: seq<nat>)
    ensures |r| == n
  {
    if n == 0 then [] else Range(n - 1) + [n - 1]
  }

  lemma {:induction false} RangeAt(n: nat, j: nat)
    requires j < n
    ensures Range(n)[j] == j
  {
    if j < n - 1 {
      RangeAt(n - 1, j);
    }
  }

  /** Every listed position is a record of an arena of n records. */
  predicate InArena(h: seq<nat>, n: nat)
  {
    forall j :: 0 <= j < |h| ==> h[j] < n
  }

  lemma RangeInArena(n: nat)
    ensures InArena(Range(n), n)
  {
    forall j | 0 <= j < n
      ensures Range(n)[j] < n
    {
      RangeAt(n, j);
    }
  }

  /* ---------------- generic index shapes ---------------- */

  /** A map written in order: each key maps to the value of its last write. */
  function LastWins<K(==)>(ks: seq<K>, vs: seq<nat>): map<K, nat>
    requires |ks| == |vs|
  {
    if ks == [] then map[]
    else LastWins(ks[..|ks| - 1], vs[..|vs| - 1])[ks[|ks| - 1] := vs[|vs| - 1]]
  }

  /** A key is present iff it was written, and it holds the value of its last write. */
  lemma {:induction false} LastWinsMeaning<K>(ks: seq<K>, vs: seq<nat>, k: K)
    requires |ks| == |vs|
    ensures k in LastWins(ks, vs) <==> k in ks
    ensures k in LastWins(ks, vs) ==>
      exists j :: (0 <= j < |ks| && ks[j] == k && LastWins(ks, vs)[k] == vs[j] &&
        forall j' :: j < j' < |ks| ==> ks[j'] != k)
  {
    if ks != [] {
      var n := |ks| - 1;
      var ks', vs' := ks[..n], vs[..n];
      LastWinsMeaning(ks', vs', k);
      assert ks == ks' + [ks[n]];
      if ks[n] == k {
        assert LastWins(ks, vs)[k] == vs[n];
      } else if k in LastWins(ks, vs) {
        var j :| 0 <= j < n && ks'[j] == k && LastWins(ks', vs')[k] == vs'[j] &&
          forall j' :: j < j' < n ==> ks'[j'] != k;
        assert ks[j] == k && LastWins(ks, vs)[k] == vs[j];
      }
    }
  }

  /** The values written under key k, in write order. */
  function Members<K(==)>(ks: seq<K>, vs: seq<nat>, k: K): seq<nat>
    requires |ks| == |vs|
  {
    if ks == [] then []
    else Members(ks[..|ks| - 1], vs[..|vs| - 1], k) + (if ks[|ks| - 1] == k then [vs[|vs| - 1]] else [])
  }

  /** A map of lists written in order: each write appends its value to its key's list. */
  function Grouped<K(==)>(ks: seq<K>, vs: seq<nat>): map<K, seq<nat>>
    requires |ks| == |vs|
  {
    if ks == [] then map[]
    else
      var g := Grouped(ks[..|ks| - 1], vs[..|vs| - 1]);
      var k, v := ks[|ks| - 1], vs[|vs| - 1];
      if k in g then g[k := g[k] + [v]] else g[k := [v]]
  }

  /** A key has a list iff something was written under it, and the list is exactly those writes. */
  lemma {:induction false} GroupedMembers<K>(ks: seq<K>, vs: seq<nat>, k: K)
    requires |ks| == |vs|
    ensures k in Grouped(ks, vs) <==> Members(ks, vs, k) != []
    ensures k in Grouped(ks, vs) ==> Grouped(ks, vs)[k] == Members(ks, vs, k)
  {
    if ks != [] {
      GroupedMembers(ks[..|ks| - 1], vs[..|vs| - 1], k);
    }
  }

  /** Written in position order, the members of a key are exactly the positions whose key it is. */
  lemma {:induction false} MembersOfRange<K>(ks: seq<K>, k: K, i: int)
    ensures i in Members(ks, Range(|ks|), k) <==> 0 <= i < |ks| && ks[i] == k
  {
    if ks != [] {
      var n := |ks| - 1;
      assert Range(|ks|)[..n] == Range(n);
      MembersOfRange(ks[..n], k, i);
    }
  }

  /** ... and they come in increasing order. */
  lemma {:induction false} MembersOfRangeIncreasing<K>(ks: seq<K>, k: K)
    ensures var m := Members(ks, Range(|ks|), k);
      forall a, b :: 0 <= a < b < |m| ==> m[a] < m[b]
  {
    if ks != [] {
      var n := |ks| - 1;
      assert Range(|ks|)[..n] == Range(n);
      MembersOfRangeIncreasing(ks[..n], k);
      var m' := Members(ks[..n], Range(n), k);
      forall a | 0 <= a < |m'|
        ensures m'[a] < n
      {
        MembersOfRange(ks[..n], k, m'[a]);
      }
    }
  }

  /* ---------------- the indices of the arena ---------------- */

  /** Normalized company names of the inserted records. */
  function NameKeys(stocks: seq<Stock>, h: seq<nat>): (ks: seq<string>)
    requires InArena(h, |stocks|)
    ensures |ks| == |h|
  {
    if h == [] then [] else NameKeys(stocks, h[..|h| - 1]) + [Key(stocks[h[|h| - 1]].companyName)]
  }

  lemma {:induction false} NameKeysAt(stocks: seq<Stock>, h: seq<nat>, j: nat)
    requires InArena(h, |stocks|) && j < |h|
    ensures NameKeys(stocks, h)[j] == Key(stocks[h[j]].companyName)
  {
    if j < |h| - 1 {
      NameKeysAt(stocks, h[..|h| - 1], j);
    }
  }

  /** Normalized sectors of the inserted records. */
  function SectorKeys(stocks: seq<Stock>, h: seq<nat>): (ks: seq<string>)
    requires InArena(h, |stocks|)
    ensures |ks| == |h|
  {
    if h == [] then [] else SectorKeys(stocks, h[..|h| - 1]) + [Key(stocks[h[|h| - 1]].sector)]
  }

  lemma {:induction false} SectorKeysAt(stocks: seq<Stock>, h: seq<nat>, j: nat)
    requires InArena(h, |stocks|) && j < |h|
    ensures SectorKeys(stocks, h)[j] == Key(stocks[h[j]].sector)
  {
    if j < |h| - 1 {
      SectorKeysAt(stocks, h[..|h| - 1], j);
    }
  }

  /** The P/E handles of the inserted records, in insertion order. */
  function PeKeys(stocks: seq<Stock>, h: seq<nat>): (ks: seq<RankKey>)
    requires InArena(h, |stocks|)
    ensures |ks| == |h|
  {
    if h == [] then [] else PeKeys(stocks, h[..|h| - 1]) + [PeKey(stocks, h[|h| - 1])]
  }

  /** The ROE handles of the inserted records, in insertion order. */
  function RoeKeys(stocks: seq<Stock>, h: seq<nat>): (ks: seq<RankKey>)
    requires InArena(h, |stocks|)
    ensures |ks| == |h|
  {
    if h == [] then [] else RoeKeys(stocks, h[..|h| - 1]) + [RoeKey(stocks, h[|h| - 1])]
  }

  /** Every ROE handle is the handle of the record it refers to, an inserted one. */
  lemma {:induction false} RoeKeysAreHandles(stocks: seq<Stock>, h: seq<nat>, x: RankKey)
    requires InArena(h, |stocks|) && x in RoeKeys(stocks, h)
    ensures x.ref in h && x == RoeKey(stocks, x.ref)
  {
    var n := |h| - 1;
    if x != RoeKey(stocks, h[n]) {
      RoeKeysAreHandles(stocks, h[..n], x);
    }
  }

  /** Every P/E handle is the handle of the record it refers to, an inserted one. */
  lemma {:induction false} PeKeysAreHandles(stocks: seq<Stock>, h: seq<nat>, x: RankKey)
    requires InArena(h, |stocks|) && x in PeKeys(stocks, h)
    ensures x.ref in h && x == PeKey(stocks, x.ref)
  {
    var n := |h| - 1;
    if x != PeKey(stocks, h[n]) {
      PeKeysAreHandles(stocks, h[..n], x);
    }
  }

  /** The by_pe tree after inserting the P/E handle of every listed record, in order. */
  function PeTree(stocks: seq<Stock>, h: seq<nat>): (t: KeyTree)
    requires InArena(h, |stocks|)
    ensures Balanced(t) && AvlTrees.Sorted(InOrder(t))
  {
    if h == [] then Nil
    else
      var t := PeTree(stocks, h[..|h| - 1]);
      InsertNodeInOrder(t, PeKey(stocks, h[|h| - 1]));
      SeqInsertContents(InOrder(t), PeKey(stocks, h[|h| - 1]));
      InsertNode(t, PeKey(stocks, h[|h| - 1]))
  }

  /** Inserting into a sorted sequence keeps every equivalence class present and adds v's. */
  lemma SeqInsertKeeps(s: seq<RankKey>, v: RankKey, w: RankKey)
    requires AvlTrees.Sorted(s)
    ensures HasEquiv(s, w) || Equiv(v, w) ==> HasEquiv(SeqInsert(s, v), w)
    ensures forall x :: x in SeqInsert(s, v) ==> x in s || x == v
  {
    var s' := SeqInsert(s, v);
    SeqInsertContents(s, v);
    SeqInsertEquiv(s, v);
    assert multiset(s) <= multiset(s') by {
      if !HasEquiv(s, v) {
        assert multiset(s') == multiset(s) + multiset{v};
      }
    }
    forall x | x in s'
      ensures x in s || x == v
    {
      assert x in multiset(s');
    }
    if HasEquiv(s, w) {
      var i :| 0 <= i < |s| && Equiv(s[i], w);
      assert s[i] in multiset(s');
      var i' :| 0 <= i' < |s'| && s'[i'] == s[i];
    } else if Equiv(v, w) {
      forall i | 0 <= i < |s|
        ensures !Equiv(s[i], v)
      {
        EquivFacts(s[i], v, w);
      }
      assert v in multiset(s');
      var i' :| 0 <= i' < |s'| && s'[i'] == v;
    }
  }

  /**
   * The P/E tree holds, for every inserted record, its handle or one with the
   * same P/E and name (inserting an equivalent handle changes nothing).
   */
  lemma {:induction false} PeTreeCovers(stocks: seq<Stock>, h: seq<nat>, j: nat)
    requires InArena(h, |stocks|) && j < |h|
    ensures HasEquiv(InOrder(PeTree(stocks, h)), PeKey(stocks, h[j]))
  {
    var n := |h| - 1;
    var t := PeTree(stocks, h[..n]);
    var v := PeKey(stocks, h[n]);
    var w := PeKey(stocks, h[j]);
    InsertNodeInOrder(t, v);
    assert InOrder(PeTree(stocks, h)) == SeqInsert(InOrder(t), v);
    if j < n {
      assert h[..n][j] == h[j];
      PeTreeCovers(stocks, h[..n], j);
      assert HasEquiv(InOrder(t), w);
    } else {
      EquivFacts(v, v, v);
      assert Equiv(v, w);
    }
    SeqInsertKeeps(InOrder(t), v, w);
  }

  /** ... and nothing but handles of inserted records. */
  lemma {:induction false} PeTreeOnly(stocks: seq<Stock>, h: seq<nat>, x: RankKey)
    requires InArena(h, |stocks|) && x in InOrder(PeTree(stocks, h))
    ensures x in PeKeys(stocks, h)
  {
    var n := |h| - 1;
    var t := PeTree(stocks, h[..n]);
    var v := PeKey(stocks, h[n]);
    InsertNodeInOrder(t, v);
    SeqInsertKeeps(InOrder(t), v, v);
    if x != v {
      PeTreeOnly(stocks, h[..n], x);
    }
  }

  /* ---------------- sector_stats ---------------- */

  /** The sum of a feature_value over the listed records. */
  function Total(stocks: seq<Stock>, idx: seq<nat>, id: int): real
    requires InArena(idx, |stocks|)
  {
    if idx == [] then 0.0 else Total(stocks, idx[..|idx| - 1], id) + FeatureValue(stocks[idx[|idx| - 1]], id)
  }

  const PriceCeiling: real := 1000000000000000000.0

  /** The running minimum price, starting from 1e18. */
  function MinPrice(stocks: seq<Stock>, idx: seq<nat>): real
    requires InArena(idx, |stocks|)
  {
    if idx == [] then PriceCeiling
    else
      var m := MinPrice(stocks, idx[..|idx| - 1]);
      var p := stocks[idx[|idx| - 1]].price;
      if p < m then p else m
  }

  /** The running maximum price, starting from -1e18. */
  function MaxPrice(stocks: seq<Stock>, idx: seq<nat>): real
    requires InArena(idx, |stocks|)
  {
    if idx == [] then -PriceCeiling
    else
      var m := MaxPrice(stocks, idx[..|idx| - 1]);
      var p := stocks[idx[|idx| - 1]].price;
      if p > m then p else m
  }

  /**
   * Over a non-empty list below the sentinels, the running minimum and
   * maximum are a listed price that bounds every listed price.
   */
  lemma {:induction false} PriceBounds(stocks: seq<Stock>, idx: seq<nat>)
    requires InArena(idx, |stocks|) && idx != []
    requires forall j :: 0 <= j < |idx| ==> -PriceCeiling < stocks[idx[j]].price < PriceCeiling
    ensures forall j :: 0 <= j < |idx| ==> MinPrice(stocks, idx) <= stocks[idx[j]].price <= MaxPrice(stocks, idx)
    ensures exists j :: 0 <= j < |idx| && stocks[idx[j]].price == MinPrice(stocks, idx)
    ensures exists j :: 0 <= j < |idx| && stocks[idx[j]].price == MaxPrice(stocks, idx)
  {
    var n := |idx| - 1;
    var last := stocks[idx[n]].price;
    if n == 0 {
      assert MinPrice(stocks, idx) == last && MaxPrice(stocks, idx) == last;
    } else {
      var p := idx[..n];
      PriceBounds(stocks, p);
      var jmin :| 0 <= jmin < n && stocks[p[jmin]].price == MinPrice(stocks, p);
      var jmax :| 0 <= jmax < n && stocks[p[jmax]].price == MaxPrice(stocks, p);
      assert p[jmin] == idx[jmin] && p[jmax] == idx[jmax];
      forall j | 0 <= j < n
        ensures MinPrice(stocks, idx) <= stocks[idx[j]].price <= MaxPrice(stocks, idx)
      {
        assert p[j] == idx[j];
      }
      if last < MinPrice(stocks, p) {
        assert stocks[idx[n]].price == MinPrice(stocks, idx);
      } else {
        assert stocks[idx[jmin]].price == MinPrice(stocks, idx);
      }
      if last > MaxPrice(stocks, p) {
        assert stocks[idx[n]].price == MaxPrice(stocks, idx);
      } else {
        assert stocks[idx[jmax]].price == MaxPrice(stocks, idx);
      }
    }
  }
}
