/** `find(filter).sort({ createdAt: -1 })` over a collection held as a map from id to
    record: every selected record exactly once, newest first. */
module Listing {

  /** Non-increasing stamps: newest first. Records with equal stamps may come in any
      order, as the database promises nothing about ties. */
  ghost predicate NewestFirst<V>(r: seq<V>, stamp: V -> int) {
    forall i, j :: 0 <= i < j < |r| ==> stamp(r[i]) >= stamp(r[j])
  }

  /** Where `x` goes in a newest-first sequence: after every record strictly newer than
      it, before the first one that is not. */
  function InsertionPoint<V>(r: seq<V>, x: V, stamp: V -> int): (p: nat)
    requires NewestFirst(r, stamp)
    ensures p <= |r|
    ensures forall i :: 0 <= i < p ==> stamp(r[i]) > stamp(x)
    ensures forall i :: p <= i < |r| ==> stamp(r[i]) <= stamp(x)
  {
    if r == [] || stamp(x) >= stamp(r[0]) then 0
    else 1 + InsertionPoint(r[1..], x, stamp)
  }

  /** Inserting at the insertion point keeps the sequence newest first. */
  lemma InsertKeepsNewestFirst<V>(r: seq<V>, x: V, stamp: V -> int)
    requires NewestFirst(r, stamp)
    ensures var p := InsertionPoint(r, x, stamp); NewestFirst(r[..p] + [x] + r[p..], stamp)
  {
  }

  /** The loop's view of the records chosen so far: those of `r` are kept records of
      `m` that are no longer pending, ... */
  ghost predicate FromMap<K, V>(m: map<K, V>, pending: set<K>, r: seq<V>, keep: V -> bool, id: V -> K) {
    forall i :: 0 <= i < |r| ==> id(r[i]) in m && id(r[i]) !in pending && m[id(r[i])] == r[i] && keep(r[i])
  }

  /** ... every kept record that is no longer pending is among them, ... */
  ghost predicate Covers<K, V>(m: map<K, V>, pending: set<K>, r: seq<V>, keep: V -> bool, id: V -> K) {
    forall k :: k in m && k !in pending && keep(m[k]) ==> exists i :: 0 <= i < |r| && id(r[i]) == k
  }

  /** ... and none of them is there twice. */
  ghost predicate DistinctIds<K, V>(r: seq<V>, id: V -> K) {
    forall i, j :: 0 <= i < j < |r| ==> id(r[i]) != id(r[j])
  }

  /** The records of `m` that `keep` selects, each exactly once, newest first. `id`
      reads a record's own id, which is its key. */
  method SelectNewestFirst<K, V>(m: map<K, V>, keep: V -> bool, stamp: V -> int, id: V -> K) returns (r: seq<V>)
    requires forall k :: k in m ==> id(m[k]) == k
    ensures forall i :: 0 <= i < |r| ==> id(r[i]) in m && m[id(r[i])] == r[i] && keep(r[i])
    ensures forall k :: k in m && keep(m[k]) ==> exists i :: 0 <= i < |r| && id(r[i]) == k
    ensures forall i, j :: 0 <= i < j < |r| ==> id(r[i]) != id(r[j])
    ensures NewestFirst(r, stamp)
  {
    var pending := m.Keys;
    r := [];
    while pending != {}
      invariant pending <= m.Keys
      invariant FromMap(m, pending, r, keep, id)
      invariant Covers(m, pending, r, keep, id)
      invariant DistinctIds(r, id)
      invariant NewestFirst(r, stamp)
      decreases pending
    {
      var k :| k in pending;
      if keep(m[k]) {
        var p := InsertionPoint(r, m[k], stamp);
        InsertKeepsNewestFirst(r, m[k], stamp);
        InsertStep(m, pending, r, k, p, keep, id);
        r := r[..p] + [m[k]] + r[p..];
      } else {
        assert Covers(m, pending - {k}, r, keep, id);
      }
      pending := pending - {k};
    }
    assert Covers(m, {}, r, keep, id);
  }

  /** Taking the pending key `k` into the selection at position `p` keeps the loop's view. */
  lemma InsertStep<K, V>(m: map<K, V>, pending: set<K>, r: seq<V>, k: K, p: nat, keep: V -> bool, id: V -> K)
    requires forall k :: k in m ==> id(m[k]) == k
    requires k in pending && pending <= m.Keys && keep(m[k]) && p <= |r|
    requires FromMap(m, pending, r, keep, id) && Covers(m, pending, r, keep, id) && DistinctIds(r, id)
    ensures var r' := r[..p] + [m[k]] + r[p..];
      FromMap(m, pending - {k}, r', keep, id) && Covers(m, pending - {k}, r', keep, id) && DistinctIds(r', id)
  {
    var r' := r[..p] + [m[k]] + r[p..];
    InsertedAt(r, m[k], p, r');
    forall k' | k' in m && k' !in pending - {k} && keep(m[k'])
      ensures exists i :: 0 <= i < |r'| && id(r'[i]) == k'
    {
      if k' == k {
        assert id(r'[p]) == k';
      } else {
        var i :| 0 <= i < |r| && id(r[i]) == k';
        if i < p { assert id(r'[i]) == k'; } else { assert id(r'[i + 1]) == k'; }
      }
    }
    forall i, j | 0 <= i < j < |r'| ensures id(r'[i]) != id(r'[j]) {
      if i == p { assert id(r'[j]) == id(r[j - 1]); }
      else if j == p { assert id(r'[i]) == id(r[i]); }
    }
  }

  /** Where each record of `r[..p] + [x] + r[p..]` comes from. */
  lemma InsertedAt<V>(r: seq<V>, x: V, p: nat, r': seq<V>)
    requires p <= |r| && r' == r[..p] + [x] + r[p..]
    ensures |r'| == |r| + 1 && r'[p] == x
    ensures forall i :: 0 <= i < p ==> r'[i] == r[i]
    ensures forall i :: p < i < |r'| ==> r'[i] == r[i - 1]
  {
  }
}
