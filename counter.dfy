/**
 * The update counters of the update-watcher: one (tx, rx) pair of update-message counts per
 * BGP peer, the equality `Counter::eq` that decides whether two snapshots agree, and
 * `is_stabilized` over the snapshot history.
 */
module Counters {
  import opened Values

  /** `std::net::Ipv4Addr`: four octets. */
  datatype Ipv4Addr = Ipv4Addr(a: byte, b: byte, c: byte, d: byte)

  /** `PeerCounter`: updates sent to and received from one peer. */
  datatype PeerCounter = PeerCounter(tx: u64, rx: u64)

  /** `Counter`: the per-peer table, a `HashMap<Ipv4Addr, PeerCounter>`. */
  datatype Counter = Counter(inner: map<Ipv4Addr, PeerCounter>)

  const EMPTY_COUNTER: Counter := Counter(map[])

  /** Both directions of a peer have started counting. */
  predicate Started(p: PeerCounter) {
    p.tx != 0 && p.rx != 0
  }

  predicate AllStarted(c: Counter) {
    forall k :: k in c.inner ==> Started(c.inner[k])
  }

  /**
   * `Counter::eq`: same number of peers, and every peer of `other` is in `self` with
   * started counters and the same tx and rx.
   */
  predicate Eq(self: Counter, other: Counter) {
    |self.inner| == |other.inner| &&
    forall k :: k in other.inner ==>
      k in self.inner && Started(self.inner[k]) && self.inner[k] == other.inner[k]
  }

  /**
   * `Counter::eq` as the source runs it: a size test, then a pass over the peers of `other`
   * in the map's iteration order, returning false at the first disagreement.
   */
  method Equals(self: Counter, other: Counter) returns (r: bool)
    ensures r == Eq(self, other)
  {
    if |self.inner| != |other.inner| {
      return false;
    }
    var rest := other.inner.Keys;
    while rest != {}
      invariant rest <= other.inner.Keys
      invariant forall k :: k in other.inner && k !in rest ==>
                  k in self.inner && Started(self.inner[k]) && self.inner[k] == other.inner[k]
      decreases |rest|
    {
      var k :| k in rest;
      if k !in self.inner {
        return false;
      }
      var s := self.inner[k];
      if s.tx == 0 || s.rx == 0 {
        return false;
      }
      if s.tx != other.inner[k].tx || s.rx != other.inner[k].rx {
        return false;
      }
      rest := rest - {k};
    }
    return true;
  }

  /** A subset of a finite set with as many elements is the whole set. */
  lemma SubsetOfSameSize<T>(a: set<T>, b: set<T>)
    requires a <= b && |a| == |b|
    ensures a == b
  {
    assert a * b == a && a + b == b;
    assert |b - a| == 0;
  }

  /**
   * `Counter::eq` holds exactly when both tables are the same and every counter in them has
   * started; sizes must agree, so it is false whenever they differ.
   */
  lemma EqIff(self: Counter, other: Counter)
    ensures Eq(self, other) <==> self == other && AllStarted(self)
    ensures |self.inner| != |other.inner| ==> !Eq(self, other)
  {
    if Eq(self, other) {
      assert other.inner.Keys <= self.inner.Keys;
      assert |other.inner.Keys| == |self.inner.Keys|;
      SubsetOfSameSize(other.inner.Keys, self.inner.Keys);
      assert self.inner == other.inner;
    }
  }

  /** A snapshot equals itself only when none of its counters is zero. */
  lemma EqReflexiveIffStarted(c: Counter)
    ensures Eq(c, c) <==> AllStarted(c)
    ensures (exists k :: k in c.inner && (c.inner[k].tx == 0 || c.inner[k].rx == 0)) ==> !Eq(c, c)
  {
    EqIff(c, c);
  }

  /** `Counter::eq` is symmetric and transitive (an equivalence on its domain of started tables). */
  lemma EqSymmetricTransitive(a: Counter, b: Counter, c: Counter)
    ensures Eq(a, b) ==> Eq(b, a)
    ensures Eq(a, b) && Eq(b, c) ==> Eq(a, c)
  {
    EqIff(a, b);
    EqIff(b, a);
    EqIff(b, c);
    EqIff(a, c);
  }

  /** `is_stabilized`: the newest snapshot equals every older one in the history. */
  predicate Stabilized(history: seq<Counter>) {
    forall i :: 1 <= i < |history| ==> Eq(history[0], history[i])
  }

  /** `is_stabilized` as the source runs it: a pass over `1..len`, returning false at the first mismatch. */
  method IsStabilized(history: seq<Counter>) returns (r: bool)
    ensures r == Stabilized(history)
  {
    var i := 1;
    while i < |history|
      invariant 1 <= i <= |history| || |history| == 0
      invariant forall j :: 1 <= j < i && j < |history| ==> Eq(history[0], history[j])
    {
      var same := Equals(history[0], history[i]);
      if !same {
        return false;
      }
      i := i + 1;
    }
    return true;
  }

  /**
   * A history of two or more snapshots is stable exactly when every snapshot is the same
   * table and that table's counters have all started; one of at most one snapshot always is.
   */
  lemma StabilizedIff(history: seq<Counter>)
    ensures |history| <= 1 ==> Stabilized(history)
    ensures |history| >= 2 ==>
              (Stabilized(history) <==>
                 AllStarted(history[0]) && forall i :: 0 <= i < |history| ==> history[i] == history[0])
  {
    if |history| >= 2 {
      EqIff(history[0], history[1]);
      forall i | 1 <= i < |history| ensures Eq(history[0], history[i]) <==> history[i] == history[0] && AllStarted(history[0]) {
        EqIff(history[0], history[i]);
      }
    }
  }
}
