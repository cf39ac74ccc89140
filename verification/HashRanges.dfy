/** Stretches of the hash space, which may wrap past the top. */
module HashRanges {
  import opened Words

  /** A closed interval of the hash circle; it passes 0 when `end` is the lesser. */
  datatype HashRange = HashRange(start: U64, end: U64)

  predicate Contains(r: HashRange, x: U64) {
    if r.start <= r.end then r.start <= x <= r.end else x >= r.start || x <= r.end
  }

  function Count(r: HashRange): nat {
    if r.start <= r.end then r.end - r.start + 1 else U64_MAX - r.start + 1 + r.end + 1
  }

  /** A hash is in a stretch exactly when it is met no later than the end, going up from the start. */
  lemma ContainsIsArc(r: HashRange, x: U64)
    ensures Contains(r, x) <==>
      (x + 0x1_0000_0000_0000_0000 - r.start) % 0x1_0000_0000_0000_0000 <=
      (r.end + 0x1_0000_0000_0000_0000 - r.start) % 0x1_0000_0000_0000_0000
  {
  }

  /** The hash just before the stretch. */
  function Pred(r: HashRange): U64 {
    if r.start == 0 then U64_MAX else r.start - 1
  }

  /** `s` begins where `r` leaves off. */
  predicate Touches(r: HashRange, s: HashRange) {
    WrappingSucc(r.end) == s.start
  }

  ghost predicate Disjoint(r: HashRange, s: HashRange) {
    forall x: U64 :: !(Contains(r, x) && Contains(s, x))
  }

  ghost function Hashes(r: HashRange): set<U64> {
    set x: U64 | 0 <= x < U64_SIZE && Contains(r, x)
  }

  predicate Between(lo: nat, x: U64, hi: nat) {
    lo <= x < hi
  }

  ghost function Interval(lo: nat, hi: nat): set<U64> {
    set x: U64 | 0 <= x < U64_SIZE && Between(lo, x, hi)
  }

  lemma {:induction false} IntervalSize(lo: nat, hi: nat)
    requires lo <= hi <= U64_SIZE
    ensures |Interval(lo, hi)| == hi - lo
    decreases hi - lo
  {
    if lo < hi {
      IntervalSize(lo, hi - 1);
      var last: U64 := hi - 1;
      assert Interval(lo, hi) == Interval(lo, hi - 1) + {last};
    }
  }

  /** The count of a stretch is the number of hashes in it, the whole space included. */
  lemma CountIsSize(r: HashRange)
    ensures |Hashes(r)| == Count(r)
  {
    if r.start <= r.end {
      IntervalSize(r.start, r.end + 1);
      assert Hashes(r) == Interval(r.start, r.end + 1);
    } else {
      IntervalSize(r.start, U64_SIZE);
      IntervalSize(0, r.end + 1);
      assert Hashes(r) == Interval(r.start, U64_SIZE) + Interval(0, r.end + 1);
    }
  }

}
