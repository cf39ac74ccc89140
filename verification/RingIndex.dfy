/** The lookup table over the leading bits of a hash, and what it stands in for. */
module RingIndex {
  import opened Words
  import opened Clusters

  const INDEX_MAX_BITS: nat := 16
  const INDEX_MIN_BITS: nat := 4
  const POINTS_PER_SLOT: nat := 4

  /** `usize::BITS - n.leading_zeros()`. */
  function BitLength(n: nat): (b: nat)
    ensures n < Pow2(b)
    ensures n > 0 ==> b > 0 && Pow2(b - 1) <= n
  {
    if n == 0 then 0 else 1 + BitLength(n / 2)
  }

  /** A slot for every four points, counting up, and at least one. */
  function SlotsWanted(points: nat): (n: nat)
    ensures n >= 1 && points <= POINTS_PER_SLOT * n
    ensures n > 1 ==> points > POINTS_PER_SLOT * (n - 1)
  {
    var ceiling := (points + POINTS_PER_SLOT - 1) / POINTS_PER_SLOT;
    if ceiling < 1 then 1 else ceiling
  }

  /** The fewest bits, within the fixed limits, that give more slots than are wanted. */
  function IndexBits(points: nat): (bits: nat)
    ensures 4 <= bits <= 16
    ensures bits < 16 ==> points <= 4 * (Pow2(bits) - 1)
    ensures bits > 4 ==> points > 4 * (Pow2(bits - 1) - 1)
  {
    var wanted := BitLength(SlotsWanted(points));
    BitsBracket(points, wanted);
    if wanted < INDEX_MIN_BITS then INDEX_MIN_BITS
    else if wanted > INDEX_MAX_BITS then INDEX_MAX_BITS
    else wanted
  }

  lemma BitsBracket(points: nat, wanted: nat)
    requires wanted == BitLength(SlotsWanted(points))
    ensures wanted <= INDEX_MAX_BITS ==> points <= POINTS_PER_SLOT * (Pow2(wanted) - 1)
    ensures wanted <= INDEX_MIN_BITS ==> points <= POINTS_PER_SLOT * (Pow2(INDEX_MIN_BITS) - 1)
    ensures wanted > INDEX_MIN_BITS ==> points > POINTS_PER_SLOT * (Pow2(wanted - 1) - 1)
    ensures wanted >= INDEX_MAX_BITS ==> points > POINTS_PER_SLOT * (Pow2(INDEX_MAX_BITS - 1) - 1)
  {
    if wanted <= INDEX_MIN_BITS {
      Pow2Monotone(wanted, INDEX_MIN_BITS);
    } else {
      Pow2Monotone(INDEX_MIN_BITS, wanted - 1);
    }
    if wanted >= INDEX_MAX_BITS {
      Pow2Monotone(INDEX_MAX_BITS - 1, wanted - 1);
    }
  }

  /** The number of points below `x` in front of the first that is not. */
  function LowerBound(ring: seq<Point>, x: nat): (i: nat)
    ensures i <= |ring|
    ensures forall j :: 0 <= j < i ==> ring[j].hash < x
    ensures i < |ring| ==> x <= ring[i].hash
  {
    FirstAtOrAbove(PointHashes(ring), x)
  }

  function PointHashes(ring: seq<Point>): (s: seq<U64>)
    ensures |s| == |ring| && forall i :: 0 <= i < |ring| ==> s[i] == ring[i].hash
  {
    seq(|ring|, i requires 0 <= i < |ring| => ring[i].hash)
  }

  function FirstAtOrAbove(s: seq<U64>, x: nat): (i: nat)
    ensures i <= |s|
    ensures forall j :: 0 <= j < i ==> s[j] < x
    ensures i < |s| ==> x <= s[i]
  {
    if s == [] || x <= s[0] then 0
    else
      assert forall j :: 0 < j < |s| ==> s[j] == s[1..][j - 1];
      1 + FirstAtOrAbove(s[1..], x)
  }

  lemma LowerBoundIs(ring: seq<Point>, x: nat, i: nat)
    requires i <= |ring|
    requires forall j :: 0 <= j < i ==> ring[j].hash < x
    requires i < |ring| ==> x <= ring[i].hash
    ensures LowerBound(ring, x) == i
  {
  }

  lemma LowerBoundMonotone(ring: seq<Point>, x: nat, y: nat)
    requires x <= y
    ensures LowerBound(ring, x) <= LowerBound(ring, y)
  {
  }

  function Wrap(ring: seq<Point>, i: nat): nat {
    if i == |ring| then 0 else i
  }

  /** Where a lookup for `x` starts: past the last point it wraps to the first. */
  function Successor(ring: seq<Point>, x: U64): (i: nat)
    requires ring != []
    ensures i < |ring|
  {
    Wrap(ring, LowerBound(ring, x))
  }

  /** The start of a slot: its number followed by zero bits. */
  function SlotStart(slot: nat, bits: nat): nat
    requires bits <= 64
  {
    slot * Pow2(64 - bits)
  }

  function Slot(x: U64, bits: nat): nat
    requires bits <= 64
  {
    NotNegative(x, Pow2(64 - bits));
    x / Pow2(64 - bits)
  }

  lemma NotNegative(x: nat, d: nat)
    requires d > 0
    ensures x / d >= 0
  {
  }

  /** The first point at or above the start of a slot; past the last slot, the ring's length. */
  ghost function Entry(ring: seq<Point>, bits: nat, slot: nat): (i: nat)
    requires bits <= 64
    ensures i <= |ring|
  {
    if slot < Pow2(bits) then LowerBound(ring, SlotStart(slot, bits)) else |ring|
  }

  /** The table holds the low 32 bits of each entry. */
  ghost function Table(ring: seq<Point>, bits: nat): (t: seq<nat>)
    requires bits <= 64
    ensures |t| == Pow2(bits) + 1
  {
    seq(Pow2(bits) + 1, slot requires 0 <= slot => AsU32(Entry(ring, bits, slot)))
  }

  lemma WholeSpace(bits: nat)
    requires bits <= 64
    ensures Pow2(bits) * Pow2(64 - bits) == U64_SIZE
  {
    Pow2Of64();
    Pow2Adds(bits, 64 - bits);
  }

  /** The slots are the hash space cut into equal parts. */
  lemma SlotsEven(slot: nat, bits: nat)
    requires bits <= 64
    ensures SlotStart(0, bits) == 0 && SlotStart(slot + 1, bits) == SlotStart(slot, bits) + Pow2(64 - bits)
    ensures SlotStart(Pow2(bits), bits) == 0x1_0000_0000_0000_0000
  {
    WholeSpace(bits);
  }

  /** A hash lies in the slot its leading bits name. */
  lemma SlotHolds(x: U64, bits: nat)
    requires bits <= 64
    ensures Slot(x, bits) < Pow2(bits)
    ensures SlotStart(Slot(x, bits), bits) <= x < SlotStart(Slot(x, bits) + 1, bits)
  {
    WholeSpace(bits);
    Quotient(x, Pow2(64 - bits), Pow2(bits));
  }

  lemma Quotient(x: nat, width: nat, slots: nat)
    requires width > 0 && x < slots * width
    ensures x / width < slots
    ensures (x / width) * width <= x < (x / width + 1) * width
  {
  }

  /** The answer lies between the entry of a hash's slot and the entry after it. */
  lemma SlotBrackets(ring: seq<Point>, bits: nat, x: U64)
    requires bits <= 64
    ensures Slot(x, bits) < Pow2(bits)
    ensures Entry(ring, bits, Slot(x, bits)) <= LowerBound(ring, x) <= Entry(ring, bits, Slot(x, bits) + 1)
  {
    var slot := Slot(x, bits);
    SlotHolds(x, bits);
    EntryBounds(ring, bits, slot, x);
    EntryBounds(ring, bits, slot + 1, x);
  }

  lemma EntryBounds(ring: seq<Point>, bits: nat, slot: nat, x: U64)
    requires bits <= 64
    ensures slot < Pow2(bits) && SlotStart(slot, bits) <= x ==> Entry(ring, bits, slot) <= LowerBound(ring, x)
    ensures x <= SlotStart(slot, bits) ==> LowerBound(ring, x) <= Entry(ring, bits, slot)
  {
    var start := SlotStart(slot, bits);
    if start <= x {
      LowerBoundMonotone(ring, start, x);
    }
    if x <= start {
      LowerBoundMonotone(ring, x, start);
    }
  }

  // ---- Rings with more points than a u32 can number ----

  /** Where a scan for a point at index `at` stops, between two entries that lose their high bits. */
  function ScanStop(lo: nat, hi: nat, at: nat): nat {
    var from, end := AsU32(lo), AsU32(hi);
    if end <= from then from else Min(at, end)
  }

  ghost function Scanned(ring: seq<Point>, bits: nat, x: U64): (point: nat)
    requires bits <= 64
  {
    ScanStop(Entry(ring, bits, Slot(x, bits)), Entry(ring, bits, Slot(x, bits) + 1), LowerBound(ring, x))
  }

  /** What a scan for index `at` of a ring of `n` points needs of the entries around it: the index
      still has its number, and the scan is not cut short of it. Past the last point, the answer 0 has
      to come from an end of the ring that fits, or from two entries cut to 0. */
  predicate Reaches(n: nat, lo: nat, hi: nat, at: nat) {
    if at < n then at < U32_SIZE && (at == lo || at <= AsU32(hi))
    else n < U32_SIZE || (AsU32(lo) == 0 && AsU32(hi) == 0)
  }

  ghost predicate Findable(ring: seq<Point>, bits: nat, x: U64)
    requires bits <= 64
  {
    Reaches(|ring|, Entry(ring, bits, Slot(x, bits)), Entry(ring, bits, Slot(x, bits) + 1), LowerBound(ring, x))
  }

  /** The scan leads to the right point exactly for the hashes that are findable. */
  lemma ScanFinds(ring: seq<Point>, bits: nat, x: U64)
    requires bits <= 64 && ring != []
    ensures Scanned(ring, bits, x) <= |ring|
    ensures Wrap(ring, Scanned(ring, bits, x)) == Successor(ring, x) <==> Findable(ring, bits, x)
  {
    SlotBrackets(ring, bits, x);
  }

  /** With fewer than 2^32 points every hash is. */
  lemma ShortRingFinds(ring: seq<Point>, bits: nat, x: U64)
    requires bits <= 64 && |ring| < U32_SIZE
    ensures Findable(ring, bits, x)
  {
    SlotBrackets(ring, bits, x);
  }

  /** The first `slot` entries of the table are in place, and `point` is no further than the next. */
  ghost predicate Filled(ring: seq<Point>, bits: nat, slot: nat, point: nat, table: seq<nat>)
    requires bits <= 64
  {
    && point <= |ring| && |table| == slot
    && (forall j :: 0 <= j < point ==> ring[j].hash < SlotStart(slot, bits))
    && (forall s :: 0 <= s < slot ==> table[s] == AsU32(LowerBound(ring, SlotStart(s, bits))))
  }

  lemma FilledOneMore(ring: seq<Point>, bits: nat, slot: nat, point: nat, table: seq<nat>)
    requires bits <= 64 && Filled(ring, bits, slot, point, table)
    requires point < |ring| ==> SlotStart(slot, bits) <= ring[point].hash
    ensures Filled(ring, bits, slot + 1, point, table + [AsU32(point)])
  {
    LowerBoundIs(ring, SlotStart(slot, bits), point);
    SlotsRise(slot, bits);
  }

  lemma SlotsRise(slot: nat, bits: nat)
    requires bits <= 64
    ensures SlotStart(slot, bits) <= SlotStart(slot + 1, bits)
  {
  }

  /** Steps over the points below the start of a slot. */
  method ScanTo(ring: seq<Point>, bits: nat, slot: nat, from: nat, ghost table: seq<nat>) returns (point: nat)
    requires bits <= 64 && Filled(ring, bits, slot, from, table)
    ensures Filled(ring, bits, slot, point, table)
    ensures point < |ring| ==> SlotStart(slot, bits) <= ring[point].hash
  {
    var slotStart := SlotStart(slot, bits);
    point := from;
    while point < |ring| && ring[point].hash < slotStart
      invariant Filled(ring, bits, slot, point, table)
    {
      point := point + 1;
    }
  }

  /** Fills the table in one pass over slots and points. */
  method BuildTable(ring: seq<Point>) returns (bits: nat, table: seq<nat>)
    ensures bits == IndexBits(|ring|) && table == Table(ring, bits)
  {
    bits := IndexBits(|ring|);
    var slots := Pow2(bits);
    table := [];
    var point := 0;
    for slot := 0 to slots
      invariant Filled(ring, bits, slot, point, table)
    {
      point := ScanTo(ring, bits, slot, point, table);
      FilledOneMore(ring, bits, slot, point, table);
      table := table + [AsU32(point)];
    }
    table := table + [AsU32(|ring|)];
  }
}
