/** The bytes a cache key is routed by, and the hash taken of them. */
module RoutingBytes {
  import opened Words
  import opened Murmur

  // Strings are their UTF-8 bytes.
  datatype CacheKey = CacheKey(shardId: U64, recordKey: seq<Byte>, namespace: seq<Byte>, selector: seq<Byte>)

  /** `n.to_le_bytes()` for a word of `width` bytes. */
  function ToLittleEndian(n: nat, width: nat): (b: seq<Byte>)
    ensures |b| == width
  {
    if width == 0 then [] else [n % 0x100] + ToLittleEndian(n / 0x100, width - 1)
  }

  lemma {:induction false} LittleEndianRoundTrip(n: nat, width: nat)
    requires n < Pow2(8 * width)
    ensures LittleEndianSum(ToLittleEndian(n, width)) == n
    decreases width
  {
    if width != 0 {
      Pow2Byte(8 * (width - 1));
      LittleEndianRoundTrip(n / 0x100, width - 1);
    }
  }

  lemma {:induction false} LittleEndianIsBytes(b: seq<Byte>)
    ensures ToLittleEndian(LittleEndianSum(b), |b|) == b
  {
    if b != [] {
      var rest := LittleEndianSum(b[1..]);
      LittleEndianIsBytes(b[1..]);
      assert (b[0] + 0x100 * rest) % 0x100 == b[0] && (b[0] + 0x100 * rest) / 0x100 == rest;
    }
  }

  function Encode(key: CacheKey): seq<Byte> {
    ToLittleEndian(AsU32(|key.namespace|), 4) + key.namespace +
    (ToLittleEndian(key.shardId, 8) +
     (ToLittleEndian(AsU32(|key.recordKey|), 4) + key.recordKey + key.selector))
  }

  /** A length-prefixed string at the front of `bytes`, and what follows it. */
  function TakeString(bytes: seq<Byte>): Option<(seq<Byte>, seq<Byte>)> {
    if |bytes| < 4 then None
    else
      var n := LittleEndianSum(bytes[..4]);
      if 4 + n > |bytes| then None else Some((bytes[4..4 + n], bytes[4 + n..]))
  }

  /** What the bytes are, from first to last: two lengths cut to 32 bits, the fields, and between them
      the shard in eight bytes. */
  lemma EncodeLayout(key: CacheKey)
    ensures
      var bytes, n, r := Encode(key), |key.namespace|, |key.recordKey|;
      && |bytes| == 16 + n + r + |key.selector|
      && LittleEndianSum(bytes[..4]) == n % 0x1_0000_0000 && bytes[4..4 + n] == key.namespace
      && LittleEndianSum(bytes[4 + n..12 + n]) == key.shardId
      && LittleEndianSum(bytes[12 + n..16 + n]) == r % 0x1_0000_0000 && bytes[16 + n..16 + n + r] == key.recordKey
      && bytes[16 + n + r..] == key.selector
  {
    var bytes, n, r := Encode(key), |key.namespace|, |key.recordKey|;
    LengthBytes(n);
    LengthBytes(r);
    Pow2Of64();
    LittleEndianRoundTrip(key.shardId, 8);
    Pieces(ToLittleEndian(AsU32(n), 4), key.namespace, ToLittleEndian(key.shardId, 8), ToLittleEndian(AsU32(r), 4),
           key.recordKey, key.selector);
  }

  lemma LengthBytes(n: nat)
    ensures LittleEndianSum(ToLittleEndian(AsU32(n), 4)) == n % 0x1_0000_0000
  {
    Pow2Of32();
    LittleEndianRoundTrip(AsU32(n), 4);
  }

  lemma Pieces(a: seq<Byte>, b: seq<Byte>, c: seq<Byte>, d: seq<Byte>, e: seq<Byte>, f: seq<Byte>)
    requires |a| == 4 && |c| == 8 && |d| == 4
    ensures
      var all, n, r := a + b + (c + (d + e + f)), |b|, |e|;
      && |all| == 16 + n + r + |f| && all[..4] == a && all[4..4 + n] == b && all[4 + n..12 + n] == c
      && all[12 + n..16 + n] == d && all[16 + n..16 + n + r] == e && all[16 + n + r..] == f
  {
  }

  /** The reader the encoding is meant for. */
  function Decode(bytes: seq<Byte>): Option<CacheKey> {
    match TakeString(bytes)
    case None => None
    case Some((namespace, afterName)) =>
      if |afterName| < 8 then None
      else
        var shard := LittleEndian(afterName[..8]);
        match TakeString(afterName[8..])
        case None => None
        case Some((record, selector)) => Some(CacheKey(shard, record, namespace, selector))
  }

  predicate LengthsFit(key: CacheKey) {
    |key.namespace| < U32_SIZE && |key.recordKey| < U32_SIZE
  }

  /** A cut length never asks for more bytes than follow it. */
  lemma TakeStringReads(s: seq<Byte>, rest: seq<Byte>)
    ensures TakeString(ToLittleEndian(AsU32(|s|), 4) + s + rest) ==
      Some((s[..AsU32(|s|)], s[AsU32(|s|)..] + rest))
  {
    var head := ToLittleEndian(AsU32(|s|), 4);
    var bytes, n := head + s + rest, AsU32(|s|);
    assert bytes[..4] == head;
    Pow2Of32();
    LittleEndianRoundTrip(n, 4);
    assert bytes[4..4 + n] == s[..n];
    assert bytes[4 + n..] == s[n..] + rest;
  }

  lemma WholeStringReads(s: seq<Byte>, rest: seq<Byte>)
    requires |s| < U32_SIZE
    ensures TakeString(ToLittleEndian(AsU32(|s|), 4) + s + rest) == Some((s, rest))
  {
    TakeStringReads(s, rest);
    assert s[..|s|] == s && s[|s|..] + rest == rest;
  }

  lemma TakeStringIsShort(bytes: seq<Byte>)
    ensures TakeString(bytes).Some? ==> |TakeString(bytes).value.0| < U32_SIZE
  {
    if |bytes| >= 4 {
      LittleEndianBelow(bytes[..4]);
      Pow2Of32();
    }
  }

  lemma TakeStringUndone(bytes: seq<Byte>)
    requires TakeString(bytes).Some?
    ensures var (s, rest) := TakeString(bytes).value;
      bytes == ToLittleEndian(AsU32(|s|), 4) + s + rest
  {
    TakeStringIsShort(bytes);
    LittleEndianIsBytes(bytes[..4]);
  }

  /** The bytes give the key back exactly when both stored lengths fit the four bytes they get. */
  lemma RoundTrip(key: CacheKey)
    ensures Decode(Encode(key)) == Some(key) <==> LengthsFit(key)
  {
    var bytes := Encode(key);
    if LengthsFit(key) {
      var shard := ToLittleEndian(key.shardId, 8);
      var record := ToLittleEndian(AsU32(|key.recordKey|), 4) + key.recordKey + key.selector;
      WholeStringReads(key.namespace, shard + record);
      Pow2Of64();
      LittleEndianRoundTrip(key.shardId, 8);
      WholeStringReads(key.recordKey, key.selector);
    } else if Decode(bytes) == Some(key) {
      TakeStringIsShort(bytes);
      TakeStringIsShort(TakeString(bytes).value.1[8..]);
      assert false;
    }
  }

  /** Different keys whose lengths fit route by different bytes. */
  lemma KeysNeverShareBytes(a: CacheKey, b: CacheKey)
    requires LengthsFit(a) && LengthsFit(b)
    ensures Encode(a) == Encode(b) <==> a == b
  {
    RoundTrip(a);
    RoundTrip(b);
  }

  /** A key read from some bytes has lengths that fit, and those bytes. */
  lemma ReadBack(bytes: seq<Byte>)
    requires Decode(bytes).Some?
    ensures LengthsFit(Decode(bytes).value) && Encode(Decode(bytes).value) == bytes
  {
    TakeStringIsShort(bytes);
    TakeStringUndone(bytes);
    var after := TakeString(bytes).value.1;
    LittleEndianIsBytes(after[..8]);
    TakeStringIsShort(after[8..]);
    TakeStringUndone(after[8..]);
    assert after == after[..8] + after[8..];
  }

  /** What a reader of the bytes of `key` takes it for. Where the namespace is cut, what it is cut by
      is read as the shard, the length of the record key and the start of the rest; where only the
      record key is cut, what it is cut by goes to the selector. */
  function Reading(key: CacheKey): (read: CacheKey)
    ensures Decode(Encode(key)) == Some(read)
    ensures LengthsFit(read) && Encode(read) == Encode(key)
    ensures LengthsFit(key) <==> read == key
  {
    var n, m := AsU32(|key.namespace|), AsU32(|key.recordKey|);
    RoundTrip(key);
    if |key.namespace| < U32_SIZE then
      ShortNamespaceReads(key);
      ReadBack(Encode(key));
      CacheKey(key.shardId, key.recordKey[..m], key.namespace, key.recordKey[m..] + key.selector)
    else
      LongNamespaceReads(key);
      ReadBack(Encode(key));
      var over := key.namespace[n..];
      var tail := over[12..] + (ToLittleEndian(key.shardId, 8) + (ToLittleEndian(m, 4) + key.recordKey + key.selector));
      var k := LittleEndianSum(over[8..12]);
      CacheKey(LittleEndian(over[..8]), tail[..k], key.namespace[..n], tail[k..])
  }

  lemma ShortNamespaceReads(key: CacheKey)
    requires |key.namespace| < U32_SIZE
    ensures
      var m := AsU32(|key.recordKey|);
      Decode(Encode(key)) ==
      Some(CacheKey(key.shardId, key.recordKey[..m], key.namespace, key.recordKey[m..] + key.selector))
  {
    var shard := ToLittleEndian(key.shardId, 8);
    var record := ToLittleEndian(AsU32(|key.recordKey|), 4) + key.recordKey + key.selector;
    WholeStringReads(key.namespace, shard + record);
    Pow2Of64();
    LittleEndianRoundTrip(key.shardId, 8);
    TakeStringReads(key.recordKey, key.selector);
  }

  lemma LongNamespaceReads(key: CacheKey)
    requires |key.namespace| >= U32_SIZE
    ensures
      var n, m := AsU32(|key.namespace|), AsU32(|key.recordKey|);
      var over := key.namespace[n..];
      var tail := over[12..] + (ToLittleEndian(key.shardId, 8) + (ToLittleEndian(m, 4) + key.recordKey + key.selector));
      && LittleEndianSum(over[8..12]) <= |tail|
      && Decode(Encode(key)) ==
         Some(CacheKey(LittleEndian(over[..8]), tail[..LittleEndianSum(over[8..12])], key.namespace[..n],
                       tail[LittleEndianSum(over[8..12])..]))
  {
    var n, m := AsU32(|key.namespace|), AsU32(|key.recordKey|);
    var over := key.namespace[n..];
    var rest := ToLittleEndian(key.shardId, 8) + (ToLittleEndian(m, 4) + key.recordKey + key.selector);
    TakeStringReads(key.namespace, rest);
    LittleEndianBelow(over[8..12]);
    Pow2Of32();
    SplitOver(over, rest);
    TakeStringAt((over + rest)[8..]);
  }

  lemma TakeStringAt(bytes: seq<Byte>)
    requires |bytes| >= 4 && LittleEndianSum(bytes[..4]) <= |bytes[4..]|
    ensures
      var n := LittleEndianSum(bytes[..4]);
      TakeString(bytes) == Some((bytes[4..][..n], bytes[4..][n..]))
  {
    var n := LittleEndianSum(bytes[..4]);
    assert bytes[4..][..n] == bytes[4..4 + n] && bytes[4..][n..] == bytes[4 + n..];
  }

  lemma SplitOver(over: seq<Byte>, rest: seq<Byte>)
    requires |over| >= 12
    ensures (over + rest)[..8] == over[..8]
    ensures (over + rest)[8..][..4] == over[8..12] && (over + rest)[8..][4..] == over[12..] + rest
  {
  }

  /** Two keys share their bytes exactly when they read the same. */
  lemma SameBytesSameReading(a: CacheKey, b: CacheKey)
    ensures Encode(a) == Encode(b) <==> Reading(a) == Reading(b)
  {
    KeysNeverShareBytes(Reading(a), Reading(b));
  }

  /** Among the keys of any kind, such as those whose fields are valid text, `a` shares its bytes with
      another whose lengths fit exactly when its own do not and its reading is of that kind. */
  lemma OversizedKeysCollide(kind: CacheKey -> bool, a: CacheKey)
    ensures (exists b :: LengthsFit(b) && kind(b) && b != a && Encode(b) == Encode(a)) <==>
            !LengthsFit(a) && kind(Reading(a))
  {
    forall b | LengthsFit(b) && Encode(b) == Encode(a) ensures b == Reading(a) {
      KeysNeverShareBytes(b, Reading(a));
    }
    if !LengthsFit(a) && kind(Reading(a)) {
      var b := Reading(a);
      assert LengthsFit(b) && kind(b) && b != a && Encode(b) == Encode(a);
    }
  }

  /** Past four gigabytes the cast drops the high bits of the length, and two different keys
      can share their bytes: here the namespace of one is read as the selector of the other. */
  lemma LongNamespaceCollides() returns (a: CacheKey, b: CacheKey)
    ensures a != b && !LengthsFit(a) && LengthsFit(b)
    ensures Encode(a) == Encode(b)
  {
    var zeros: seq<Byte> := seq(U32_SIZE, _ => 0);
    a := CacheKey(0, [], zeros, []);
    b := CacheKey(0, [], [], zeros);
    ZeroBytes(4);
    ZeroBytes(8);
  }

  ghost predicate AllZero(s: seq<Byte>) {
    forall i :: 0 <= i < |s| ==> s[i] == 0
  }

  lemma {:induction false} ZeroBytes(width: nat)
    ensures AllZero(ToLittleEndian(0, width))
  {
    if width != 0 {
      ZeroBytes(width - 1);
    }
  }

  lemma Regroup(a: seq<Byte>, b: seq<Byte>, c: seq<Byte>, d: seq<Byte>, e: seq<Byte>, f: seq<Byte>)
    ensures [] + a + b + c + d + e + f == a + b + (c + (d + e + f))
  {
  }

  /** Builds the bytes field by field, as the buffer is filled. */
  method CacheKeyRoutingBytes(key: CacheKey) returns (bytes: seq<Byte>)
    ensures bytes == Encode(key)
    ensures LengthsFit(key) ==> Decode(bytes) == Some(key)
  {
    bytes := [];
    bytes := bytes + ToLittleEndian(AsU32(|key.namespace|), 4);
    bytes := bytes + key.namespace;
    bytes := bytes + ToLittleEndian(key.shardId, 8);
    bytes := bytes + ToLittleEndian(AsU32(|key.recordKey|), 4);
    bytes := bytes + key.recordKey;
    bytes := bytes + key.selector;
    Regroup(ToLittleEndian(AsU32(|key.namespace|), 4), key.namespace, ToLittleEndian(key.shardId, 8),
            ToLittleEndian(AsU32(|key.recordKey|), 4), key.recordKey, key.selector);
    RoundTrip(key);
  }

  const MT_HASH_SEED: U64 := 0x2017_0730

  function RouteHash(bytes: seq<Byte>): U64 {
    Hash64A(bytes, MT_HASH_SEED)
  }

  /** Bytes that differ inside one block of eight, or inside the tail, never route alike. */
  lemma DifferingBlockRoutesApart(pre: seq<Byte>, b: seq<Byte>, b': seq<Byte>, post: seq<Byte>)
    requires |pre| % 8 == 0 && |b| == |b'| && (|b| == 8 || (|b| < 8 && post == []))
    ensures RouteHash(pre + (b + post)) == RouteHash(pre + (b' + post)) <==> b == b'
  {
    DifferingBlockNeverCollides(pre, b, b', post, MT_HASH_SEED);
  }
}
