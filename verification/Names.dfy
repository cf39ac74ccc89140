/** Node names in the order a `BTreeMap<String, _>` keeps them: byte by byte. */
module Names {
  import opened Words

  type Name = seq<Byte>

  /** Strict lexicographic order, which is the order of Rust's `String`. */
  predicate Lt(a: Name, b: Name) {
    if b == [] then false
    else if a == [] then true
    else a[0] < b[0] || (a[0] == b[0] && Lt(a[1..], b[1..]))
  }

  /** `a` comes first where the two differ, by the lesser byte or by ending. */
  ghost predicate FirstAt(a: Name, b: Name, k: nat) {
    k <= |a| && k < |b| && a[..k] == b[..k] && (k == |a| || a[k] < b[k])
  }

  lemma LtIsFirst(a: Name, b: Name)
    ensures Lt(a, b) <==> exists k: nat :: FirstAt(a, b, k)
  {
    if Lt(a, b) {
      var k := LtHasFirst(a, b);
    }
    forall k: nat | FirstAt(a, b, k) ensures Lt(a, b) {
      FirstMeansLt(a, b, k);
    }
  }

  lemma {:induction false} LtHasFirst(a: Name, b: Name) returns (k: nat)
    requires Lt(a, b)
    ensures FirstAt(a, b, k)
  {
    k := 0;
    if a != [] && a[0] == b[0] {
      var j := LtHasFirst(a[1..], b[1..]);
      k := j + 1;
      assert a[..k] == [a[0]] + a[1..][..j] && b[..k] == [b[0]] + b[1..][..j];
    }
  }

  lemma {:induction false} FirstMeansLt(a: Name, b: Name, k: nat)
    requires FirstAt(a, b, k)
    ensures Lt(a, b)
    decreases k
  {
    if k > 0 {
      assert a[0] == a[..k][0] == b[..k][0] == b[0];
      assert a[1..][..k - 1] == a[..k][1..] && b[1..][..k - 1] == b[..k][1..];
      FirstMeansLt(a[1..], b[1..], k - 1);
    }
  }

  lemma {:induction false} LtIrreflexive(a: Name)
    ensures !Lt(a, a)
  {
    if a != [] {
      LtIrreflexive(a[1..]);
    }
  }

  lemma {:induction false} LtTransitive(a: Name, b: Name, c: Name)
    requires Lt(a, b) && Lt(b, c)
    ensures Lt(a, c)
  {
    if a != [] && a[0] == b[0] == c[0] {
      LtTransitive(a[1..], b[1..], c[1..]);
    }
  }

  lemma {:induction false} LtTotal(a: Name, b: Name)
    ensures a == b || Lt(a, b) || Lt(b, a)
  {
    if a != [] && b != [] && a[0] == b[0] {
      LtTotal(a[1..], b[1..]);
    }
  }

  ghost predicate Ascending(s: seq<Name>) {
    forall i, j :: 0 <= i < j < |s| ==> Lt(s[i], s[j])
  }

  ghost predicate Distinct<T>(s: seq<T>) {
    forall i, j :: 0 <= i < j < |s| ==> s[i] != s[j]
  }

  ghost function Elements<T>(s: seq<T>): set<T> {
    set x | x in s
  }

  lemma AscendingIsDistinct(s: seq<Name>)
    requires Ascending(s)
    ensures Distinct(s)
  {
    forall i, j | 0 <= i < j < |s| ensures s[i] != s[j] {
      LtIrreflexive(s[i]);
    }
  }

  lemma {:induction false} DistinctCount<T>(s: seq<T>)
    requires Distinct(s)
    ensures |Elements(s)| == |s|
  {
    if s != [] {
      var t := s[..|s| - 1];
      DistinctCount(t);
      assert Elements(s) == Elements(t) + {s[|s| - 1]};
    }
  }

  lemma {:induction false} CountOnce<T>(s: seq<T>, x: T)
    requires Distinct(s)
    ensures multiset(s)[x] <= 1
  {
    if s != [] {
      CountOnce(s[1..], x);
      assert s == [s[0]] + s[1..];
    }
  }

  lemma CountTwice<T>(t: seq<T>, i: nat, j: nat)
    requires i < j < |t| && t[i] == t[j]
    ensures multiset(t)[t[i]] >= 2
  {
    assert t == t[..i] + [t[i]] + t[i + 1..j] + [t[j]] + t[j + 1..];
  }

  predicate IsLeast(keys: set<Name>, m: Name) {
    m in keys && forall k :: k in keys ==> k == m || Lt(m, k)
  }

  lemma LeastExists(keys: set<Name>) returns (m: Name)
    requires keys != {}
    ensures IsLeast(keys, m)
  {
    m :| m in keys;
    if keys != {m} {
      var l := LeastExists(keys - {m});
      LtTotal(m, l);
      if Lt(l, m) {
        m := l;
      } else {
        forall k | k in keys ensures k == m || Lt(m, k) {
          if k != m && k != l {
            LtTransitive(m, l, k);
          }
        }
      }
    }
  }

  lemma LeastUnique(keys: set<Name>, a: Name, b: Name)
    requires IsLeast(keys, a) && IsLeast(keys, b)
    ensures a == b
  {
    if a != b {
      LtTransitive(a, b, a);
      LtIrreflexive(a);
      assert false;
    }
  }

  /** The first key of a map. */
  function Least(keys: set<Name>): (m: Name)
    requires keys != {}
    ensures IsLeast(keys, m)
  {
    assert exists m :: IsLeast(keys, m) by {
      var m := LeastExists(keys);
    }
    assert forall a, b :: IsLeast(keys, a) && IsLeast(keys, b) ==> a == b by {
      forall a, b | IsLeast(keys, a) && IsLeast(keys, b) ensures a == b {
        LeastUnique(keys, a, b);
      }
    }
    var m :| m in keys && IsLeast(keys, m);
    m
  }

  /** The keys of a `BTreeMap` in iteration order. */
  function Sorted(keys: set<Name>): (s: seq<Name>)
    ensures Ascending(s) && Elements(s) == keys
  {
    if keys == {} then []
    else
      var m := Least(keys);
      var rest := Sorted(keys - {m});
      LeastFirst(keys, m, rest);
      [m] + rest
  }

  lemma LeastFirst(keys: set<Name>, m: Name, rest: seq<Name>)
    requires IsLeast(keys, m) && Ascending(rest) && Elements(rest) == keys - {m}
    ensures Ascending([m] + rest) && Elements([m] + rest) == keys
  {
    forall i | 0 <= i < |rest| ensures Lt(m, rest[i]) {
      assert rest[i] in Elements(rest);
    }
    assert forall k :: k in [m] + rest <==> k == m || k in Elements(rest);
  }

  /** Iteration order is the only ascending listing of the keys. */
  lemma {:induction false} AscendingUnique(s: seq<Name>, t: seq<Name>)
    requires Ascending(s) && Ascending(t)
    requires Elements(s) == Elements(t)
    ensures s == t
  {
    AscendingIsDistinct(s);
    AscendingIsDistinct(t);
    DistinctCount(t);
    if s != [] {
      assert s[0] in Elements(t) && s[0] in t;
      var j :| 0 <= j < |t| && t[j] == s[0];
      assert t[0] in Elements(s) && t[0] in s;
      var i :| 0 <= i < |s| && s[i] == t[0];
      if i > 0 && j > 0 {
        LtTransitive(t[0], s[0], t[0]);
        LtIrreflexive(t[0]);
        assert false;
      }
      assert Elements(t[1..]) == Elements(t) - {t[0]};
      AscendingUnique(s[1..], t[1..]);
    }
  }

  function Index(s: seq<Name>, n: Name): (i: nat)
    requires n in s
    ensures i < |s| && s[i] == n
  {
    if s[0] == n then 0 else 1 + Index(s[1..], n)
  }

  /** `s` without its entry at `i`. */
  function DropAt<T>(s: seq<T>, i: nat): seq<T>
    requires i < |s|
  {
    s[..i] + s[i + 1..]
  }

  lemma DropAtElements<T>(s: seq<T>, i: nat)
    requires i < |s| && Distinct(s)
    ensures Elements(DropAt(s, i)) == Elements(s) - {s[i]}
    ensures Distinct(DropAt(s, i))
  {
  }

  lemma DropAtAscending(s: seq<Name>, i: nat)
    requires i < |s| && Ascending(s)
    ensures Ascending(DropAt(s, i)) && Elements(DropAt(s, i)) == Elements(s) - {s[i]}
  {
    AscendingIsDistinct(s);
    DropAtElements(s, i);
  }
}
