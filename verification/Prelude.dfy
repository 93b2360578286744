/** Shared vocabulary: optional values, bytes, little-endian integers, and sums whose order does not matter. */
module Prelude {

  datatype Option<+T> = None | Some(value: T)

  datatype Result<+T, +E> = Ok(value: T) | Err(error: E)

  type Byte = b: int | 0 <= b < 256
  type Bytes = seq<Byte>

  const TWO_16 := 0x1_0000
  const TWO_32 := 0x1_0000_0000
  const TWO_63 := 0x8000_0000_0000_0000
  const TWO_64 := 0x1_0000_0000_0000_0000

  type U8 = Byte
  type U16 = n: int | 0 <= n < TWO_16
  type U64 = n: int | 0 <= n < TWO_64
  type I64 = n: int | -TWO_63 <= n < TWO_63

  /* ---------- little-endian integers ---------- */

  function Pow256(width: nat): (p: nat)
    ensures p >= 1
  {
    if width == 0 then 1 else 256 * Pow256(width - 1)
  }

  /** The `width` low bytes of `n`, least significant first. */
  function LeBytes(n: nat, width: nat): (b: Bytes)
    ensures |b| == width
  {
    if width == 0 then [] else [n % 256] + LeBytes(n / 256, width - 1)
  }

  function LeNat(b: Bytes): (n: nat)
  {
    if b == [] then 0 else b[0] + 256 * LeNat(b[1..])
  }

  lemma {:induction false} LeNatOfLeBytes(n: nat, width: nat)
    requires n < Pow256(width)
    ensures LeNat(LeBytes(n, width)) == n
  {
    if width != 0 {
      LeNatOfLeBytes(n / 256, width - 1);
      assert LeBytes(n, width)[1..] == LeBytes(n / 256, width - 1);
    }
  }

  lemma {:induction false} LeBytesOfLeNat(b: Bytes)
    ensures LeNat(b) < Pow256(|b|)
    ensures LeBytes(LeNat(b), |b|) == b
  {
    if b != [] {
      LeBytesOfLeNat(b[1..]);
      assert LeNat(b) / 256 == LeNat(b[1..]) && LeNat(b) % 256 == b[0];
      assert b == [b[0]] + b[1..];
    }
  }

  lemma TimesAtLeast(d: nat, k: int)
    ensures k >= 1 ==> d * k >= d
    ensures k <= -1 ==> d * k <= 0 - d
  {
  }

  lemma QuotientIs(n: nat, d: nat, q: nat, r: nat)
    requires n == d * q + r && r < d
    ensures n / d == q
  {
    assert d * (n / d - q) == r - n % d;
    TimesAtLeast(d, n / d - q);
  }

  lemma DivideTwice(n: nat, d: nat)
    requires d >= 1
    ensures n / 256 / d == n / (256 * d)
  {
    var q, r := n / 256 / d, n / 256 % d;
    assert n == 256 * (d * q + r) + n % 256;
    assert 256 * (d * q) == (256 * d) * q;
    QuotientIs(n, 256 * d, q, 256 * r + n % 256);
  }

  /** Byte `i` is digit `i` of the number in base 256. */
  lemma {:induction false} LeBytesByPlace(n: nat, width: nat, i: nat)
    requires i < width
    ensures LeBytes(n, width)[i] == n / Pow256(i) % 256
  {
    if i > 0 {
      LeBytesByPlace(n / 256, width - 1, i - 1);
      DivideTwice(n, Pow256(i - 1));
    }
  }

  /** Two bytes, least significant first. */
  lemma LeNatOfTwo(b: Bytes)
    requires |b| == 2
    ensures LeNat(b) == b[0] + 256 * (b[1] as int)
  {
    assert LeNat(b[1..]) == b[1] + 256 * LeNat(b[1..][1..]);
  }

  lemma LeNatOfOnes()
    ensures LeNat([255, 255, 255, 255, 255, 255, 255, 255]) == TWO_64 - 1
  {
    assert LeNat([255, 255]) == 0xFFFF;
    assert LeNat([255, 255, 255]) == 0xFFFFFF;
    assert LeNat([255, 255, 255, 255]) == 0xFFFFFFFF;
    assert LeNat([255, 255, 255, 255, 255]) == 0xFFFFFFFFFF;
    assert LeNat([255, 255, 255, 255, 255, 255]) == 0xFFFFFFFFFFFF;
    assert LeNat([255, 255, 255, 255, 255, 255, 255]) == 0xFFFFFFFFFFFFFF;
  }

  /** The largest u64 is the one whose bytes are all 255. */
  lemma LargestIffAllOnes(b: Bytes)
    requires |b| == 8
    ensures LeNat(b) == TWO_64 - 1 <==> forall i :: 0 <= i < 8 ==> b[i] == 255
  {
    LeNatOfOnes();
    LeBytesOfLeNat(b);
    LeBytesOfLeNat([255, 255, 255, 255, 255, 255, 255, 255]);
    if forall i :: 0 <= i < 8 ==> b[i] == 255 {
      assert b == [255, 255, 255, 255, 255, 255, 255, 255];
    }
  }

  lemma MachineWidths()
    ensures Pow256(1) == 256 && Pow256(2) == TWO_16 && Pow256(4) == TWO_32 && Pow256(8) == TWO_64
  {
    assert Pow256(1) == 256 * Pow256(0);
    assert Pow256(2) == 256 * Pow256(1);
    assert Pow256(4) == 256 * Pow256(3) == 256 * (256 * Pow256(2));
    assert Pow256(6) == 256 * Pow256(5) == 256 * (256 * Pow256(4));
    assert Pow256(8) == 256 * Pow256(7) == 256 * (256 * Pow256(6));
  }

  /** Rust's `as i64` on a `u64`: the same 64 bits read as two's complement. */
  function AsI64(n: U64): (i: I64)
  {
    if n < TWO_63 then n else n - TWO_64
  }

  function AsU64(i: I64): (n: U64)
  {
    if i < 0 then i + TWO_64 else i
  }

  /* ---------- enumerations and order-independent sums ---------- */

  /** `order` lists every member of `s` exactly once: one possible iteration order of a hash map or set. */
  ghost predicate Enumerates<T>(order: seq<T>, s: set<T>)
  {
    && (forall x :: x in order ==> x in s)
    && (forall x :: x in s ==> x in order)
    && forall i, j :: 0 <= i < j < |order| ==> order[i] != order[j]
  }

  lemma {:induction false} EnumerationIsMultiset<T>(order: seq<T>, s: set<T>)
    requires Enumerates(order, s)
    ensures multiset(order) == multiset(s)
    ensures |order| == |s|
  {
    if order == [] {
      assert s == {};
    } else {
      var rest := order[1..];
      assert order == [order[0]] + rest;
      assert order[0] in order;
      forall x ensures x in rest <==> x in s - {order[0]} {
        if x in rest {
          var i :| 0 <= i < |rest| && rest[i] == x;
          assert order[i + 1] == x && x in order;
        }
      }
      EnumerationIsMultiset(rest, s - {order[0]});
      assert multiset(s) == multiset(s - {order[0]}) + multiset{order[0]};
    }
  }

  lemma AppendAssociates<T>(a: seq<T>, b: seq<T>, c: seq<T>)
    ensures a + (b + c) == (a + b) + c
  {
  }

  function SumBy<T>(s: seq<T>, f: T -> int): (total: int)
  {
    if s == [] then 0 else f(s[0]) + SumBy(s[1..], f)
  }

  lemma {:induction false} SumByConcat<T>(a: seq<T>, b: seq<T>, f: T -> int)
    ensures SumBy(a + b, f) == SumBy(a, f) + SumBy(b, f)
  {
    if a == [] {
      assert a + b == b;
    } else {
      assert (a + b)[1..] == a[1..] + b;
      SumByConcat(a[1..], b, f);
    }
  }

  lemma SumBySnoc<T>(s: seq<T>, x: T, f: T -> int)
    ensures SumBy(s + [x], f) == SumBy(s, f) + f(x)
  {
    SumByConcat(s, [x], f);
    assert SumBy([x], f) == f(x) + SumBy([x][1..], f);
  }

  lemma {:induction false} SumByAgree<T>(s: seq<T>, f: T -> int, g: T -> int)
    requires forall x :: x in s ==> f(x) == g(x)
    ensures SumBy(s, f) == SumBy(s, g)
  {
    if s != [] {
      assert s[0] in s;
      SumByAgree(s[1..], f, g);
    }
  }

  function RemoveAt<T>(s: seq<T>, i: nat): (r: seq<T>)
    requires i < |s|
  {
    s[..i] + s[i + 1..]
  }

  lemma RemoveAtMultiset<T>(s: seq<T>, i: nat)
    requires i < |s|
    ensures multiset(s) == multiset(RemoveAt(s, i)) + multiset{s[i]}
  {
    assert s == s[..i] + [s[i]] + s[i + 1..];
  }

  lemma SumByRemove<T>(s: seq<T>, i: nat, f: T -> int)
    requires i < |s|
    ensures SumBy(s, f) == f(s[i]) + SumBy(RemoveAt(s, i), f)
  {
    assert s == s[..i] + s[i..];
    assert s[i..][1..] == s[i + 1..];
    SumByConcat(s[..i], s[i..], f);
    SumByConcat(s[..i], s[i + 1..], f);
  }

  /** The first member of one arrangement can be found, and taken out of, the other. */
  lemma TakeOutFirst<T>(a: seq<T>, b: seq<T>) returns (i: nat)
    requires multiset(a) == multiset(b) && a != []
    ensures i < |b| && b[i] == a[0] && multiset(a[1..]) == multiset(RemoveAt(b, i))
  {
    assert a[0] in multiset(b);
    i :| 0 <= i < |b| && b[i] == a[0];
    RemoveAtMultiset(a, 0);
    RemoveAtMultiset(b, i);
    assert RemoveAt(a, 0) == a[1..];
    assert multiset(a[1..]) == multiset(a) - multiset{a[0]};
    assert multiset(RemoveAt(b, i)) == multiset(b) - multiset{b[i]};
  }

  /** Summing does not depend on the order of the summands. */
  lemma {:induction false} SumByPermutation<T>(a: seq<T>, b: seq<T>, f: T -> int)
    requires multiset(a) == multiset(b)
    ensures SumBy(a, f) == SumBy(b, f)
  {
    if a == [] {
      assert |multiset(b)| == 0;
    } else {
      var i := TakeOutFirst(a, b);
      SumByRemove(b, i, f);
      SumByPermutation(a[1..], RemoveAt(b, i), f);
    }
  }

  /** The same sum, taken from the end. */
  function SumLast<T>(s: seq<T>, f: T -> int): (total: int)
  {
    if s == [] then 0 else SumLast(s[..|s| - 1], f) + f(s[|s| - 1])
  }

  lemma {:induction false} SumLastIsSumBy<T>(s: seq<T>, f: T -> int)
    ensures SumLast(s, f) == SumBy(s, f)
  {
    if s != [] {
      var init, last := s[..|s| - 1], s[|s| - 1];
      SumLastIsSumBy(init, f);
      SumBySnoc(init, last, f);
      assert s == init + [last];
    }
  }

  lemma SumLastPermutation<T>(a: seq<T>, b: seq<T>, f: T -> int)
    requires multiset(a) == multiset(b)
    ensures SumLast(a, f) == SumLast(b, f)
  {
    SumLastIsSumBy(a, f);
    SumLastIsSumBy(b, f);
    SumByPermutation(a, b, f);
  }

  function ValueOrZero<K>(m: map<K, int>, k: K): (v: int)
  {
    if k in m then m[k] else 0
  }

  /** The sum over a map's values, in no particular order. */
  ghost function MapSum<K>(m: map<K, int>): (total: int)
  {
    if m == map[] then 0
    else
      var k :| k in m;
      m[k] + MapSum(m - {k})
  }

  lemma RemoveFromEnumeration<T>(order: seq<T>, i: nat, s: set<T>)
    requires Enumerates(order, s) && i < |order|
    ensures Enumerates(RemoveAt(order, i), s - {order[i]})
  {
    var rest := RemoveAt(order, i);
    forall x | x in s - {order[i]} ensures x in rest {
      var j :| 0 <= j < |order| && order[j] == x;
      assert x == if j < i then rest[j] else rest[j - 1];
    }
  }

  lemma {:induction false} MapSumOfEnumeration<K>(m: map<K, int>, order: seq<K>)
    requires Enumerates(order, m.Keys)
    ensures SumBy(order, k => ValueOrZero(m, k)) == MapSum(m)
  {
    if m == map[] {
      assert forall x :: x !in order;
    } else {
      var k :| k in m && MapSum(m) == m[k] + MapSum(m - {k});
      var i :| 0 <= i < |order| && order[i] == k;
      var rest := RemoveAt(order, i);
      var small := m - {k};
      RemoveFromEnumeration(order, i, m.Keys);
      assert small.Keys == m.Keys - {k};
      MapSumOfEnumeration(small, rest);
      SumByRemove(order, i, x => ValueOrZero(m, x));
      SumByAgree(rest, x => ValueOrZero(m, x), x => ValueOrZero(small, x));
    }
  }

  /** Every finite set can be listed. */
  ghost function SomeEnumeration<T>(s: set<T>): (order: seq<T>)
    ensures Enumerates(order, s)
  {
    if s == {} then []
    else
      var k :| k in s;
      [k] + SomeEnumeration(s - {k})
  }

  /** Any key may be taken out first. */
  lemma MapSumRemove<K>(m: map<K, int>, k: K)
    requires k in m
    ensures MapSum(m) == m[k] + MapSum(m - {k})
  {
    var rest := SomeEnumeration(m.Keys - {k});
    var order := [k] + rest;
    assert Enumerates(order, m.Keys);
    var small := m - {k};
    assert small.Keys == m.Keys - {k};
    MapSumOfEnumeration(m, order);
    MapSumOfEnumeration(small, rest);
    assert order[1..] == rest;
    SumByAgree(rest, x => ValueOrZero(m, x), x => ValueOrZero(small, x));
  }

  /** Adding a fresh key adds its value to the sum. */
  lemma MapSumInsert<K>(m: map<K, int>, k: K, v: int)
    requires k !in m
    ensures MapSum(m[k := v]) == MapSum(m) + v
  {
    MapSumRemove(m[k := v], k);
    assert m[k := v] - {k} == m;
  }

  /** More keys and larger values, none negative, give a larger sum. */
  lemma {:induction false} MapSumMonotone<K>(a: map<K, int>, b: map<K, int>)
    requires forall k :: k in a ==> k in b && a[k] <= b[k]
    requires forall k :: k in b ==> b[k] >= 0
    ensures MapSum(a) <= MapSum(b)
    decreases |b|
  {
    if b != map[] {
      var k :| k in b;
      MapSumRemove(b, k);
      if k in a {
        MapSumRemove(a, k);
        MapSumMonotone(a - {k}, b - {k});
      } else {
        MapSumMonotone(a, b - {k});
      }
    }
  }

  /* ---------- filter_map over a sequence ---------- */

  function Single<T>(v: Option<T>): (s: seq<T>)
  {
    match v
    case Some(x) => [x]
    case None => []
  }

  function FilterMap<K, V>(s: seq<K>, f: K -> Option<V>): (r: seq<V>)
  {
    if s == [] then [] else Single(f(s[0])) + FilterMap(s[1..], f)
  }

  lemma {:induction false} FilterMapConcat<K, V>(a: seq<K>, b: seq<K>, f: K -> Option<V>)
    ensures FilterMap(a + b, f) == FilterMap(a, f) + FilterMap(b, f)
  {
    if a == [] {
      assert a + b == b;
    } else {
      assert (a + b)[1..] == a[1..] + b;
      FilterMapConcat(a[1..], b, f);
    }
  }

  lemma FilterMapSnoc<K, V>(s: seq<K>, k: K, f: K -> Option<V>)
    ensures FilterMap(s + [k], f) == FilterMap(s, f) + Single(f(k))
  {
    FilterMapConcat(s, [k], f);
    assert [k][1..] == [];
    assert FilterMap([k], f) == Single(f(k)) + FilterMap([k][1..], f);
  }

  lemma {:induction false} FilterMapMembers<K, V>(s: seq<K>, f: K -> Option<V>, v: V)
    ensures v in FilterMap(s, f) <==> exists k :: k in s && f(k) == Some(v)
  {
    if s != [] {
      FilterMapMembers(s[1..], f, v);
      assert s == [s[0]] + s[1..];
    }
  }

  lemma {:induction false} FilterMapAgree<K, V>(s: seq<K>, f: K -> Option<V>, g: K -> Option<V>)
    requires forall k :: k in s ==> f(k) == g(k)
    ensures FilterMap(s, f) == FilterMap(s, g)
  {
    if s != [] {
      assert s[0] in s;
      FilterMapAgree(s[1..], f, g);
    }
  }

  lemma FilterMapRemove<K, V>(s: seq<K>, i: nat, f: K -> Option<V>)
    requires i < |s|
    ensures multiset(FilterMap(s, f)) == multiset(FilterMap(RemoveAt(s, i), f)) + multiset(Single(f(s[i])))
  {
    assert s == s[..i] + s[i..];
    assert s[i..][1..] == s[i + 1..];
    FilterMapConcat(s[..i], s[i..], f);
    FilterMapConcat(s[..i], s[i + 1..], f);
    var before, here, after := FilterMap(s[..i], f), Single(f(s[i])), FilterMap(s[i + 1..], f);
    assert FilterMap(s, f) == before + (here + after);
    assert multiset(before + (here + after)) == multiset(before + after) + multiset(here);
  }

  lemma {:induction false} FilterMapPermutation<K, V>(a: seq<K>, b: seq<K>, f: K -> Option<V>)
    requires multiset(a) == multiset(b)
    ensures multiset(FilterMap(a, f)) == multiset(FilterMap(b, f))
  {
    if a == [] {
      assert |multiset(b)| == 0;
    } else {
      var i := TakeOutFirst(a, b);
      FilterMapRemove(b, i, f);
      FilterMapPermutation(a[1..], RemoveAt(b, i), f);
    }
  }

  /** The keys that survive the filter. */
  function Surviving<K, V>(s: seq<K>, f: K -> Option<V>): (r: seq<K>)
  {
    if s == [] then []
    else if f(s[0]).Some? then [s[0]] + Surviving(s[1..], f)
    else Surviving(s[1..], f)
  }

  lemma {:induction false} FilterMapSurviving<K, V>(s: seq<K>, f: K -> Option<V>)
    ensures FilterMap(Surviving(s, f), f) == FilterMap(s, f)
  {
    if s != [] {
      FilterMapSurviving(s[1..], f);
      if f(s[0]).Some? {
        assert Surviving(s, f)[1..] == Surviving(s[1..], f);
      } else {
        assert FilterMap(s, f) == [] + FilterMap(s[1..], f);
      }
    }
  }

  lemma EnumeratesCons<T>(x: T, rest: seq<T>, s: set<T>)
    requires x !in s && Enumerates(rest, s)
    ensures Enumerates([x] + rest, s + {x})
  {
    var order := [x] + rest;
    forall y | y in s + {x} ensures y in order {
      if y == x { assert order[0] == y; } else { assert y in rest; }
    }
  }

  lemma {:induction false} SurvivingEnumerates<K, V>(s: seq<K>, all: set<K>, f: K -> Option<V>)
    requires Enumerates(s, all)
    ensures Enumerates(Surviving(s, f), set k | k in all && f(k).Some?)
  {
    var keep := set k | k in all && f(k).Some?;
    if s == [] {
      assert keep == {};
    } else {
      var rest := all - {s[0]};
      var keepRest := set k | k in rest && f(k).Some?;
      assert s[0] in all;
      assert Enumerates(s[1..], rest) by {
        RemoveFromEnumeration(s, 0, all);
        assert RemoveAt(s, 0) == s[1..];
      }
      SurvivingEnumerates(s[1..], rest, f);
      if f(s[0]).Some? {
        EnumeratesCons(s[0], Surviving(s[1..], f), keepRest);
        assert keep == keepRest + {s[0]};
      } else {
        assert keep == keepRest;
      }
    }
  }

  /** Two listings that agree on which keys survive yield the same values, up to order. */
  lemma FilterMapSameSurvivors<K, V>(a: seq<K>, b: seq<K>, sa: set<K>, sb: set<K>, f: K -> Option<V>)
    requires Enumerates(a, sa) && Enumerates(b, sb)
    requires forall k :: k in sa && f(k).Some? ==> k in sb
    requires forall k :: k in sb && f(k).Some? ==> k in sa
    ensures multiset(FilterMap(a, f)) == multiset(FilterMap(b, f))
  {
    var keep := set k | k in sa && f(k).Some?;
    SurvivingEnumerates(a, sa, f);
    SurvivingEnumerates(b, sb, f);
    assert keep == set k | k in sb && f(k).Some?;
    EnumerationIsMultiset(Surviving(a, f), keep);
    EnumerationIsMultiset(Surviving(b, f), keep);
    FilterMapPermutation(Surviving(a, f), Surviving(b, f), f);
    FilterMapSurviving(a, f);
    FilterMapSurviving(b, f);
  }
}
