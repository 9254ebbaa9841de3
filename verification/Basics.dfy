/** Small building blocks shared by every component: optional values, error
    results, listings of a set in increasing order, and sums over finite sets. */
module Basics {

  datatype Option<+T> = None | Some(value: T)

  datatype Result<+T, +E> = Ok(value: T) | Err(error: E)

  function Min(a: int, b: int): int {
    if a <= b then a else b
  }

  function Max(a: int, b: int): int {
    if a >= b then a else b
  }

  /** `key or "(none)"`: how the analyses name a missing dimension. */
  function OrNone(key: Option<string>): string {
    if key.None? || key.value == "" then "(none)" else key.value
  }

  function MaxReal(a: real, b: real): real {
    if a >= b then a else b
  }

  /** The quotient of two naturals rounded up. */
  function CeilDiv(a: nat, b: nat): (r: nat)
    requires b > 0
    ensures (r - 1) * b < a <= r * b
  {
    (a + b - 1) / b
  }

  lemma DivideMonotone(a: real, b: real, n: real)
    requires a <= b && n > 0.0
    ensures a / n <= b / n
  {
    var x, y := a / n, b / n;
    assert x * n == a && y * n == b;
    assert (y - x) * n >= 0.0;
  }

  function Elems(s: seq<nat>): set<nat> {
    set x | x in s
  }

  lemma ElemsAppend(s: seq<nat>, x: nat)
    ensures Elems(s + [x]) == Elems(s) + {x}
  {
  }

  lemma NothingLeft<T>(a: set<T>, b: set<T>)
    requires a - b == {}
    ensures a <= b
  {
    forall x | x in a ensures x in b {
      assert x !in a - b;
    }
  }

  /** Moving a fresh element into one or both of two nested sets. */
  lemma AddBoth<T>(pool: set<T>, outer: set<T>, inner: set<T>, x: T)
    requires inner <= outer && x !in outer
    ensures pool - (outer + {x}) == pool - outer - {x}
    ensures outer + {x} - inner == outer - inner + {x}
    ensures outer + {x} - (inner + {x}) == outer - inner
  {
  }

  ghost predicate Increasing(s: seq<nat>) {
    forall a, b :: 0 <= a < b < |s| ==> s[a] < s[b]
  }

  /** The members of `s` below `n`, in increasing order. */
  function Ascending(n: nat, s: set<nat>): seq<nat> {
    if n == 0 then []
    else
      var below := Ascending(n - 1, s);
      if n - 1 in s then below + [n - 1] else below
  }

  lemma {:induction false} AscendingLists(n: nat, s: set<nat>)
    ensures forall x :: x in Ascending(n, s) <==> x in s && x < n
    ensures Increasing(Ascending(n, s))
  {
    if n > 0 {
      AscendingLists(n - 1, s);
      var below := Ascending(n - 1, s);
      assert forall k :: 0 <= k < |below| ==> below[k] in below;
    }
  }

  /** The naturals below `n`: set(range(n)). */
  function Upto(n: nat): (r: set<nat>)
    ensures forall i: nat :: i in r <==> i < n
    ensures |r| == n
  {
    if n == 0 then {} else Upto(n - 1) + {n - 1}
  }

  lemma {:induction false} AscendingLength(n: nat, s: set<nat>)
    requires forall x :: x in s ==> x < n
    ensures |Ascending(n, s)| == |s|
  {
    if n == 0 {
      assert s == {};
    } else {
      var rest := s - {n - 1};
      AscendingCong(n - 1, s, rest);
      AscendingLength(n - 1, rest);
      assert s == if n - 1 in s then rest + {n - 1} else rest;
    }
  }

  lemma {:induction false} AscendingCong(n: nat, s: set<nat>, t: set<nat>)
    requires forall x :: x < n ==> (x in s <==> x in t)
    ensures Ascending(n, s) == Ascending(n, t)
  {
    if n > 0 {
      AscendingCong(n - 1, s, t);
    }
  }

  lemma SubsetSize<T>(s: set<T>, t: set<T>)
    requires s <= t
    ensures |s| <= |t|
    ensures |s| == |t| ==> s == t
  {
    assert t == s + (t - s);
    assert |t| == |s| + |t - s|;
  }

  ghost predicate Distinct(s: seq<nat>) {
    forall a, b :: 0 <= a < b < |s| ==> s[a] != s[b]
  }

  lemma {:induction false} DistinctSize(s: seq<nat>)
    requires Distinct(s)
    ensures |Elems(s)| == |s|
  {
    if s != [] {
      var rest := s[..|s| - 1];
      DistinctSize(rest);
      assert s == rest + [s[|s| - 1]];
      assert Elems(s) == Elems(rest) + {s[|s| - 1]};
    }
  }

  lemma DistinctAppend(s: seq<nat>, x: nat)
    requires Distinct(s) && x !in s
    ensures Distinct(s + [x])
  {
  }

  // ----- Counting flags -----

  function CountTrue(flags: seq<bool>): nat {
    if flags == [] then 0 else CountTrue(flags[..|flags| - 1]) + (if flags[|flags| - 1] then 1 else 0)
  }

  lemma CountTrueSnoc(flags: seq<bool>, b: bool)
    ensures CountTrue(flags + [b]) == CountTrue(flags) + (if b then 1 else 0)
  {
    assert (flags + [b])[..|flags|] == flags;
  }

  /** Counting respects implication, and counts agree only when the flags do. */
  lemma {:induction false} CountTrueImplies(a: seq<bool>, b: seq<bool>)
    requires |a| == |b| && forall i :: 0 <= i < |a| ==> a[i] ==> b[i]
    ensures CountTrue(a) <= CountTrue(b) <= |b|
    ensures CountTrue(a) == CountTrue(b) <==> a == b
  {
    if a != [] {
      var n := |a| - 1;
      CountTrueImplies(a[..n], b[..n]);
      assert a == a[..n] + [a[n]] && b == b[..n] + [b[n]];
    }
  }

  lemma {:induction false} CountTrueSplits(a: seq<bool>, b: seq<bool>, c: seq<bool>)
    requires |a| == |b| == |c|
    requires forall i :: 0 <= i < |a| ==> (c[i] <==> a[i] || b[i]) && !(a[i] && b[i])
    ensures CountTrue(c) == CountTrue(a) + CountTrue(b)
  {
    if a != [] {
      var n := |a| - 1;
      CountTrueSplits(a[..n], b[..n], c[..n]);
    }
  }

  function Truths(n: nat): seq<bool> {
    seq(n, _ => true)
  }

  lemma {:induction false} CountTruths(n: nat)
    ensures CountTrue(Truths(n)) == n
  {
    if n > 0 {
      CountTruths(n - 1);
      assert Truths(n)[..n - 1] == Truths(n - 1);
    }
  }

  /** The count of a list of flags is the number of positions that are set. */
  lemma {:induction false} CountTrueIs(flags: seq<bool>)
    ensures CountTrue(flags) == |set i: nat | i < |flags| && flags[i]|
  {
    var all := set i: nat | i < |flags| && flags[i];
    if flags == [] {
      assert all == {};
    } else {
      var n := |flags| - 1;
      CountTrueIs(flags[..n]);
      var below := set i: nat | i < n && flags[..n][i];
      assert all == if flags[n] then below + {n} else below;
    }
  }

  lemma {:induction false} CountTrueSome(flags: seq<bool>, i: nat)
    requires i < |flags| && flags[i]
    ensures CountTrue(flags) > 0
  {
    if i < |flags| - 1 {
      CountTrueSome(flags[..|flags| - 1], i);
    }
  }

  lemma Next(flags: seq<bool>, k: nat)
    requires k < |flags|
    ensures CountTrue(flags[..k + 1]) == CountTrue(flags[..k]) + (if flags[k] then 1 else 0)
    ensures CountTrue(flags[..0]) == 0
  {
    assert flags[..k + 1] == flags[..k] + [flags[k]];
    CountTrueSnoc(flags[..k], flags[k]);
  }

  lemma Whole(flags: seq<bool>)
    ensures flags[..|flags|] == flags
  {
  }

  // ----- Sums over finite sets -----

  /** The sum of `f` over `s`; the element taken first does not matter (SumRemove). */
  ghost function SumOver<T>(s: set<T>, f: T -> real): real {
    if s == {} then 0.0
    else
      var x :| x in s;
      f(x) + SumOver(s - {x}, f)
  }

  lemma {:induction false} SumRemove<T>(s: set<T>, x: T, f: T -> real)
    requires x in s
    ensures SumOver(s, f) == f(x) + SumOver(s - {x}, f)
    decreases s
  {
    var y :| y in s && SumOver(s, f) == f(y) + SumOver(s - {y}, f);
    if y != x {
      SumRemove(s - {y}, x, f);
      SumRemove(s - {x}, y, f);
      assert s - {y} - {x} == s - {x} - {y};
    }
  }

  lemma SumInsert<T>(s: set<T>, x: T, f: T -> real)
    requires x !in s
    ensures SumOver(s + {x}, f) == f(x) + SumOver(s, f)
  {
    SumRemove(s + {x}, x, f);
    assert s + {x} - {x} == s;
  }

  lemma {:induction false} SumCong<T>(s: set<T>, f: T -> real, g: T -> real)
    requires forall x :: x in s ==> f(x) == g(x)
    ensures SumOver(s, f) == SumOver(s, g)
    decreases s
  {
    if s != {} {
      var x :| x in s;
      SumRemove(s, x, f);
      SumRemove(s, x, g);
      SumCong(s - {x}, f, g);
    }
  }

  lemma {:induction false} SumLinear<T>(s: set<T>, f: T -> real, g: T -> real, h: T -> real)
    requires forall x :: x in s ==> h(x) == f(x) + g(x)
    ensures SumOver(s, h) == SumOver(s, f) + SumOver(s, g)
    decreases s
  {
    if s != {} {
      var x :| x in s;
      SumRemove(s, x, f);
      SumRemove(s, x, g);
      SumRemove(s, x, h);
      SumLinear(s - {x}, f, g, h);
    }
  }

  /** `c` added up `n` times. */
  function Scale(c: real, n: nat): real {
    if n == 0 then 0.0 else c + Scale(c, n - 1)
  }

  lemma {:induction false} ScaleIsProduct(c: real, n: nat)
    ensures Scale(c, n) == c * n as real
  {
    if n > 0 {
      ScaleIsProduct(c, n - 1);
      assert n as real == (n - 1) as real + 1.0;
      assert c * n as real == c * (n - 1) as real + c;
    }
  }

  lemma {:induction false} SumBounds<T>(s: set<T>, f: T -> real, lo: real, hi: real)
    requires forall x :: x in s ==> lo <= f(x) <= hi
    ensures Scale(lo, |s|) <= SumOver(s, f) <= Scale(hi, |s|)
    decreases s
  {
    if s != {} {
      var x :| x in s;
      SumRemove(s, x, f);
      SumBounds(s - {x}, f, lo, hi);
    }
  }
}
