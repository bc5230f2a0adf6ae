/** Small notions shared by the other modules. */
module Basics {
  datatype Option<T> = None | Some(value: T)

  function Min(a: int, b: int): int
  {
    if a < b then a else b
  }

  lemma SmallRemainder(n: nat, d: nat)
    requires n < d
    ensures n % d == n
  {
  }

  /** One more than the largest 64-bit unsigned number. */
  const U64: nat := 0x1_0000_0000_0000_0000

  // --------------------------------------------------------------- sequences

  /** Where an element first is, or the length. */
  function IndexOf<T(==)>(s: seq<T>, x: T): (i: nat)
    ensures i <= |s| && x !in s[..i] && (i < |s| ==> s[i] == x)
    ensures forall j :: 0 <= j < i ==> s[j] != x
  {
    if s == [] || s[0] == x then 0
    else
      var i := 1 + IndexOf(s[1..], x);
      assert s[..i] == [s[0]] + s[1..][..i - 1];
      i
  }

  ghost predicate NoRepeats<T>(s: seq<T>)
  {
    forall i, j :: 0 <= i < j < |s| ==> s[i] != s[j]
  }

  lemma {:induction false} OnceCounts<T>(a: seq<T>, x: T)
    requires NoRepeats(a)
    ensures multiset(a)[x] <= 1
  {
    if a != [] {
      var n := |a| - 1;
      OnceCounts(a[..n], x);
      assert a == a[..n] + [a[n]];
      if a[n] == x {
        assert x !in multiset(a[..n]);
      }
    }
  }

  lemma TwiceCounts<T>(b: seq<T>, i: nat, j: nat)
    requires i < j < |b| && b[i] == b[j]
    ensures multiset(b)[b[i]] >= 2
  {
    assert b == b[..j] + [b[j]] + b[j + 1..];
    assert b[..j][i] == b[i];
    assert multiset(b[..j])[b[i]] >= 1;
  }

  lemma MultisetNoRepeats<T>(a: seq<T>, b: seq<T>)
    requires multiset(a) == multiset(b) && NoRepeats(a)
    ensures NoRepeats(b) && forall x :: x in b <==> x in a
  {
    forall x
      ensures x in b <==> x in a
    {
      assert x in multiset(a) <==> x in multiset(b);
    }
    forall i, j | 0 <= i < j < |b|
      ensures b[i] != b[j]
    {
      if b[i] == b[j] {
        TwiceCounts(b, i, j);
        OnceCounts(a, b[i]);
      }
    }
  }

  lemma SameMembers<X>(a: seq<X>, b: seq<X>)
    requires multiset(a) == multiset(b)
    ensures |a| == |b|
    ensures |a| > 0 ==> a[|a| - 1] in b && b[|b| - 1] in a
  {
    assert |a| == |multiset(a)| == |multiset(b)| == |b|;
    if |a| > 0 {
      assert a[|a| - 1] in multiset(b);
      assert b[|b| - 1] in multiset(a);
    }
  }

  lemma DropLast<X>(a: seq<X>, b: seq<X>)
    requires multiset(a) == multiset(b) && |a| == |b| > 0 && a[|a| - 1] == b[|b| - 1]
    ensures multiset(a[..|a| - 1]) == multiset(b[..|b| - 1])
  {
    var n := |a| - 1;
    assert a == a[..n] + [a[n]] && b == b[..n] + [b[n]];
    assert multiset(a[..n]) == multiset(a) - multiset{a[n]};
    assert multiset(b[..n]) == multiset(b) - multiset{b[n]};
  }

  // ---------------------------------------------------------- places in a list

  function Skip(q: nat, p: nat): nat
  {
    if q < p then q else q + 1
  }

  function Without<T>(b: seq<T>, p: nat): (rest: seq<T>)
    requires p < |b|
    ensures |rest| == |b| - 1
    ensures forall q: nat :: q < |rest| ==> rest[q] == b[Skip(q, p)]
  {
    b[..p] + b[p + 1..]
  }

  lemma HeadTaken<T>(a: seq<T>, b: seq<T>, p: nat)
    requires a != [] && p < |b| && b[p] == a[0] && multiset(a) <= multiset(b)
    ensures multiset(a[1..]) <= multiset(Without(b, p))
    ensures multiset(b) - multiset(a) == multiset(Without(b, p)) - multiset(a[1..])
  {
    assert a == [a[0]] + a[1..];
    assert b == b[..p] + [b[p]] + b[p + 1..];
    assert multiset(b) == multiset(Without(b, p)) + multiset{a[0]};
    assert multiset(a) == multiset(a[1..]) + multiset{a[0]};
    DropBoth(multiset(Without(b, p)), multiset(a[1..]), a[0]);
  }

  lemma DropBoth<T>(b: multiset<T>, a: multiset<T>, x: T)
    requires a + multiset{x} <= b + multiset{x}
    ensures a <= b && (b + multiset{x}) - (a + multiset{x}) == b - a
  {
    forall y
      ensures a[y] <= b[y]
      ensures ((b + multiset{x}) - (a + multiset{x}))[y] == (b - a)[y]
    {
      assert (a + multiset{x})[y] <= (b + multiset{x})[y];
    }
  }

  /** `a`'s entries are at places of their own in `b`, and at the others is what is left over. */
  ghost predicate Places<T>(a: seq<T>, b: seq<T>, left: multiset<T>, at: seq<nat>)
  {
    && |at| == |a| && NoRepeats(at)
    && (forall i :: 0 <= i < |a| ==> at[i] < |b| && b[at[i]] == a[i])
    && (forall q: nat :: q < |b| && q !in at ==> b[q] in left)
  }

  /** A list made of another one's members, no more often than they are in it, takes each of
      its entries from a place of its own. */
  lemma {:induction false} Placement<T>(a: seq<T>, b: seq<T>) returns (at: seq<nat>)
    requires multiset(a) <= multiset(b)
    ensures Places(a, b, multiset(b) - multiset(a), at)
  {
    if a == [] {
      at := [];
      assert multiset(b) - multiset(a) == multiset(b);
    } else {
      assert a[0] in multiset(a);
      var p :| 0 <= p < |b| && b[p] == a[0];
      HeadTaken(a, b, p);
      hide Without, Places;
      var more := Placement(a[1..], Without(b, p));
      at := PlaceNext(a, b, p, multiset(b) - multiset(a), more);
    }
  }

  lemma PlaceNext<T>(a: seq<T>, b: seq<T>, p: nat, left: multiset<T>, more: seq<nat>) returns (at: seq<nat>)
    requires a != [] && p < |b| && b[p] == a[0] && Places(a[1..], Without(b, p), left, more)
    ensures Places(a, b, left, at)
  {
    at := [p] + seq(|more|, i requires 0 <= i < |more| => Skip(more[i], p));
    PlacesShifted(a, b, p, more, at);
    OthersShifted(b, p, more, at, left);
  }

  lemma OthersShifted<T>(b: seq<T>, p: nat, more: seq<nat>, at: seq<nat>, left: multiset<T>)
    requires p < |b| && |at| == |more| + 1 && at[0] == p
    requires forall i :: 1 <= i < |at| ==> at[i] == Skip(more[i - 1], p)
    requires forall r: nat :: r < |b| - 1 && r !in more ==> Without(b, p)[r] in left
    ensures forall q: nat :: q < |b| && q !in at ==> b[q] in left
  {
    forall q: nat | q < |b| && q !in at
      ensures b[q] in left
    {
      var r := PlaceLeft(|b|, p, more, at, q);
      assert b[q] == Without(b, p)[r];
    }
  }

  lemma PlaceLeft(n: nat, p: nat, more: seq<nat>, at: seq<nat>, q: nat) returns (r: nat)
    requires p < n && q < n && q !in at && |at| == |more| + 1 && at[0] == p
    requires forall i :: 1 <= i < |at| ==> at[i] == Skip(more[i - 1], p)
    ensures r < n - 1 && Skip(r, p) == q && r !in more
  {
    assert p in at;
    r := if q < p then q else q - 1;
    forall i | 0 <= i < |more|
      ensures more[i] != r
    {
      assert at[i + 1] in at;
    }
  }

  lemma PlacesShifted<T>(a: seq<T>, b: seq<T>, p: nat, more: seq<nat>, at: seq<nat>)
    requires a != [] && p < |b| && b[p] == a[0] && |more| == |a| - 1 && |at| == |a| && NoRepeats(more)
    requires at[0] == p && forall i :: 1 <= i < |at| ==> at[i] == Skip(more[i - 1], p)
    requires forall i :: 0 <= i < |more| ==> more[i] < |b| - 1 && Without(b, p)[more[i]] == a[1..][i]
    ensures NoRepeats(at) && forall i :: 0 <= i < |a| ==> at[i] < |b| && b[at[i]] == a[i]
  {
    forall i | 1 <= i < |a|
      ensures at[i] < |b| && b[at[i]] == a[i]
    {
      assert a[1..][i - 1] == a[i];
      assert b[Skip(more[i - 1], p)] == Without(b, p)[more[i - 1]];
    }
  }

  /** `part` is what is at these places of `whole`, in the same order. */
  ghost predicate TakesPlaces<T>(part: seq<T>, whole: seq<T>, kept: seq<nat>)
  {
    && |kept| == |part|
    && (forall i, j :: 0 <= i < j < |kept| ==> kept[i] < kept[j])
    && (forall i :: 0 <= i < |kept| ==> kept[i] < |whole| && part[i] == whole[kept[i]])
  }

  lemma TakesLast<T>(part: seq<T>, whole: seq<T>, kept: seq<nat>, x: T)
    requires TakesPlaces(part, whole, kept)
    ensures TakesPlaces(part, whole + [x], kept) && |whole| !in kept
    ensures TakesPlaces(part + [x], whole + [x], kept + [|whole|])
  {
  }

  // -------------------------------------------------------------- finite sets

  ghost function UpTo(n: nat): (s: set<nat>)
    ensures |s| == n && forall i: nat :: i in s <==> i < n
  {
    if n == 0 then {} else UpTo(n - 1) + {n - 1}
  }

  lemma SubsetSize<T>(a: set<T>, b: set<T>)
    requires a <= b
    ensures |a| <= |b|
    ensures |a| == |b| ==> a == b
  {
    assert b == a + (b - a);
    assert |b| == |a| + |b - a|;
  }

  /** A set of all but one of the first numbers holds every other one. */
  lemma AllButOne(a: set<nat>, n: nat, c: nat)
    requires (forall d :: d in a ==> d < n) && c < n && c !in a && |a| == n - 1
    ensures forall d: nat :: d < n && d != c ==> d in a
  {
    SubsetSize(a, UpTo(n) - {c});
  }

  /** A smaller set misses one of them. */
  lemma OneMissing(a: set<nat>, n: nat) returns (d: nat)
    requires |a| < n
    ensures d < n && d !in a
  {
    if UpTo(n) <= a {
      SubsetSize(UpTo(n), a);
      assert false;
    }
    d :| d in UpTo(n) && d !in a;
  }
}
