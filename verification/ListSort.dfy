/** What `list_sort` computes, on sequences: passes that swap neighbours until a pass changes nothing. */
module ListSort {
  /** One pass. After a swap the element moved back is not compared with its new successor: the loop has
      moved past it. */
  ghost function Pass<T>(f: (T, T) -> bool, s: seq<T>): (r: seq<T>)
    ensures |r| == |s|
    decreases |s|
  {
    if |s| < 2 then s
    else if f(s[0], s[1]) then [s[1], s[0]] + Pass(f, s[2..])
    else [s[0]] + Pass(f, s[1..])
  }

  /** Some neighbours are out of order. */
  ghost predicate HasDescent<T>(f: (T, T) -> bool, s: seq<T>)
    decreases |s|
  {
    |s| >= 2 && (f(s[0], s[1]) || HasDescent(f, s[1..]))
  }

  /** The sorter never wants two elements both ways round. */
  ghost predicate Asymmetric<T>(f: (T, T) -> bool, s: seq<T>) {
    forall x, y :: x in s && y in s && f(x, y) ==> !f(y, x)
  }

  /** How many elements of `s` the sorter wants before `x`. */
  ghost function Wanted<T>(f: (T, T) -> bool, x: T, s: seq<T>): nat {
    if s == [] then 0 else (if f(x, s[0]) then 1 else 0) + Wanted(f, x, s[1..])
  }

  /** The number of pairs that are out of order. */
  ghost function Inversions<T>(f: (T, T) -> bool, s: seq<T>): nat {
    if s == [] then 0 else Wanted(f, s[0], s[1..]) + Inversions(f, s[1..])
  }

  ghost predicate Among<T>(s: seq<T>, t: seq<T>) {
    forall x :: x in s ==> x in t
  }

  lemma Cons<T>(s: seq<T>)
    requires s != []
    ensures multiset(s) == multiset{s[0]} + multiset(s[1..])
  {
    assert s == [s[0]] + s[1..];
  }

  lemma {:induction false} PassPermutes<T>(f: (T, T) -> bool, s: seq<T>)
    ensures multiset(Pass(f, s)) == multiset(s)
    decreases |s|
  {
    if |s| >= 2 {
      Cons(s);
      if f(s[0], s[1]) {
        PassPermutes(f, s[2..]);
        Cons(s[1..]);
        assert s[1..][1..] == s[2..];
        assert multiset([s[1], s[0]] + Pass(f, s[2..])) == multiset{s[1]} + multiset{s[0]} + multiset(Pass(f, s[2..]));
      } else {
        PassPermutes(f, s[1..]);
        assert multiset([s[0]] + Pass(f, s[1..])) == multiset{s[0]} + multiset(Pass(f, s[1..]));
      }
    }
  }

  lemma SameMembers<T>(s: seq<T>, t: seq<T>)
    requires multiset(s) == multiset(t)
    ensures Among(s, t) && Among(t, s)
  {
    forall x | x in s ensures x in t { assert x in multiset(s); }
    forall x | x in t ensures x in s { assert x in multiset(t); }
  }

  lemma PassAsymmetric<T>(f: (T, T) -> bool, s: seq<T>)
    requires Asymmetric(f, s)
    ensures Asymmetric(f, Pass(f, s))
  {
    hide Pass;
    PassPermutes(f, s);
    SameMembers(s, Pass(f, s));
  }

  lemma {:induction false} PassWanted<T>(f: (T, T) -> bool, x: T, s: seq<T>)
    ensures Wanted(f, x, Pass(f, s)) == Wanted(f, x, s)
    decreases |s|
  {
    if |s| >= 2 {
      if f(s[0], s[1]) {
        PassWanted(f, x, s[2..]);
        var r := Pass(f, s[2..]);
        assert s[1..][1..] == s[2..];
        assert ([s[1], s[0]] + r)[1..] == [s[0]] + r;
        assert ([s[0]] + r)[1..] == r;
      } else {
        PassWanted(f, x, s[1..]);
        assert ([s[0]] + Pass(f, s[1..]))[1..] == Pass(f, s[1..]);
      }
    }
  }

  lemma Part<T>(f: (T, T) -> bool, s: seq<T>, n: nat)
    requires n <= |s| && Asymmetric(f, s)
    ensures Asymmetric(f, s[n..])
  {
    forall x | x in s[n..] ensures x in s {}
  }

  /** A pass removes pairs that are out of order and makes none, and it removes one unless there were no
      neighbours to swap. */
  lemma {:induction false} PassRemoves<T>(f: (T, T) -> bool, s: seq<T>)
    requires Asymmetric(f, s)
    ensures Inversions(f, Pass(f, s)) <= Inversions(f, s)
    ensures HasDescent(f, s) ==> Inversions(f, Pass(f, s)) < Inversions(f, s)
    ensures !HasDescent(f, s) ==> Pass(f, s) == s
    decreases |s|
  {
    if |s| >= 2 {
      var a, b := s[0], s[1];
      assert a in s && b in s;
      if f(a, b) {
        var r := s[2..];
        Part(f, s, 2);
        PassRemoves(f, r);
        Swapped(f, a, b, r);
        assert s == [a, b] + r;
      } else {
        Part(f, s, 1);
        PassRemoves(f, s[1..]);
        PassWanted(f, a, s[1..]);
        assert ([a] + Pass(f, s[1..]))[1..] == Pass(f, s[1..]);
        assert s == [a] + s[1..];
      }
    }
  }

  lemma Swapped<T>(f: (T, T) -> bool, a: T, b: T, r: seq<T>)
    requires f(a, b) && !f(b, a)
    ensures Inversions(f, [a, b] + r) == 1 + Wanted(f, a, r) + Wanted(f, b, r) + Inversions(f, r)
    ensures Inversions(f, [b, a] + Pass(f, r)) == Wanted(f, a, r) + Wanted(f, b, r) + Inversions(f, Pass(f, r))
  {
    hide Pass;
    PassWanted(f, a, r);
    PassWanted(f, b, r);
    Pair(f, a, b, r);
    Pair(f, b, a, Pass(f, r));
  }

  lemma Pair<T>(f: (T, T) -> bool, a: T, b: T, r: seq<T>)
    ensures Inversions(f, [a, b] + r) ==
      (if f(a, b) then 1 else 0) + Wanted(f, a, r) + Wanted(f, b, r) + Inversions(f, r)
  {
    assert ([a, b] + r)[1..] == [b] + r;
    assert ([b] + r)[1..] == r;
  }

  /** The passes until nothing changes; the pairs out of order are the measure of termination. */
  ghost function Sorted<T>(f: (T, T) -> bool, s: seq<T>): seq<T>
    requires Asymmetric(f, s)
    decreases Inversions(f, s)
  {
    if HasDescent(f, s) then
      PassRemoves(f, s); PassAsymmetric(f, s);
      Sorted(f, Pass(f, s))
    else s
  }

  /** The order of two elements in a sequence. */
  ghost predicate Precedes<T>(s: seq<T>, a: T, b: T) {
    s != [] && ((s[0] == a && b in s[1..]) || Precedes(s[1..], a, b))
  }

  lemma PrecedesCons<T>(x: T, t: seq<T>, a: T, b: T)
    ensures Precedes([x] + t, a, b) <==> (x == a && b in t) || Precedes(t, a, b)
  {
    assert ([x] + t)[1..] == t;
  }

  lemma {:induction false} PassKeepsOrder<T>(f: (T, T) -> bool, s: seq<T>, a: T, b: T)
    requires Precedes(s, a, b) && !f(a, b)
    ensures Precedes(Pass(f, s), a, b)
    decreases |s|
  {
    hide Precedes;
    if |s| >= 2 {
      var x, y := s[0], s[1];
      if f(x, y) {
        var r, p := s[2..], Pass(f, s[2..]);
        PassPermutes(f, r);
        SameMembers(r, p);
        assert s == [x] + ([y] + r);
        PrecedesCons(x, [y] + r, a, b);
        PrecedesCons(y, r, a, b);
        if Precedes(r, a, b) { PassKeepsOrder(f, r, a, b); }
        assert Pass(f, s) == [y] + ([x] + p);
        PrecedesCons(y, [x] + p, a, b);
        PrecedesCons(x, p, a, b);
      } else {
        var r, p := s[1..], Pass(f, s[1..]);
        PassPermutes(f, r);
        SameMembers(r, p);
        assert s == [x] + r;
        PrecedesCons(x, r, a, b);
        if Precedes(r, a, b) { PassKeepsOrder(f, r, a, b); }
        PrecedesCons(x, p, a, b);
      }
    }
  }

  /** Sorting rearranges the list, leaves no neighbours out of order, and is stable: two elements change
      places only if the sorter wanted it. */
  lemma {:induction false} SortedStable<T>(f: (T, T) -> bool, s: seq<T>)
    requires Asymmetric(f, s)
    ensures multiset(Sorted(f, s)) == multiset(s)
    ensures !HasDescent(f, Sorted(f, s))
    ensures forall a, b :: a in s && b in s && Precedes(s, a, b) && !f(a, b) ==> Precedes(Sorted(f, s), a, b)
    decreases Inversions(f, s)
  {
    hide Pass, HasDescent, Precedes;
    if HasDescent(f, s) {
      PassRemoves(f, s);
      PassAsymmetric(f, s);
      PassPermutes(f, s);
      SameMembers(s, Pass(f, s));
      SortedStable(f, Pass(f, s));
      forall a, b | a in s && b in s && Precedes(s, a, b) && !f(a, b) ensures Precedes(Sorted(f, s), a, b) {
        PassKeepsOrder(f, s, a, b);
      }
    }
  }

  /** The sorter orders by classes: not being wanted earlier carries over. */
  ghost predicate WeakOrder<T>(f: (T, T) -> bool, s: seq<T>) {
    Asymmetric(f, s) &&
    forall x, y, z :: x in s && y in s && z in s && !f(x, y) && !f(y, z) ==> !f(x, z)
  }

  /** With such a sorter no pair at all is left out of order, however far apart. */
  lemma {:induction false} NoDescentOrdered<T>(f: (T, T) -> bool, s: seq<T>, i: nat, j: nat)
    requires WeakOrder(f, s) && !HasDescent(f, s) && i < j < |s|
    ensures !f(s[i], s[j])
    decreases j - i
  {
    NoDescentAt(f, s, i);
    if i + 1 < j {
      NoDescentOrdered(f, s, i + 1, j);
      assert s[i] in s && s[i + 1] in s && s[j] in s;
    }
  }

  lemma {:induction false} NoDescentAt<T>(f: (T, T) -> bool, s: seq<T>, i: nat)
    requires !HasDescent(f, s) && i + 1 < |s|
    ensures !f(s[i], s[i + 1])
  {
    if i > 0 { NoDescentAt(f, s[1..], i - 1); }
  }

  lemma SortedOrdered<T>(f: (T, T) -> bool, s: seq<T>)
    requires WeakOrder(f, s)
    ensures var r := Sorted(f, s); |r| == |s| && forall i, j :: 0 <= i < j < |r| ==> !f(r[i], r[j])
  {
    hide HasDescent, Sorted;
    SortedStable(f, s);
    var r := Sorted(f, s);
    SameMembers(s, r);
    assert |multiset(r)| == |multiset(s)|;
    forall i, j | 0 <= i < j < |r| ensures !f(r[i], r[j]) { NoDescentOrdered(f, r, i, j); }
  }
}
