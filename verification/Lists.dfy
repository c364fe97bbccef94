/** Facts about sequences of anything. */
module Lists {
  /** The lists one after the other. */
  function Concat<T>(lists: seq<seq<T>>): seq<T> {
    if lists == [] then [] else lists[0] + Concat(lists[1..])
  }

  lemma ConcatNone<T>()
    ensures Concat<T>([]) == []
  {}

  lemma {:induction false} ConcatLast<T>(lists: seq<seq<T>>, last: seq<T>)
    ensures Concat(lists + [last]) == Concat(lists) + last
  {
    if lists == [] {
      assert lists + [last] == [last];
    } else {
      assert (lists + [last])[1..] == lists[1..] + [last];
      ConcatLast(lists[1..], last);
    }
  }

  lemma {:induction false} ConcatTwo<T>(u: seq<seq<T>>, v: seq<seq<T>>)
    ensures Concat(u + v) == Concat(u) + Concat(v)
  {
    if u == [] {
      assert u + v == v;
    } else {
      assert (u + v)[1..] == u[1..] + v;
      ConcatTwo(u[1..], v);
    }
  }

  lemma SameMembers<T>(a: seq<T>, b: seq<T>)
    requires multiset(a) == multiset(b)
    ensures |a| == |b| && forall p :: p in a <==> p in b
  {
    assert |a| == |multiset(a)| && |b| == |multiset(b)|;
    forall p ensures p in a <==> p in b {
      assert p in a <==> p in multiset(a);
      assert p in b <==> p in multiset(b);
    }
  }

  lemma SameTail<T>(a: seq<T>, b: seq<T>)
    requires a != [] && b != [] && a[0] == b[0] && multiset(a) == multiset(b)
    ensures multiset(a[1..]) == multiset(b[1..])
  {
    assert a == [a[0]] + a[1..] && b == [b[0]] + b[1..];
    assert multiset(a[1..]) == multiset(a) - multiset{a[0]} && multiset(b[1..]) == multiset(b) - multiset{b[0]};
  }

  /** In how many places two sequences differ. */
  function Distance<T(==)>(u: seq<T>, v: seq<T>): nat
    requires |u| == |v|
  {
    if u == [] then 0 else (if u[0] != v[0] then 1 else 0) + Distance(u[1..], v[1..])
  }

  lemma {:induction false} ZeroDistance<T>(u: seq<T>, v: seq<T>)
    requires |u| == |v|
    ensures Distance(u, v) == 0 <==> u == v
  {
    if u == [] {
    } else {
      ZeroDistance(u[1..], v[1..]);
      assert u == [u[0]] + u[1..] && v == [v[0]] + v[1..];
    }
  }

  lemma {:induction false} Triangle<T>(u: seq<T>, w: seq<T>, v: seq<T>)
    requires |u| == |w| == |v|
    ensures Distance(u, v) <= Distance(w, u) + Distance(w, v)
  {
    if u == [] {
    } else {
      Triangle(u[1..], w[1..], v[1..]);
    }
  }

  lemma {:induction false} DistanceConcat<T>(u: seq<T>, v: seq<T>, w: seq<T>, z: seq<T>)
    requires |u| == |v| && |w| == |z|
    ensures Distance(u + w, v + z) == Distance(u, v) + Distance(w, z)
  {
    if u == [] {
      assert u + w == w && v + z == z;
    } else {
      assert (u + w)[1..] == u[1..] + w && (v + z)[1..] == v[1..] + z;
      DistanceConcat(u[1..], v[1..], w, z);
    }
  }
}
