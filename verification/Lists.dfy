/** The intrusive lists of the allocators, each as the sequence of its members. */
module Lists {
  import opened Pigeonhole

  /** kdlist_delete: x leaves the list that it is linked into. */
  function Unlinked<T(==)>(s: seq<T>, x: T): seq<T> {
    if s == [] then [] else if s[0] == x then s[1..] else [s[0]] + Unlinked(s[1..], x)
  }

  lemma DistinctCons<T>(h: T, t: seq<T>)
    ensures Distinct([h] + t) <==> h !in t && Distinct(t)
  {
    var l := [h] + t;
    assert l[1..] == t && forall i | 0 <= i < |t| :: l[i + 1] == t[i];
    if Distinct(l) {
      forall i | 0 <= i < |t| ensures t[i] != h { assert l[0] != l[i + 1]; }
      forall i, j | 0 <= i < j < |t| ensures t[i] != t[j] { assert l[i + 1] != l[j + 1]; }
    }
  }

  lemma DistinctSnoc<T>(t: seq<T>, x: T)
    ensures Distinct(t) && x !in t ==> Distinct(t + [x])
  {
  }

  /** The other members stay, once each. */
  lemma {:induction false} UnlinkedHas<T>(s: seq<T>, x: T)
    requires Distinct(s)
    ensures Distinct(Unlinked(s, x))
    ensures forall y :: y in Unlinked(s, x) <==> y in s && y != x
  {
    if s == [] {
    } else {
      var h, t := s[0], s[1..];
      assert s == [h] + t;
      DistinctCons(h, t);
      UnlinkedHas(t, x);
      DistinctCons(h, Unlinked(t, x));
    }
  }

  lemma {:induction false} UnlinkedAbsent<T>(s: seq<T>, x: T)
    requires x !in s
    ensures Unlinked(s, x) == s
  {
    if s == [] {
    } else {
      assert s == [s[0]] + s[1..];
      UnlinkedAbsent(s[1..], x);
    }
  }

  /** The other members keep their order. */
  lemma {:induction false} UnlinkedSplit<T>(a: seq<T>, x: T, b: seq<T>)
    requires x !in a
    ensures Unlinked(a + [x] + b, x) == a + b
  {
    if a == [] {
      assert a + [x] + b == [x] + b && [] + b == b;
    } else {
      assert (a + [x] + b)[1..] == a[1..] + [x] + b;
      UnlinkedSplit(a[1..], x, b);
      assert [a[0]] + (a[1..] + b) == a + b;
    }
  }
}
