// Facts about finite sets, sequences and sums that several of the models share.
module Common {
  datatype Option<+T> = None | Some(value: T)

  /** The members of a sequence, as a set. */
  ghost function Elements<T>(q: seq<T>): set<T> {
    set x | x in q
  }

  /** Some member of a non-empty set; which one is left open. */
  lemma Pick<T>(s: set<T>) returns (x: T)
    requires s != {}
    ensures x in s
  {
    x :| x in s;
  }

  ghost predicate NoDuplicates<T>(q: seq<T>) {
    forall i, j :: 0 <= i < j < |q| ==> q[i] != q[j]
  }

  lemma SetsEqual(a: set<int>, b: set<int>)
    requires forall x :: x in a <==> x in b
    ensures a == b
  {
    forall x | x in a ensures x in b {}
    forall x | x in b ensures x in a {}
  }

  lemma MapsEqual<V>(a: map<int, V>, b: map<int, V>)
    requires forall k :: k in a <==> k in b
    requires forall k :: k in a && k in b ==> a[k] == b[k]
    ensures a == b
  {
    SetsEqual(a.Keys, b.Keys);
    forall k | k in a ensures a[k] == b[k] {}
  }

  lemma NoDuplicatesTail<T>(q: seq<T>)
    requires NoDuplicates(q) && q != []
    ensures NoDuplicates(q[1..])
    ensures forall x :: x in q[1..] <==> x in q && x != q[0]
  {
    forall x | x in q && x != q[0] ensures x in q[1..] {
      var i :| 0 <= i < |q| && q[i] == x;
      assert q[1..][i - 1] == x;
    }
  }

  lemma NoDuplicatesAppend<T>(p: seq<T>, q: seq<T>)
    requires NoDuplicates(p) && NoDuplicates(q) && forall x :: x in q ==> x !in p
    ensures NoDuplicates(p + q)
  {
    var r := p + q;
    forall i, j | 0 <= i < j < |r| ensures r[i] != r[j] {
      if i < |p| <= j {
        assert r[j] in q && r[i] in p;
      }
    }
  }

  lemma {:induction false} OccursOnce(q: seq<int>, x: int)
    requires NoDuplicates(q)
    ensures multiset(q)[x] == if x in q then 1 else 0
  {
    if q != [] {
      NoDuplicatesTail(q);
      OccursOnce(q[1..], x);
      assert q == [q[0]] + q[1..];
    }
  }

  /** Taking out the only occurrence of a member leaves exactly the other members. */
  lemma NoDuplicatesRemove<T>(q: seq<T>, i: nat)
    requires NoDuplicates(q) && i < |q|
    ensures var r := q[..i] + q[i + 1..];
            NoDuplicates(r) && forall x :: x in r <==> x in q && x != q[i]
  {
    var r := q[..i] + q[i + 1..];
    forall x | x in q && x != q[i] ensures x in r {
      var k :| 0 <= k < |q| && q[k] == x;
      assert r[if k < i then k else k - 1] == x;
    }
  }

  /** Where std::find or strchr finds x, or |q| when it does not occur. */
  function Find<T(==)>(q: seq<T>, x: T): (i: nat)
    ensures i <= |q| && (i < |q| ==> q[i] == x)
    ensures forall k :: 0 <= k < i ==> q[k] != x
  {
    if q == [] || q[0] == x then 0 else
      var i := Find(q[1..], x);
      assert forall k :: 0 < k < i + 1 ==> q[k] == q[1..][k - 1];
      i + 1
  }

  ghost function Without(q: seq<int>, x: int): seq<int> {
    var i := Find(q, x);
    if i < |q| then q[..i] + q[i + 1..] else q
  }

  /** Taking out x moves no other member back. */
  lemma WithoutMovesUp(q: seq<int>, x: int, p: nat) returns (p': nat)
    requires p < |q| && q[p] != x
    ensures p' <= p && p' < |Without(q, x)| && Without(q, x)[p'] == q[p]
  {
    var i := Find(q, x);
    hide Find;
    if p < i {
      p' := p;
    } else {
      assert i < p;
      p' := p - 1;
      assert (q[..i] + q[i + 1..])[p'] == q[i + 1..][p - i - 1];
    }
  }

  lemma WithoutMember(q: seq<int>, x: int)
    requires NoDuplicates(q)
    ensures NoDuplicates(Without(q, x))
    ensures forall y :: y in Without(q, x) <==> y in q && y != x
  {
    var i := Find(q, x);
    if i < |q| {
      NoDuplicatesRemove(q, i);
    } else {
      assert x !in q;
    }
  }

  lemma {:induction false} SubsetCardinality<T>(a: set<T>, b: set<T>)
    requires a <= b
    ensures |a| <= |b|
    ensures |a| == |b| ==> a == b
    decreases a
  {
    if a == {} {
    } else {
      var x :| x in a;
      SubsetCardinality(a - {x}, b - {x});
      assert b == (b - {x}) + {x};
      assert a == (a - {x}) + {x};
    }
  }

  /** An injective image has as many elements as its preimage. */
  lemma {:induction false} InjectiveImage<S, T>(xs: set<S>, ys: set<T>, f: S --> T)
    requires forall x :: x in xs ==> f.requires(x) && f(x) in ys
    requires forall x, x' :: x in xs && x' in xs && f(x) == f(x') ==> x == x'
    ensures |xs| <= |ys|
    decreases xs
  {
    if xs == {} {
    } else {
      var x :| x in xs;
      InjectiveImage(xs - {x}, ys - {f(x)}, f);
    }
  }

  lemma {:induction false} ElementsCardinality<T>(q: seq<T>)
    requires NoDuplicates(q)
    ensures |Elements(q)| == |q|
  {
    if q == [] {
    } else {
      ElementsCardinality(q[1..]);
      assert Elements(q) == {q[0]} + Elements(q[1..]);
      assert q[0] !in q[1..];
    }
  }

  ghost predicate Between(lo: int, i: int, hi: int) {
    lo <= i < hi
  }

  /** The integers lo, lo + 1, ..., hi - 1. */
  ghost function Range(lo: int, hi: int): (s: set<int>)
    ensures forall i :: i in s <==> lo <= i < hi
  {
    set i | lo <= i < hi && Between(lo, i, hi)
  }

  lemma {:induction false} RangeCardinality(lo: int, hi: int)
    requires lo <= hi
    ensures |Range(lo, hi)| == hi - lo
    decreases hi - lo
  {
    if lo < hi {
      RangeCardinality(lo, hi - 1);
      assert Range(lo, hi) == Range(lo, hi - 1) + {hi - 1};
    } else {
      assert Range(lo, hi) == {};
    }
  }

  // ---- the least member of a set, and a set in ascending order ----

  lemma {:induction false} LeastExists(s: set<int>)
    requires s != {}
    ensures exists m :: m in s && forall x :: x in s ==> m <= x
    decreases s
  {
    var x := Pick(s);
    var rest := s - {x};
    assert s == rest + {x};
    if rest != {} {
      LeastExists(rest);
      var m :| m in rest && forall y :: y in rest ==> m <= y;
      var least := if m < x then m else x;
      assert least in s && forall y :: y in s ==> least <= y;
    } else {
      assert x in s && forall y :: y in s ==> x <= y;
    }
  }

  function Least(s: set<int>): (m: int)
    requires s != {}
    ensures m in s && forall x :: x in s ==> m <= x
  {
    LeastExists(s);
    var m :| m in s && forall x :: x in s ==> m <= x;
    m
  }

  lemma LeastUnique(s: set<int>, m: int)
    requires m in s && forall x :: x in s ==> m <= x
    ensures Least(s) == m
  {
  }

  function Ascending(s: set<int>): (q: seq<int>)
    ensures forall x :: x in q <==> x in s
    ensures forall i, j :: 0 <= i < j < |q| ==> q[i] < q[j]
  {
    if s == {} then [] else
      var m := Least(s);
      var tail := Ascending(s - {m});
      assert forall x :: x in tail ==> m < x;
      [m] + tail
  }

  /** Adding a new greatest member appends it to the ascending enumeration. */
  lemma {:induction false} AscendingSnoc(s: set<int>, x: int)
    requires forall y :: y in s ==> y < x
    ensures Ascending(s + {x}) == Ascending(s) + [x]
    decreases s
  {
    if s == {} {
      assert s + {x} == {x};
      assert Least({x}) == x;
      assert {x} - {x} == {};
      assert Ascending({x}) == [x] + Ascending({});
    } else {
      var m := Least(s);
      assert Least(s + {x}) == m;
      assert (s + {x}) - {m} == (s - {m}) + {x};
      AscendingSnoc(s - {m}, x);
    }
  }

  // ---- sums over finite tables ----

  ghost function WeightAt<T>(m: map<int, T>, weight: T -> int, k: int): int {
    if k in m then weight(m[k]) else 0
  }

  /** The sum of the weights of all entries of m. */
  ghost function Sum<T>(m: map<int, T>, weight: T -> int): int
    decreases m.Keys
  {
    if m.Keys == {} then 0 else
      var k := Least(m.Keys);
      assert (m - {k}).Keys == m.Keys - {k};
      weight(m[k]) + Sum(m - {k}, weight)
  }

  lemma {:induction false} SumRemove<T>(m: map<int, T>, weight: T -> int, k: int)
    requires k in m
    ensures Sum(m, weight) == weight(m[k]) + Sum(m - {k}, weight)
    decreases m.Keys
  {
    var least := Least(m.Keys);
    if k != least {
      var rest := m - {least};
      assert rest.Keys == m.Keys - {least};
      SumRemove(rest, weight, k);
      var other := m - {k};
      assert other.Keys == m.Keys - {k};
      assert other.Keys != {} by {
        assert least in other.Keys;
      }
      LeastUnique(other.Keys, least);
      assert rest - {k} == other - {least};
    }
  }

  /** Tables that agree except at k have sums that differ by what they hold at k. */
  lemma SumDiffersAt<T>(a: map<int, T>, b: map<int, T>, weight: T -> int, k: int)
    requires a - {k} == b - {k}
    ensures Sum(b, weight) - Sum(a, weight) == WeightAt(b, weight, k) - WeightAt(a, weight, k)
  {
    if k in a {
      SumRemove(a, weight, k);
    } else {
      assert a - {k} == a;
    }
    if k in b {
      SumRemove(b, weight, k);
    } else {
      assert b - {k} == b;
    }
  }

  /** One more at k, and nothing else changed. */
  lemma SumGrowsAt<T>(a: map<int, T>, b: map<int, T>, weight: T -> int, k: int)
    requires k in a && k in b && a - {k} == b - {k} && weight(b[k]) == weight(a[k]) + 1
    ensures Sum(b, weight) == Sum(a, weight) + 1
  {
    SumDiffersAt(a, b, weight, k);
  }

  /** The table without its entry at the victim, if any. */
  ghost function WithoutVictim<T>(m: map<int, T>, victim: Option<int>): map<int, T> {
    if victim.Some? then m - {victim.value} else m
  }

  ghost function VictimWeight<T>(m: map<int, T>, weight: T -> int, victim: Option<int>): int {
    if victim.Some? then WeightAt(m, weight, victim.value) else 0
  }

  lemma VictimTakesItsWeight<T>(m: map<int, T>, weight: T -> int, victim: Option<int>)
    ensures Sum(WithoutVictim(m, victim), weight) + VictimWeight(m, weight, victim) == Sum(m, weight)
  {
    if victim.Some? {
      var rest := m - {victim.value};
      assert rest - {victim.value} == rest;
      SumDiffersAt(m, rest, weight, victim.value);
    }
  }
}
