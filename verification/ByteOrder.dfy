// Lexicographic order on names, as std::map<std::string, ...> and Python's sorted() use it,
// and the sorted listing of a set of names. Characters stand for bytes.
module ByteOrder {

  predicate Less(a: string, b: string) {
    b != [] && (a == [] || a[0] < b[0] || (a[0] == b[0] && Less(a[1..], b[1..])))
  }

  lemma {:induction false} LessTransitive(a: string, b: string, c: string)
    requires Less(a, b) && Less(b, c)
    ensures Less(a, c)
  {
    if a != [] && a[0] == b[0] == c[0] {
      LessTransitive(a[1..], b[1..], c[1..]);
    }
  }

  lemma {:induction false} LessTotal(a: string, b: string)
    ensures a == b || Less(a, b) || Less(b, a)
    ensures !(Less(a, b) && Less(b, a))
    ensures !Less(a, a)
  {
    if a != [] {
      if b != [] {
        assert a == [a[0]] + a[1..] && b == [b[0]] + b[1..];
        LessTotal(a[1..], b[1..]);
      }
      LessTotal(a[1..], a[1..]);
    }
  }

  ghost predicate StrictlySorted(r: seq<string>) {
    forall i, j | 0 <= i < j < |r| :: Less(r[i], r[j])
  }

  predicate IsLeast(m: string, s: set<string>) {
    m in s && forall x | x in s :: x == m || Less(m, x)
  }

  lemma {:induction false} LeastExists(s: set<string>) returns (m: string)
    requires s != {}
    ensures IsLeast(m, s)
  {
    var x :| x in s;
    m := x;
    if s != {x} {
      assert s - {x} != {};
      var y := LeastExists(s - {x});
      LessTotal(x, y);
      m := if Less(x, y) then x else y;
      forall z | z in s ensures z == m || Less(m, z) {
        if z != x && z != y && m == x {
          LessTransitive(x, y, z);
        }
      }
    }
  }

  lemma LeastUnique(s: set<string>)
    ensures forall m, m' | IsLeast(m, s) && IsLeast(m', s) :: m == m'
  {
    forall m, m' | IsLeast(m, s) && IsLeast(m', s) ensures m == m' {
      LessTotal(m, m');
    }
  }

  function Least(s: set<string>): (m: string)
    requires s != {}
    ensures IsLeast(m, s)
  {
    assert exists m :: IsLeast(m, s) by {
      var m := LeastExists(s);
    }
    LeastUnique(s);
    var m :| m in s && IsLeast(m, s);
    m
  }

  // The members of s in increasing order.
  function Sorted(s: set<string>): (r: seq<string>)
    ensures StrictlySorted(r)
    ensures forall x :: x in r <==> x in s
    ensures |r| == |s|
  {
    if s == {} then [] else
      var m := Least(s);
      var rest := Sorted(s - {m});
      assert forall i | 0 <= i < |rest| :: rest[i] in s - {m};
      [m] + rest
  }

  // A strictly sorted listing is determined by its members.
  lemma {:induction false} SortedUnique(r: seq<string>, q: seq<string>)
    requires StrictlySorted(r) && StrictlySorted(q)
    requires forall x :: x in r <==> x in q
    ensures r == q
  {
    assert (r != [] ==> r[0] in r) && (q != [] ==> q[0] in q);
    if r != [] {
      assert r[0] in q;
      assert q[0] in r;
      LessTotal(r[0], q[0]);
      assert r[0] == q[0];
      forall x ensures x in r[1..] <==> x in q[1..] {
        LessTotal(r[0], x);
        if x in r[1..] { assert x in r && x != r[0]; }
        if x in q[1..] { assert x in q && x != q[0]; }
      }
      SortedUnique(r[1..], q[1..]);
    }
  }
}
