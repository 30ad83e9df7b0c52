// Paths of a stage, as strings in byte order and as sequences of segments.
module StagePaths {
  import opened ByteOrder

  // The segments between the slashes.
  function Split(s: string): (r: seq<string>)
    ensures |r| > 0
  {
    if s == [] then [""]
    else
      var rest := Split(s[1..]);
      if s[0] == '/' then [""] + rest else [[s[0]] + rest[0]] + rest[1..]
  }

  function Join(p: seq<string>): string {
    if p == [] then "" else if |p| == 1 then p[0] else p[0] + "/" + Join(p[1..])
  }

  lemma {:induction false} JoinSplit(s: string)
    ensures Join(Split(s)) == s
  {
    if s != [] {
      JoinSplit(s[1..]);
      var rest := Split(s[1..]);
      assert s == [s[0]] + s[1..];
      if s[0] == '/' {
        assert Split(s)[1..] == rest;
      } else if |rest| > 1 {
        assert Split(s)[1..] == rest[1..];
      }
    }
  }

  lemma SplitInjective(s: string, t: string)
    requires Split(s) == Split(t)
    ensures s == t
  {
    JoinSplit(s);
    JoinSplit(t);
  }

  ghost predicate NoSlashes(p: seq<string>) {
    forall i | 0 <= i < |p| :: '/' !in p[i]
  }

  lemma {:induction false} SplitNoSlashes(s: string)
    ensures NoSlashes(Split(s))
  {
    if s != [] {
      SplitNoSlashes(s[1..]);
      var rest := Split(s[1..]);
      assert '/' !in rest[0];
    }
  }

  lemma {:induction false} SplitAfter(a: string, t: string)
    requires '/' !in a
    ensures Split(a + "/" + t) == [a] + Split(t)
  {
    var s := a + "/" + t;
    if a == [] {
      assert s[0] == '/' && s[1..] == t;
    } else {
      assert s[0] == a[0] && s[1..] == a[1..] + "/" + t;
      SplitAfter(a[1..], t);
      assert a == [a[0]] + a[1..];
    }
  }

  // What all paths below the directory p begin with.
  function DirPrefix(p: seq<string>): string {
    if p == [] then "" else p[0] + "/" + DirPrefix(p[1..])
  }

  // The path q lies below the directory p.
  predicate IsBelow(q: seq<string>, p: seq<string>) {
    |p| < |q| && q[..|p|] == p
  }

  lemma {:induction false} BelowMeansPrefix(s: string, p: seq<string>)
    requires IsBelow(Split(s), p)
    ensures DirPrefix(p) <= s
    decreases |p|
  {
    if p != [] {
      var q := Split(s);
      JoinSplit(s);
      var t := Join(q[1..]);
      assert s == q[0] + "/" + t;
      SplitNoSlashes(s);
      SplitAfter(q[0], t);
      assert Split(t) == q[1..];
      assert q[1..][..|p| - 1] == p[1..];
      BelowMeansPrefix(t, p[1..]);
      assert p[0] == q[0];
      assert s[|p[0] + "/"|..] == t;
    }
  }

  lemma {:induction false} PrefixMeansBelow(s: string, p: seq<string>)
    requires NoSlashes(p) && DirPrefix(p) <= s
    ensures IsBelow(Split(s), p)
  {
    if p != [] {
      var t := s[|p[0]| + 1..];
      assert s == p[0] + "/" + t;
      SplitAfter(p[0], t);
      PrefixMeansBelow(t, p[1..]);
      assert p == [p[0]] + p[1..];
    }
  }

  // Between two strings with a common prefix there are only strings with that prefix.
  lemma {:induction false} PrefixConvex(p: string, x: string, y: string, z: string)
    requires p <= x && p <= z && Less(x, y) && Less(y, z)
    ensures p <= y
  {
    if p != [] {
      assert x[0] == p[0] == z[0];
      PrefixConvex(p[1..], x[1..], y[1..], z[1..]);
      assert y == [y[0]] + y[1..];
    }
  }

  // In byte order, all paths below a directory come next to each other.
  lemma Contiguous(x: string, y: string, z: string, p: seq<string>)
    requires Less(x, y) && Less(y, z) && IsBelow(Split(x), p) && IsBelow(Split(z), p)
    ensures IsBelow(Split(y), p)
  {
    BelowMeansPrefix(x, p);
    BelowMeansPrefix(z, p);
    PrefixConvex(DirPrefix(p), x, y, z);
    SplitNoSlashes(x);
    assert NoSlashes(p) by {
      forall i | 0 <= i < |p| ensures '/' !in p[i] {
        assert p[i] == Split(x)[i];
      }
    }
    PrefixMeansBelow(y, p);
  }
}
