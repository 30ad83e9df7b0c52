// The table of name pairs that both DFAMinimizer and jst-lock's bisimilar_repos fill: which pairs
// are known to be different, and for each pair the pairs that become different with it.
module PairMarking {
  import opened ByteOrder
  import opened Bisimulation

  datatype Pair = Pair(lo: string, hi: string)

  // Pairs are unordered: the smaller name comes first.
  function MkPair(a: string, b: string): Pair {
    if Less(a, b) then Pair(a, b) else Pair(b, a)
  }

  lemma MkPairSymmetric(a: string, b: string)
    ensures MkPair(a, b) == MkPair(b, a)
  {
    LessTotal(a, b);
  }

  // Which pairs are marked as different, and what to mark along with each pair.
  datatype Marks = Marks(marked: set<Pair>, parents: map<Pair, seq<Pair>>) {

    predicate PassedOn(p: Pair) {
      p in parents ==> forall q | q in parents[p] :: q in marked
    }

    // Every marked pair has passed its mark on.
    ghost predicate Propagated() {
      forall p | p in marked :: PassedOn(p)
    }

    // S is closed under passing marks on.
    ghost predicate Closed(S: iset<Pair>) {
      forall p, q | p in S && p in parents && q in parents[p] :: q in S
    }

    // next arises from this by marking pairs of S, each of which passes its mark on.
    ghost predicate Grows(next: Marks, S: iset<Pair>) {
      && next.parents == parents
      && marked <= next.marked
      && forall p | p in next.marked && p !in marked :: p in S && next.PassedOn(p)
    }

    function AllParents(): set<Pair> {
      set p, i | p in parents && 0 <= i < |parents[p]| :: parents[p][i]
    }

    function Register(p: Pair, q: Pair): Marks {
      this.(parents := parents[p := (if p in parents then parents[p] else []) + [q]])
    }
  }

  class PairTable {
    var marks: Marks

    constructor ()
      ensures marks == Marks({}, map[])
    {
      marks := Marks({}, map[]);
    }

    // Mark p and, recursively, all that depends on it. Nothing outside any closed set S that
    // contains p gets marked, so exactly the pairs reachable from p do.
    method MarkPairValue(p: Pair, ghost S: iset<Pair>)
      requires p in marks.marked ==> marks.PassedOn(p)
      requires p in S && marks.Closed(S)
      modifies this
      ensures old(marks).Grows(marks, S)
      ensures p in marks.marked && marks.PassedOn(p)
      decreases marks.AllParents() + {p} - marks.marked
    {
      marks := marks.(marked := marks.marked + {p});
      var ps := if p in marks.parents then marks.parents[p] else [];
      for i := 0 to |ps|
        invariant marks.parents == old(marks.parents)
        invariant old(marks.marked) + {p} <= marks.marked
        invariant forall j | 0 <= j < i :: ps[j] in marks.marked
        invariant forall q | q in marks.marked && q !in old(marks.marked) && q != p :: q in S && marks.PassedOn(q)
      {
        if ps[i] !in marks.marked {
          assert ps[i] in marks.AllParents();
          assert p !in marks.AllParents() + {ps[i]} - marks.marked;
          assert p in old(marks.AllParents() + {p} - marks.marked);
          MarkPairValue(ps[i], S);
        }
      }
    }

    // mark_as_different: a pair that is already marked is left alone.
    method MarkAsDifferent(p: Pair, ghost S: iset<Pair>)
      requires marks.Propagated()
      requires p in S && marks.Closed(S)
      modifies this
      ensures old(marks).Grows(marks, S)
      ensures p in marks.marked && marks.Propagated()
    {
      if p !in marks.marked {
        MarkPairValue(p, S);
      }
    }

    // If p ever gets marked, so shall q.
    method RegisterDependency(p: Pair, q: Pair)
      modifies this
      ensures marks == old(marks).Register(p, q)
    {
      marks := marks.Register(p, q);
    }
  }

  // p has equal content and labels at both ends, and every pair of successors is equal or in E.
  ghost predicate LocallyEqual<C, E>(sys: System<C, E, string>, p: Pair) {
    && p.lo in sys && p.hi in sys
    && sys[p.lo].content == sys[p.hi].content
    && sys[p.lo].next.Keys == sys[p.hi].next.Keys
  }

  function Successor<C, E>(sys: System<C, E, string>, p: Pair, e: E): Pair
    requires p.lo in sys && p.hi in sys && e in sys[p.lo].next && e in sys[p.hi].next
  {
    MkPair(sys[p.lo].next[e], sys[p.hi].next[e])
  }

  ghost predicate Distinct<C, E>(sys: System<C, E, string>, p: Pair) {
    !Indistinguishable(sys, p.lo, p.hi)
  }

  ghost function DistinctPairs<C, E>(sys: System<C, E, string>): iset<Pair> {
    iset p | Distinct(sys, p)
  }

  // D contains the locally different pairs, and each pair with a successor pair in D.
  ghost predicate IsDifference<C, E(!new)>(sys: System<C, E, string>, D: iset<Pair>) {
    && (forall p: Pair | p.lo != p.hi && !LocallyEqual(sys, p) :: p in D)
    && (forall p: Pair, e: E | p.lo in sys && p.hi in sys && e in sys[p.lo].next && e in sys[p.hi].next
          && Successor(sys, p, e) in D :: p in D)
  }

  // Distinctness is the least such set. First: it is one.
  lemma DistinctIsDifference<C, E(!new)>(sys: System<C, E, string>)
    ensures IsDifference(sys, DistinctPairs(sys))
  {
    forall p: Pair | p.lo != p.hi && !LocallyEqual(sys, p) ensures Distinct(sys, p) {
      assert !Same(1, sys, p.lo, p.hi);
    }
    forall p: Pair, e: E | p.lo in sys && p.hi in sys && e in sys[p.lo].next && e in sys[p.hi].next
      && Distinct(sys, Successor(sys, p, e))
      ensures Distinct(sys, p)
    {
      DistinctBySuccessor(sys, p, e);
    }
  }

  lemma DistinctBySuccessor<C, E>(sys: System<C, E, string>, p: Pair, e: E)
    requires p.lo in sys && p.hi in sys && e in sys[p.lo].next && e in sys[p.hi].next
    requires Distinct(sys, Successor(sys, p, e))
    ensures Distinct(sys, p)
  {
    var s := Successor(sys, p, e);
    var k: nat :| !Same(k, sys, s.lo, s.hi);
    if Same(k + 1, sys, p.lo, p.hi) {
      var a, b := sys[p.lo].next[e], sys[p.hi].next[e];
      assert Same(k, sys, a, b);
      SameSymmetric(k, sys, a, b);
    }
  }

  // E is closed the other way round: its members are locally equal and have successors in E.
  ghost predicate Consistent<C, E(!new)>(sys: System<C, E, string>, eq: set<Pair>) {
    forall p | p in eq ::
      && LocallyEqual(sys, p)
      && forall e | e in sys[p.lo].next ::
           sys[p.lo].next[e] == sys[p.hi].next[e] || Successor(sys, p, e) in eq
  }

  // Second: whatever escapes both rules is indistinguishable.
  lemma {:induction false} ConsistentSame<C, E(!new)>(k: nat, sys: System<C, E, string>, eq: set<Pair>, p: Pair)
    requires Consistent(sys, eq) && p in eq
    ensures Same(k, sys, p.lo, p.hi)
  {
    if k > 0 {
      forall e | e in sys[p.lo].next ensures Same(k - 1, sys, sys[p.lo].next[e], sys[p.hi].next[e]) {
        var a, b := sys[p.lo].next[e], sys[p.hi].next[e];
        if a != b {
          ConsistentSame(k - 1, sys, eq, MkPair(a, b));
          if MkPair(a, b) == Pair(b, a) {
            SameSymmetric(k - 1, sys, b, a);
          }
        }
      }
    }
  }

  lemma ConsistentIndistinguishable<C, E(!new)>(sys: System<C, E, string>, eq: set<Pair>)
    requires Consistent(sys, eq)
    ensures forall p | p in eq :: !Distinct(sys, p)
  {
    forall p, k: nat | p in eq ensures Same(k, sys, p.lo, p.hi) {
      ConsistentSame(k, sys, eq, p);
    }
  }

  // What is recorded about an edge of the pair p, leading to x and y, once it has been looked at:
  // x and y are equal, or an unmarked pair that would pass its mark on to p.
  ghost predicate EdgeSettled(pairs: set<Pair>, t: Marks, p: Pair, x: string, y: string) {
    x == y || (
      var s := MkPair(x, y);
      s in pairs && s !in t.marked && s in t.parents && p in t.parents[s])
  }

  // p is locally equal, and its edges with labels in labels have been looked at, unless it is marked.
  ghost predicate Settled<C, E>(sys: System<C, E, string>, pairs: set<Pair>, t: Marks, p: Pair, labels: seq<E>) {
    p in t.marked || (
      && LocallyEqual(sys, p)
      && forall e | e in labels && e in sys[p.lo].next ::
            EdgeSettled(pairs, t, p, sys[p.lo].next[e], sys[p.hi].next[e]))
  }

  // All edges of all pairs in visited have been looked at.
  ghost predicate AllSettled<C, E>(sys: System<C, E, string>, pairs: set<Pair>, t: Marks, visited: set<Pair>) {
    forall p | p in visited && p !in t.marked ::
      && LocallyEqual(sys, p)
      && forall e | e in sys[p.lo].next :: EdgeSettled(pairs, t, p, sys[p.lo].next[e], sys[p.hi].next[e])
  }

  // Marks and dependencies are only ever added, and marks get passed on.
  ghost predicate Evolves(t: Marks, t': Marks) {
    && t.marked <= t'.marked
    && t'.Propagated()
    && forall p | p in t.parents :: p in t'.parents && forall q | q in t.parents[p] :: q in t'.parents[p]
  }

  // Settled edges stay settled.
  lemma EdgeKept(pairs: set<Pair>, t: Marks, t': Marks, p: Pair, x: string, y: string)
    requires EdgeSettled(pairs, t, p, x, y) && Evolves(t, t')
    ensures p in t'.marked || EdgeSettled(pairs, t', p, x, y)
  {
    var s := MkPair(x, y);
    assert s in t'.marked ==> t'.PassedOn(s);
  }

  lemma SettledKept<C, E>(sys: System<C, E, string>, pairs: set<Pair>, t: Marks, t': Marks, p: Pair, labels: seq<E>)
    requires Settled(sys, pairs, t, p, labels) && Evolves(t, t')
    ensures Settled(sys, pairs, t', p, labels)
  {
    if p !in t'.marked {
      forall e | e in labels && e in sys[p.lo].next
          ensures EdgeSettled(pairs, t', p, sys[p.lo].next[e], sys[p.hi].next[e])
      {
        EdgeKept(pairs, t, t', p, sys[p.lo].next[e], sys[p.hi].next[e]);
      }
    }
  }

  lemma AllSettledKept<C, E>(sys: System<C, E, string>, pairs: set<Pair>, t: Marks, t': Marks, visited: set<Pair>)
    requires AllSettled(sys, pairs, t, visited) && Evolves(t, t')
    ensures AllSettled(sys, pairs, t', visited)
  {
    forall p, e | p in visited && p !in t'.marked && e in sys[p.lo].next
      ensures EdgeSettled(pairs, t', p, sys[p.lo].next[e], sys[p.hi].next[e])
    {
      EdgeKept(pairs, t, t', p, sys[p.lo].next[e], sys[p.hi].next[e]);
    }
  }

  // Only pairs of D are marked, and they alone pass marks on.
  ghost predicate Sound(t: Marks, D: iset<Pair>) {
    && t.Propagated()
    && t.Closed(D)
    && forall p | p in t.marked :: p in D
  }

  lemma SoundKept(t: Marks, t': Marks, D: iset<Pair>)
    requires Sound(t, D) && t.Grows(t', D)
    ensures Sound(t', D) && Evolves(t, t')
  {
    forall p | p in t'.marked ensures t'.PassedOn(p) {
      assert p in t.marked ==> t.PassedOn(p);
    }
  }

  lemma SoundRegister(t: Marks, p: Pair, q: Pair, D: iset<Pair>)
    requires Sound(t, D) && p !in t.marked
    requires p in D ==> q in D
    ensures Sound(t.Register(p, q), D) && Evolves(t, t.Register(p, q))
  {
    var t' := t.Register(p, q);
    forall x | x in t'.marked ensures t'.PassedOn(x) {
      assert t.PassedOn(x);
    }
  }

  // When every pair is settled, the marks are exactly the distinct pairs.
  lemma MarksAreDistinctPairs<C, E(!new)>(sys: System<C, E, string>, pairs: set<Pair>, t: Marks)
    requires Sound(t, DistinctPairs(sys)) && AllSettled(sys, pairs, t, pairs)
    ensures forall p | p in pairs :: p in t.marked <==> Distinct(sys, p)
  {
    var eq := pairs - t.marked;
    forall p, e | p in eq && e in sys[p.lo].next
      ensures sys[p.lo].next[e] == sys[p.hi].next[e] || Successor(sys, p, e) in eq
    {
      assert EdgeSettled(pairs, t, p, sys[p.lo].next[e], sys[p.hi].next[e]);
    }
    ConsistentIndistinguishable(sys, eq);
  }

  // ---- Indistinguishability as a relation on names ----

  type Relation = iset<(string, string)>

  ghost predicate IsEquivalence(R: Relation) {
    && (forall a :: (a, a) in R)
    && (forall a, b | (a, b) in R :: (b, a) in R)
    && (forall a, b, c | (a, b) in R && (b, c) in R :: (a, c) in R)
  }

  ghost function Alike<C, E>(sys: System<C, E, string>): Relation {
    iset a, b | Indistinguishable(sys, a, b) :: (a, b)
  }

  lemma AlikeIsEquivalence<C, E>(sys: System<C, E, string>)
    ensures IsEquivalence(Alike(sys))
  {
    forall a, b | (a, b) in Alike(sys)
      ensures (b, a) in Alike(sys) && forall c | (b, c) in Alike(sys) :: (a, c) in Alike(sys)
    {
      IndistinguishableEquivalence(sys, a, b);
    }
  }

  // Two different states with a decided pair are alike exactly if the pair is unmarked.
  lemma UnmarkedIsAlike<C, E>(sys: System<C, E, string>, pairs: set<Pair>, marked: set<Pair>, n: string, m: string)
    requires forall p | p in pairs :: p in marked <==> Distinct(sys, p)
    requires n != m && MkPair(n, m) in pairs
    ensures (n, m) in Alike(sys) <==> MkPair(n, m) !in marked
  {
    var p := MkPair(n, m);
    if Indistinguishable(sys, n, m) {
      IndistinguishableEquivalence(sys, n, m);
    } else if Indistinguishable(sys, p.lo, p.hi) {
      IndistinguishableEquivalence(sys, p.lo, p.hi);
    }
  }
}
