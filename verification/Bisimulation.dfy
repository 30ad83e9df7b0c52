// Bisimulation of deterministic labelled systems: a state has a content and, for each of its
// edge labels, the name of the state reached. Repositories are such states: the base description
// is the content and the bindings are the edges.
module Bisimulation {

  datatype State<C, E(==), N> = State(content: C, next: map<E, N>)

  type System<C, E(==), N(==)> = map<N, State<C, E, N>>

  // Within one system: a and b cannot be told apart in k steps. A name without a state is
  // indistinguishable from itself only.
  ghost predicate Same<C, E, N>(k: nat, sys: System<C, E, N>, a: N, b: N) {
    || a == b
    || k == 0
    || (&& a in sys && b in sys
        && sys[a].content == sys[b].content
        && sys[a].next.Keys == sys[b].next.Keys
        && forall e | e in sys[a].next :: Same(k - 1, sys, sys[a].next[e], sys[b].next[e]))
  }

  ghost predicate Indistinguishable<C, E, N>(sys: System<C, E, N>, a: N, b: N) {
    forall k: nat :: Same(k, sys, a, b)
  }

  // Across two systems: both have the same unfolding, k steps deep. In particular no missing
  // name is met on the way.
  ghost predicate Sim<C, E, N, M>(k: nat, A: System<C, E, N>, a: N, B: System<C, E, M>, b: M) {
    || k == 0
    || (&& a in A && b in B
        && A[a].content == B[b].content
        && A[a].next.Keys == B[b].next.Keys
        && forall e | e in A[a].next :: Sim(k - 1, A, A[a].next[e], B, B[b].next[e]))
  }

  ghost predicate Bisimilar<C, E, N, M>(A: System<C, E, N>, a: N, B: System<C, E, M>, b: M) {
    forall k: nat :: Sim(k, A, a, B, b)
  }

  // Both are states, of equal content and with equal labels, leading to related successors.
  ghost predicate Agree<C, E, N, M>(A: System<C, E, N>, a: N, B: System<C, E, M>, b: M, R: iset<(N, M)>) {
    && a in A && b in B
    && A[a].content == B[b].content
    && A[a].next.Keys == B[b].next.Keys
    && forall e | e in A[a].next :: (A[a].next[e], B[b].next[e]) in R
  }

  // The textbook definition: a relation is a bisimulation if related states agree.
  ghost predicate IsBisimulation<C, E, N, M>(A: System<C, E, N>, B: System<C, E, M>, R: iset<(N, M)>) {
    forall p | p in R :: Agree(A, p.0, B, p.1, R)
  }

  lemma {:induction false} BisimulationSim<C, E, N, M>(k: nat, A: System<C, E, N>, B: System<C, E, M>,
                                                       R: iset<(N, M)>, p: (N, M))
    requires IsBisimulation(A, B, R) && p in R
    ensures Sim(k, A, p.0, B, p.1)
  {
    if k > 0 {
      forall e | e in A[p.0].next ensures Sim(k - 1, A, A[p.0].next[e], B, B[p.1].next[e]) {
        BisimulationSim(k - 1, A, B, R, (A[p.0].next[e], B[p.1].next[e]));
      }
    }
  }

  // Bisimilar is the greatest bisimulation.
  lemma BisimilarIffRelated<C(!new), E(!new), N(!new), M(!new)>(A: System<C, E, N>, a: N, B: System<C, E, M>, b: M)
    ensures Bisimilar(A, a, B, b) <==> exists R: iset<(N, M)> :: IsBisimulation(A, B, R) && (a, b) in R
  {
    var R := iset n: N, m: M | Bisimilar(A, n, B, m) :: (n, m);
    forall p | p in R ensures Agree(A, p.0, B, p.1, R) {
      BisimilarStep(A, p.0, B, p.1);
    }
    assert IsBisimulation(A, B, R);
    if R: iset<(N, M)> :| IsBisimulation(A, B, R) && (a, b) in R {
      forall k: nat ensures Sim(k, A, a, B, b) {
        BisimulationSim(k, A, B, R, (a, b));
      }
    }
  }

  // One step of a bisimilar pair.
  lemma BisimilarStep<C, E, N, M>(A: System<C, E, N>, a: N, B: System<C, E, M>, b: M)
    requires Bisimilar(A, a, B, b)
    ensures a in A && b in B && A[a].content == B[b].content && A[a].next.Keys == B[b].next.Keys
    ensures forall e | e in A[a].next :: Bisimilar(A, A[a].next[e], B, B[b].next[e])
  {
    assert Sim(1, A, a, B, b);
    forall e, k: nat | e in A[a].next ensures Sim(k, A, A[a].next[e], B, B[b].next[e]) {
      assert Sim(k + 1, A, a, B, b);
    }
  }

  // ---- The same with excuses ----

  // Pairs in X need not agree.
  ghost predicate SimUpTo<C, E, N, M>(k: nat, A: System<C, E, N>, a: N, B: System<C, E, M>, b: M, X: iset<(N, M)>) {
    || (a, b) in X
    || k == 0
    || (&& a in A && b in B
        && A[a].content == B[b].content
        && A[a].next.Keys == B[b].next.Keys
        && forall e | e in A[a].next :: SimUpTo(k - 1, A, A[a].next[e], B, B[b].next[e], X))
  }

  ghost predicate BisimilarUpTo<C, E, N, M>(A: System<C, E, N>, a: N, B: System<C, E, M>, b: M, X: iset<(N, M)>) {
    forall k: nat :: SimUpTo(k, A, a, B, b, X)
  }

  ghost predicate IsBisimulationUpTo<C, E, N, M>(A: System<C, E, N>, B: System<C, E, M>, X: iset<(N, M)>,
                                                 R: iset<(N, M)>)
  {
    forall p | p in R :: p in X || Agree(A, p.0, B, p.1, R)
  }

  ghost predicate RelatedUpTo<C, E, N(!new), M(!new)>(A: System<C, E, N>, a: N, B: System<C, E, M>, b: M,
                                                      X: iset<(N, M)>)
  {
    exists R: iset<(N, M)> :: IsBisimulationUpTo(A, B, X, R) && (a, b) in R
  }

  lemma {:induction false} RelatedSim<C, E, N, M>(k: nat, A: System<C, E, N>, B: System<C, E, M>, X: iset<(N, M)>,
                                                  R: iset<(N, M)>, p: (N, M))
    requires IsBisimulationUpTo(A, B, X, R) && p in R
    ensures SimUpTo(k, A, p.0, B, p.1, X)
  {
    if k > 0 && p !in X {
      assert Agree(A, p.0, B, p.1, R);
      forall e | e in A[p.0].next ensures SimUpTo(k - 1, A, A[p.0].next[e], B, B[p.1].next[e], X) {
        RelatedSim(k - 1, A, B, X, R, (A[p.0].next[e], B[p.1].next[e]));
      }
    }
  }

  lemma UpToStep<C, E, N, M>(A: System<C, E, N>, a: N, B: System<C, E, M>, b: M, X: iset<(N, M)>, R: iset<(N, M)>)
    requires BisimilarUpTo(A, a, B, b, X) && (a, b) !in X
    requires forall n, m | BisimilarUpTo(A, n, B, m, X) :: (n, m) in R
    ensures Agree(A, a, B, b, R)
  {
    assert SimUpTo(1, A, a, B, b, X);
    forall e | e in A[a].next ensures (A[a].next[e], B[b].next[e]) in R {
      forall k: nat ensures SimUpTo(k, A, A[a].next[e], B, B[b].next[e], X) {
        assert SimUpTo(k + 1, A, a, B, b, X);
      }
    }
  }

  lemma UpToIffRelated<C(!new), E(!new), N(!new), M(!new)>(A: System<C, E, N>, a: N, B: System<C, E, M>, b: M,
                                                           X: iset<(N, M)>)
    ensures BisimilarUpTo(A, a, B, b, X) <==> RelatedUpTo(A, a, B, b, X)
  {
    var R := iset n: N, m: M | BisimilarUpTo(A, n, B, m, X) :: (n, m);
    forall p | p in R && p !in X ensures Agree(A, p.0, B, p.1, R) {
      UpToStep(A, p.0, B, p.1, X, R);
    }
    assert IsBisimulationUpTo(A, B, X, R);
    if Q: iset<(N, M)> :| IsBisimulationUpTo(A, B, X, Q) && (a, b) in Q {
      forall k: nat ensures SimUpTo(k, A, a, B, b, X) {
        RelatedSim(k, A, B, X, Q, (a, b));
      }
    }
  }

  // Names are excused that are equal.
  lemma {:induction false} SameIsUpTo<C, E, N>(k: nat, sys: System<C, E, N>, a: N, b: N, X: iset<(N, N)>)
    requires forall n, m :: (n, m) in X <==> n == m
    ensures Same(k, sys, a, b) <==> SimUpTo(k, sys, a, sys, b, X)
  {
    if k > 0 && a != b && a in sys && b in sys && sys[a].next.Keys == sys[b].next.Keys {
      forall e | e in sys[a].next
        ensures Same(k - 1, sys, sys[a].next[e], sys[b].next[e])
            <==> SimUpTo(k - 1, sys, sys[a].next[e], sys, sys[b].next[e], X)
      {
        SameIsUpTo(k - 1, sys, sys[a].next[e], sys[b].next[e], X);
      }
    }
  }

  lemma IndistinguishableIffRelated<C(!new), E(!new), N(!new)>(sys: System<C, E, N>, a: N, b: N, X: iset<(N, N)>)
    requires forall n, m :: (n, m) in X <==> n == m
    ensures Indistinguishable(sys, a, b) <==> RelatedUpTo(sys, a, sys, b, X)
  {
    hide RelatedUpTo;
    forall k: nat ensures Same(k, sys, a, b) <==> SimUpTo(k, sys, a, sys, b, X) {
      SameIsUpTo(k, sys, a, b, X);
    }
    UpToIffRelated(sys, a, sys, b, X);
  }

  lemma {:induction false} SameSymmetric<C, E, N>(k: nat, sys: System<C, E, N>, a: N, b: N)
    requires Same(k, sys, a, b)
    ensures Same(k, sys, b, a)
  {
    if a != b && k > 0 {
      forall e | e in sys[a].next ensures Same(k - 1, sys, sys[b].next[e], sys[a].next[e]) {
        SameSymmetric(k - 1, sys, sys[a].next[e], sys[b].next[e]);
      }
    }
  }

  lemma {:induction false} SameTransitive<C, E, N>(k: nat, sys: System<C, E, N>, a: N, b: N, c: N)
    requires Same(k, sys, a, b) && Same(k, sys, b, c)
    ensures Same(k, sys, a, c)
  {
    if a != b && b != c && k > 0 {
      forall e | e in sys[a].next ensures Same(k - 1, sys, sys[a].next[e], sys[c].next[e]) {
        SameTransitive(k - 1, sys, sys[a].next[e], sys[b].next[e], sys[c].next[e]);
      }
    }
  }

  lemma IndistinguishableEquivalence<C, E, N>(sys: System<C, E, N>, a: N, b: N)
    requires Indistinguishable(sys, a, b)
    ensures Indistinguishable(sys, b, a)
    ensures forall c | Indistinguishable(sys, b, c) :: Indistinguishable(sys, a, c)
  {
    forall k: nat ensures Same(k, sys, b, a) {
      SameSymmetric(k, sys, a, b);
    }
    forall c, k: nat | Indistinguishable(sys, b, c) ensures Same(k, sys, a, c) {
      SameTransitive(k, sys, a, b, c);
    }
  }

  // Replacing a state by an indistinguishable one does not change what it is bisimilar to.
  lemma {:induction false} SameSim<C, E, N, M>(k: nat, A: System<C, E, N>, a: N, a': N, B: System<C, E, M>, b: M)
    requires Same(k, A, a, a') && Sim(k, A, a', B, b)
    ensures Sim(k, A, a, B, b)
  {
    if k > 0 && a != a' {
      forall e | e in A[a].next ensures Sim(k - 1, A, A[a].next[e], B, B[b].next[e]) {
        SameSim(k - 1, A, A[a].next[e], A[a'].next[e], B, B[b].next[e]);
      }
    }
  }

  lemma IndistinguishableBisimilar<C, E, N, M>(A: System<C, E, N>, a: N, a': N, B: System<C, E, M>, b: M)
    requires Indistinguishable(A, a, a') && Bisimilar(A, a', B, b)
    ensures Bisimilar(A, a, B, b)
  {
    forall k: nat ensures Sim(k, A, a, B, b) {
      SameSim(k, A, a, a', B, b);
    }
  }

  // Two states bisimilar to a common one are indistinguishable.
  lemma {:induction false} SimSame<C, E, N, M>(k: nat, A: System<C, E, N>, a: N, a': N, B: System<C, E, M>, b: M)
    requires Sim(k, A, a, B, b) && Sim(k, A, a', B, b)
    ensures Same(k, A, a, a')
  {
    if k > 0 {
      forall e | e in A[a].next ensures Same(k - 1, A, A[a].next[e], A[a'].next[e]) {
        SimSame(k - 1, A, A[a].next[e], A[a'].next[e], B, B[b].next[e]);
      }
    }
  }

  lemma BisimilarSame<C, E, N, M>(A: System<C, E, N>, a: N, a': N, B: System<C, E, M>, b: M)
    requires Bisimilar(A, a, B, b) && Bisimilar(A, a', B, b)
    ensures Indistinguishable(A, a, a')
  {
    forall k: nat ensures Same(k, A, a, a') {
      SimSame(k, A, a, a', B, b);
    }
  }

  lemma {:induction false} SimSymmetric<C, E, N, M>(k: nat, A: System<C, E, N>, a: N, B: System<C, E, M>, b: M)
    requires Sim(k, A, a, B, b)
    ensures Sim(k, B, b, A, a)
  {
    if k > 0 {
      forall e | e in A[a].next ensures Sim(k - 1, B, B[b].next[e], A, A[a].next[e]) {
        SimSymmetric(k - 1, A, A[a].next[e], B, B[b].next[e]);
      }
    }
  }

  lemma {:induction false} SimTransitive<C, E, N, M, L>(k: nat, A: System<C, E, N>, a: N, B: System<C, E, M>, b: M,
                                                        D: System<C, E, L>, d: L)
    requires Sim(k, A, a, B, b) && Sim(k, B, b, D, d)
    ensures Sim(k, A, a, D, d)
  {
    if k > 0 {
      forall e | e in A[a].next ensures Sim(k - 1, A, A[a].next[e], D, D[d].next[e]) {
        SimTransitive(k - 1, A, A[a].next[e], B, B[b].next[e], D, D[d].next[e]);
      }
    }
  }

  lemma BisimilarSymmetric<C, E, N, M>(A: System<C, E, N>, a: N, B: System<C, E, M>, b: M)
    requires Bisimilar(A, a, B, b)
    ensures Bisimilar(B, b, A, a)
  {
    forall k: nat ensures Sim(k, B, b, A, a) {
      SimSymmetric(k, A, a, B, b);
    }
  }

  lemma BisimilarTransitive<C, E, N, M, L>(A: System<C, E, N>, a: N, B: System<C, E, M>, b: M, D: System<C, E, L>, d: L)
    requires Bisimilar(A, a, B, b) && Bisimilar(B, b, D, d)
    ensures Bisimilar(A, a, D, d)
  {
    forall k: nat ensures Sim(k, A, a, D, d) {
      SimTransitive(k, A, a, B, b, D, d);
    }
  }

  // A state is bisimilar to itself exactly when no missing name can be reached from it.
  ghost predicate Complete<C, E, N>(k: nat, sys: System<C, E, N>, a: N) {
    k == 0 || (a in sys && forall e | e in sys[a].next :: Complete(k - 1, sys, sys[a].next[e]))
  }

  lemma {:induction false} CompleteSim<C, E, N>(k: nat, sys: System<C, E, N>, a: N)
    ensures Complete(k, sys, a) <==> Sim(k, sys, a, sys, a)
  {
    if k > 0 && a in sys {
      forall e | e in sys[a].next
        ensures Complete(k - 1, sys, sys[a].next[e]) <==> Sim(k - 1, sys, sys[a].next[e], sys, sys[a].next[e])
      {
        CompleteSim(k - 1, sys, sys[a].next[e]);
      }
    }
  }

  // M shows no more of the states than A does.
  ghost predicate IsCoarser<C, D, E, N>(A: System<C, E, N>, M: System<D, E, N>) {
    && M.Keys == A.Keys
    && (forall a | a in A :: M[a].next == A[a].next)
    && (forall a, b | a in A && b in A && A[a].content == A[b].content :: M[a].content == M[b].content)
  }

  lemma {:induction false} CoarserSame<C, D, E, N>(k: nat, A: System<C, E, N>, M: System<D, E, N>, a: N, b: N)
    requires IsCoarser(A, M) && Same(k, A, a, b)
    ensures Same(k, M, a, b)
  {
    if k > 0 && a != b {
      forall e | e in A[a].next ensures Same(k - 1, M, A[a].next[e], A[b].next[e]) {
        CoarserSame(k - 1, A, M, A[a].next[e], A[b].next[e]);
      }
    }
  }

  lemma IndistinguishableStep<C, E, N>(sys: System<C, E, N>, a: N, b: N, e: E)
    requires Indistinguishable(sys, a, b) && a in sys && b in sys && e in sys[a].next && e in sys[b].next
    ensures Indistinguishable(sys, sys[a].next[e], sys[b].next[e])
  {
    forall k: nat ensures Same(k, sys, sys[a].next[e], sys[b].next[e]) {
      assert Same(k + 1, sys, a, b);
    }
  }
}
