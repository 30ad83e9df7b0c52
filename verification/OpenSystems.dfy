// Systems with edges to names that have no state, as configurations with dangling bindings are.
// jst-lock never finds a difference where one of the two names is missing; what a configuration
// means, on the other hand, depends on which names are missing.
module OpenSystems {
  import opened Bisimulation
  import opened PairMarking

  // ---- Names that are not told apart ----

  // No difference is found between a and b in k steps, where a missing name differs from none.
  ghost predicate Close<C, E, N>(k: nat, sys: System<C, E, N>, a: N, b: N) {
    || a == b
    || k == 0
    || a !in sys || b !in sys
    || (&& sys[a].content == sys[b].content
        && sys[a].next.Keys == sys[b].next.Keys
        && forall e | e in sys[a].next :: Close(k - 1, sys, sys[a].next[e], sys[b].next[e]))
  }

  ghost predicate Inseparable<C, E, N>(sys: System<C, E, N>, a: N, b: N) {
    forall k: nat :: Close(k, sys, a, b)
  }

  lemma {:induction false} SameClose<C, E, N>(k: nat, sys: System<C, E, N>, a: N, b: N)
    requires Same(k, sys, a, b)
    ensures Close(k, sys, a, b)
  {
    if k > 0 && a != b {
      forall e | e in sys[a].next ensures Close(k - 1, sys, sys[a].next[e], sys[b].next[e]) {
        SameClose(k - 1, sys, sys[a].next[e], sys[b].next[e]);
      }
    }
  }

  lemma {:induction false} CloseSymmetric<C, E, N>(k: nat, sys: System<C, E, N>, a: N, b: N)
    requires Close(k, sys, a, b)
    ensures Close(k, sys, b, a)
  {
    if k > 0 && a != b && a in sys && b in sys {
      forall e | e in sys[a].next ensures Close(k - 1, sys, sys[b].next[e], sys[a].next[e]) {
        CloseSymmetric(k - 1, sys, sys[a].next[e], sys[b].next[e]);
      }
    }
  }

  // Being close is not transitive, but indistinguishable names are close to the same names.
  lemma {:induction false} CloseSame<C, E, N>(k: nat, sys: System<C, E, N>, a: N, b: N, c: N)
    requires Close(k, sys, a, b) && Same(k, sys, b, c)
    ensures Close(k, sys, a, c)
  {
    if a == b {
      SameClose(k, sys, b, c);
    } else if k > 0 && b != c && a in sys {
      forall e | e in sys[a].next ensures Close(k - 1, sys, sys[a].next[e], sys[c].next[e]) {
        CloseSame(k - 1, sys, sys[a].next[e], sys[b].next[e], sys[c].next[e]);
      }
    }
  }

  lemma InseparableStep<C, E, N>(sys: System<C, E, N>, a: N, b: N)
    requires Inseparable(sys, a, b) && a in sys && b in sys && a != b
    ensures sys[a].content == sys[b].content && sys[a].next.Keys == sys[b].next.Keys
    ensures forall e | e in sys[a].next :: Inseparable(sys, sys[a].next[e], sys[b].next[e])
  {
    assert Close(1, sys, a, b);
    forall e, k: nat | e in sys[a].next ensures Close(k, sys, sys[a].next[e], sys[b].next[e]) {
      assert Close(k + 1, sys, a, b);
    }
  }

  // ---- When not being told apart means being alike ----

  // The edge leads from a and b to different names, not both of which have a state.
  predicate IsBlurredBy<C, E, N>(sys: System<C, E, N>, a: N, b: N, e: E) {
    && a in sys && b in sys && e in sys[a].next && e in sys[b].next
    && sys[a].next[e] != sys[b].next[e]
    && (sys[a].next[e] !in sys || sys[b].next[e] !in sys)
  }

  // Some inseparable states differ in where an edge leads, but a missing name hides it.
  ghost predicate Blurred<C, E(!new), N(!new)>(sys: System<C, E, N>) {
    exists a, b, e :: Inseparable(sys, a, b) && IsBlurredBy(sys, a, b, e)
  }

  lemma {:induction false} SharpSame<C, E(!new), N(!new)>(k: nat, sys: System<C, E, N>, a: N, b: N)
    requires !Blurred(sys) && Inseparable(sys, a, b) && a in sys && b in sys
    ensures Same(k, sys, a, b)
  {
    if k > 0 && a != b {
      InseparableStep(sys, a, b);
      forall e | e in sys[a].next ensures Same(k - 1, sys, sys[a].next[e], sys[b].next[e]) {
        if sys[a].next[e] != sys[b].next[e] {
          assert !IsBlurredBy(sys, a, b, e);
          SharpSame(k - 1, sys, sys[a].next[e], sys[b].next[e]);
        }
      }
    }
  }

  // Inseparable states are indistinguishable if and only if nothing is blurred.
  lemma SharpIffAlike<C, E(!new), N(!new)>(sys: System<C, E, N>)
    ensures !Blurred(sys) <==> forall a, b | a in sys && b in sys && Inseparable(sys, a, b) ::
        Indistinguishable(sys, a, b)
  {
    if !Blurred(sys) {
      forall a, b, k: nat | a in sys && b in sys && Inseparable(sys, a, b) ensures Same(k, sys, a, b) {
        SharpSame(k, sys, a, b);
      }
    } else {
      var a, b, e :| Inseparable(sys, a, b) && IsBlurredBy(sys, a, b, e);
      assert !Same(1, sys, sys[a].next[e], sys[b].next[e]);
      if Indistinguishable(sys, a, b) {
        IndistinguishableStep(sys, a, b, e);
      }
    }
  }

  lemma AlikeInseparable<C, E, N>(sys: System<C, E, N>, a: N, b: N)
    requires Indistinguishable(sys, a, b)
    ensures Inseparable(sys, a, b)
  {
    forall k: nat ensures Close(k, sys, a, b) {
      SameClose(k, sys, a, b);
    }
  }

  // Excused are equal names, and those that are missing.
  lemma {:induction false} CloseIsUpTo<C, E, N>(k: nat, sys: System<C, E, N>, a: N, b: N, X: iset<(N, N)>)
    requires forall n, m :: (n, m) in X <==> n == m || n !in sys || m !in sys
    ensures Close(k, sys, a, b) <==> SimUpTo(k, sys, a, sys, b, X)
  {
    if k > 0 && a != b && a in sys && b in sys && sys[a].next.Keys == sys[b].next.Keys {
      forall e | e in sys[a].next
        ensures Close(k - 1, sys, sys[a].next[e], sys[b].next[e])
            <==> SimUpTo(k - 1, sys, sys[a].next[e], sys, sys[b].next[e], X)
      {
        CloseIsUpTo(k - 1, sys, sys[a].next[e], sys[b].next[e], X);
      }
    }
  }

  lemma InseparableIffRelated<C(!new), E(!new), N(!new)>(sys: System<C, E, N>, a: N, b: N, X: iset<(N, N)>)
    requires forall n, m :: (n, m) in X <==> n == m || n !in sys || m !in sys
    ensures Inseparable(sys, a, b) <==> RelatedUpTo(sys, a, sys, b, X)
  {
    hide RelatedUpTo;
    forall k: nat ensures Close(k, sys, a, b) <==> SimUpTo(k, sys, a, sys, b, X) {
      CloseIsUpTo(k, sys, a, b, X);
    }
    UpToIffRelated(sys, a, sys, b, X);
  }

  // ---- The marks ----

  ghost function SeparatedPairs<C, E>(sys: System<C, E, string>): iset<Pair> {
    iset p: Pair | !Inseparable(sys, p.lo, p.hi)
  }

  // D contains the locally different pairs of states, and each pair of states with a successor in D.
  ghost predicate IsSeparation<C, E(!new)>(sys: System<C, E, string>, D: iset<Pair>) {
    && (forall p: Pair | p.lo in sys && p.hi in sys && p.lo != p.hi && !LocallyEqual(sys, p) :: p in D)
    && (forall p: Pair, e: E | p.lo in sys && p.hi in sys && e in sys[p.lo].next && e in sys[p.hi].next
          && Successor(sys, p, e) in D :: p in D)
  }

  lemma SeparatedIsSeparation<C, E(!new)>(sys: System<C, E, string>)
    ensures IsSeparation(sys, SeparatedPairs(sys))
  {
    forall p: Pair | p.lo in sys && p.hi in sys && p.lo != p.hi && !LocallyEqual(sys, p)
        ensures p in SeparatedPairs(sys)
    {
      assert !Close(1, sys, p.lo, p.hi);
    }
    forall p: Pair, e: E | p.lo in sys && p.hi in sys && e in sys[p.lo].next && e in sys[p.hi].next
      && Successor(sys, p, e) in SeparatedPairs(sys)
      ensures p in SeparatedPairs(sys)
    {
      SeparatedBySuccessor(sys, p, e);
    }
  }

  lemma SeparatedBySuccessor<C, E>(sys: System<C, E, string>, p: Pair, e: E)
    requires p.lo in sys && p.hi in sys && e in sys[p.lo].next && e in sys[p.hi].next
    requires Successor(sys, p, e) in SeparatedPairs(sys)
    ensures p in SeparatedPairs(sys)
  {
    var s := Successor(sys, p, e);
    var k: nat :| !Close(k, sys, s.lo, s.hi);
    if Close(k + 1, sys, p.lo, p.hi) {
      var a, b := sys[p.lo].next[e], sys[p.hi].next[e];
      assert Close(k, sys, a, b);
      CloseSymmetric(k, sys, a, b);
    }
  }

  // The pairs of states in eq are locally equal and have successors in eq.
  ghost predicate Tolerant<C, E(!new)>(sys: System<C, E, string>, eq: set<Pair>) {
    forall p | p in eq && p.lo in sys && p.hi in sys ::
      && LocallyEqual(sys, p)
      && forall e | e in sys[p.lo].next ::
           sys[p.lo].next[e] == sys[p.hi].next[e] || Successor(sys, p, e) in eq
  }

  lemma {:induction false} TolerantClose<C, E(!new)>(k: nat, sys: System<C, E, string>, eq: set<Pair>, p: Pair)
    requires Tolerant(sys, eq) && p in eq
    ensures Close(k, sys, p.lo, p.hi)
  {
    if k > 0 && p.lo in sys && p.hi in sys {
      forall e | e in sys[p.lo].next ensures Close(k - 1, sys, sys[p.lo].next[e], sys[p.hi].next[e]) {
        var a, b := sys[p.lo].next[e], sys[p.hi].next[e];
        if a != b {
          TolerantClose(k - 1, sys, eq, MkPair(a, b));
          if MkPair(a, b) == Pair(b, a) {
            CloseSymmetric(k - 1, sys, b, a);
          }
        }
      }
    }
  }

  // When every pair of states has been visited and is settled, the unmarked ones are the inseparable.
  lemma MarksAreSeparatedPairs<C, E(!new)>(sys: System<C, E, string>, pairs: set<Pair>, t: Marks, visited: set<Pair>)
    requires Sound(t, SeparatedPairs(sys)) && AllSettled(sys, pairs, t, visited)
    requires forall p | p in pairs && p.lo in sys && p.hi in sys :: p in visited
    ensures forall p | p in pairs && p.lo in sys && p.hi in sys :: p !in t.marked <==> Inseparable(sys, p.lo, p.hi)
  {
    var eq := pairs - t.marked;
    forall p, e | p in eq && p.lo in sys && p.hi in sys && e in sys[p.lo].next
      ensures sys[p.lo].next[e] == sys[p.hi].next[e] || Successor(sys, p, e) in eq
    {
      assert EdgeSettled(pairs, t, p, sys[p.lo].next[e], sys[p.hi].next[e]);
    }
    forall p | p in eq && p.lo in sys && p.hi in sys ensures Inseparable(sys, p.lo, p.hi) {
      forall k: nat ensures Close(k, sys, p.lo, p.hi) {
        TolerantClose(k, sys, eq, p);
      }
    }
  }

  // ---- Equal meaning across systems ----

  // Both have the same unfolding, k steps deep, where a missing name stands for itself.
  ghost predicate OpenSim<C, E, N>(k: nat, A: System<C, E, N>, a: N, B: System<C, E, N>, b: N) {
    || k == 0
    || (a !in A && b !in B && a == b)
    || (&& a in A && b in B
        && A[a].content == B[b].content
        && A[a].next.Keys == B[b].next.Keys
        && forall e | e in A[a].next :: OpenSim(k - 1, A, A[a].next[e], B, B[b].next[e]))
  }

  ghost predicate SameMeaning<C, E, N>(A: System<C, E, N>, a: N, B: System<C, E, N>, b: N) {
    forall k: nat :: OpenSim(k, A, a, B, b)
  }

  // Excused are names that are missing on both sides.
  lemma {:induction false} OpenSimIsUpTo<C, E, N>(k: nat, A: System<C, E, N>, a: N, B: System<C, E, N>, b: N,
                                                  X: iset<(N, N)>)
    requires forall n, m :: (n, m) in X <==> n == m && n !in A && m !in B
    ensures OpenSim(k, A, a, B, b) <==> SimUpTo(k, A, a, B, b, X)
  {
    if k > 0 && a in A && b in B && A[a].next.Keys == B[b].next.Keys {
      forall e | e in A[a].next
        ensures OpenSim(k - 1, A, A[a].next[e], B, B[b].next[e])
            <==> SimUpTo(k - 1, A, A[a].next[e], B, B[b].next[e], X)
      {
        OpenSimIsUpTo(k - 1, A, A[a].next[e], B, B[b].next[e], X);
      }
    }
  }

  lemma SameMeaningIffRelated<C(!new), E(!new), N(!new)>(A: System<C, E, N>, a: N, B: System<C, E, N>, b: N,
                                                         X: iset<(N, N)>)
    requires forall n, m :: (n, m) in X <==> n == m && n !in A && m !in B
    ensures SameMeaning(A, a, B, b) <==> RelatedUpTo(A, a, B, b, X)
  {
    hide RelatedUpTo;
    forall k: nat ensures OpenSim(k, A, a, B, b) <==> SimUpTo(k, A, a, B, b, X) {
      OpenSimIsUpTo(k, A, a, B, b, X);
    }
    UpToIffRelated(A, a, B, b, X);
  }

  lemma {:induction false} SimIsOpenSim<C, E, N>(k: nat, A: System<C, E, N>, a: N, B: System<C, E, N>, b: N)
    requires forall n, e | n in A && e in A[n].next :: A[n].next[e] in A
    requires a in A
    ensures OpenSim(k, A, a, B, b) <==> Sim(k, A, a, B, b)
  {
    if k > 0 && b in B && A[a].next.Keys == B[b].next.Keys {
      forall e | e in A[a].next
        ensures OpenSim(k - 1, A, A[a].next[e], B, B[b].next[e]) <==> Sim(k - 1, A, A[a].next[e], B, B[b].next[e])
      {
        SimIsOpenSim(k - 1, A, A[a].next[e], B, B[b].next[e]);
      }
    }
  }

  // Without missing names, states of the same meaning are the bisimilar ones.
  lemma SameMeaningIsBisimilar<C, E, N>(A: System<C, E, N>, a: N, B: System<C, E, N>, b: N)
    requires forall n, e | n in A && e in A[n].next :: A[n].next[e] in A
    requires a in A
    ensures SameMeaning(A, a, B, b) <==> Bisimilar(A, a, B, b)
  {
    forall k: nat ensures OpenSim(k, A, a, B, b) <==> Sim(k, A, a, B, b) {
      SimIsOpenSim(k, A, a, B, b);
    }
  }

  // Replacing a name by an indistinguishable one does not change the meaning.
  lemma {:induction false} OpenSimSame<C, E, N>(k: nat, A: System<C, E, N>, a: N, B: System<C, E, N>, b: N, b': N)
    requires OpenSim(k, A, a, B, b) && Same(k, B, b, b')
    ensures OpenSim(k, A, a, B, b')
  {
    if k > 0 && b != b' {
      forall e | e in A[a].next ensures OpenSim(k - 1, A, A[a].next[e], B, B[b'].next[e]) {
        OpenSimSame(k - 1, A, A[a].next[e], B, B[b].next[e], B[b'].next[e]);
      }
    }
  }

  // Two names of one system with the meaning of a common one are indistinguishable.
  lemma {:induction false} SameOfOpenSims<C, E, N>(k: nat, A: System<C, E, N>, a: N, B: System<C, E, N>, b: N, b': N)
    requires OpenSim(k, A, a, B, b) && OpenSim(k, A, a, B, b')
    ensures Same(k, B, b, b')
  {
    if k > 0 && b != b' {
      forall e | e in B[b].next ensures Same(k - 1, B, B[b].next[e], B[b'].next[e]) {
        SameOfOpenSims(k - 1, A, A[a].next[e], B, B[b].next[e], B[b'].next[e]);
      }
    }
  }

  lemma SynonymsIfSameMeaning<C, E, N>(A: System<C, E, N>, a: N, B: System<C, E, N>, b: N, b': N)
    requires SameMeaning(A, a, B, b) && SameMeaning(A, a, B, b')
    ensures Indistinguishable(B, b, b')
  {
    forall k: nat ensures Same(k, B, b, b') {
      SameOfOpenSims(k, A, a, B, b, b');
    }
  }

  lemma BothHaveStates<C, E, N>(A: System<C, E, N>, a: N, B: System<C, E, N>, b: N)
    requires SameMeaning(A, a, B, b)
    ensures a in A <==> b in B
  {
    assert OpenSim(1, A, a, B, b);
  }

  // For each name in S, the states in both systems agree, and lead to names that are in S on the
  // one side and indistinguishable from them on the other; or both are missing.
  ghost predicate IsMirror<C, E(!new), N(!new)>(A: System<C, E, N>, B: System<C, E, N>, S: iset<N>) {
    forall n | n in S :: MirrorAt(A, B, S, n)
  }

  ghost predicate MirrorAt<C, E(!new), N>(A: System<C, E, N>, B: System<C, E, N>, S: iset<N>, n: N) {
    && (n in A <==> n in B)
    && (n in A ==>
          && A[n].content == B[n].content && A[n].next.Keys == B[n].next.Keys
          && forall e | e in A[n].next :: A[n].next[e] in S && Indistinguishable(B, A[n].next[e], B[n].next[e]))
  }

  lemma {:induction false} MirrorSim<C, E(!new), N(!new)>(k: nat, A: System<C, E, N>, B: System<C, E, N>, S: iset<N>,
                                          n: N)
    requires IsMirror(A, B, S) && n in S
    ensures OpenSim(k, A, n, B, n)
  {
    if k > 0 && n in A {
      forall e | e in A[n].next ensures OpenSim(k - 1, A, A[n].next[e], B, B[n].next[e]) {
        MirrorSim(k - 1, A, B, S, A[n].next[e]);
        OpenSimSame(k - 1, A, A[n].next[e], B, A[n].next[e], B[n].next[e]);
      }
    }
  }

  // ---- Paths ----

  // k edges lead from a to b.
  ghost predicate Leads<C, E(!new), N>(k: nat, sys: System<C, E, N>, a: N, b: N) {
    if k == 0 then a == b else a in sys && exists e :: e in sys[a].next && Leads(k - 1, sys, sys[a].next[e], b)
  }

  // Of two names of the same meaning, a path from one is matched by a path from the other.
  lemma {:induction false} PathMatched<C, E(!new), N>(k: nat, A: System<C, E, N>, a: N, B: System<C, E, N>, b: N, x: N)
    requires SameMeaning(A, a, B, b) && Leads(k, A, a, x)
    ensures exists y :: SameMeaning(A, x, B, y)
  {
    if k > 0 {
      var e :| e in A[a].next && Leads(k - 1, A, A[a].next[e], x);
      assert OpenSim(1, A, a, B, b);
      forall i: nat ensures OpenSim(i, A, A[a].next[e], B, B[b].next[e]) {
        assert OpenSim(i + 1, A, a, B, b);
      }
      PathMatched(k - 1, A, A[a].next[e], B, B[b].next[e], x);
    }
  }
}
