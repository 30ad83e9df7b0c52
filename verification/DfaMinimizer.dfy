// src/utils/automata/dfa_minimizer.hpp: states are put into buckets of equal content and equal
// symbols; within each bucket the distinguishable pairs are marked; each unmarked class gets one
// representative.
module DfaMinimizer {
  import opened ByteOrder
  import opened Bisimulation
  import opened PairMarking
  import opened Prefixes
  import opened Descriptions

  // Content ids are hashes of base descriptions; the hash is taken to be injective.
  type Automaton = System<BaseDescription, string, string>

  datatype BucketId = BucketId(content: BaseDescription, symbols: set<string>)

  datatype Bucket = Bucket(symbols: seq<string>, states: map<string, map<string, string>>)

  // The result maps a state to its representative; states that represent themselves are left out.
  type Representatives = map<string, string>

  function Representative(bis: Representatives, name: string): string {
    if name in bis then bis[name] else name
  }

  // Representatives are members of their class, and shared exactly within the classes of
  // indistinguishable states.
  ghost predicate IsQuotient(sys: Automaton, bis: Representatives) {
    && (forall n :: Indistinguishable(sys, n, Representative(bis, n)))
    && (forall a, b :: Representative(bis, a) == Representative(bis, b) <==> Indistinguishable(sys, a, b))
  }

  // Representatives for a set of states that is a union of classes.
  ghost predicate Covers(R: Relation, bis: Representatives, done: set<string>) {
    && bis.Keys <= done && bis.Values <= done
    && (forall n | n in done :: Representative(bis, n) !in bis && (n, Representative(bis, n)) in R)
    && (forall n, m | n in done && (n, m) in R :: m in done && Representative(bis, n) == Representative(bis, m))
  }

  lemma CoversClass(R: Relation, bis: Representatives, done: set<string>, last: string, others: set<string>)
    requires IsEquivalence(R) && Covers(R, bis, done) && last !in done
    requires forall m :: m in others <==> m != last && (last, m) in R
    ensures Covers(R, bis + (map m | m in others :: last), done + {last} + others)
  {
    var bis' := bis + (map m | m in others :: last);
    assert forall m | m in others :: (m, last) in R && m !in done;
    forall n, m | n in done + {last} + others && (n, m) in R
      ensures m in done + {last} + others && Representative(bis', n) == Representative(bis', m)
    {
      if n !in done {
        assert (last, n) in R && (last, m) in R;
      }
    }
  }

  lemma CoversAll(sys: Automaton, bis: Representatives)
    requires Covers(Alike(sys), bis, sys.Keys)
    ensures IsQuotient(sys, bis)
  {
    AlikeIsEquivalence(sys);
    var R := Alike(sys);
    forall n ensures (n, Representative(bis, n)) in R {
      assert n !in sys ==> Representative(bis, n) == n;
    }
    forall a, b ensures Representative(bis, a) == Representative(bis, b) <==> Indistinguishable(sys, a, b) {
      var ra, rb := Representative(bis, a), Representative(bis, b);
      assert (a, ra) in R && (b, rb) in R;
      if ra == rb {
        assert (rb, b) in R;
      }
      assert Same(1, sys, a, b) || (a, b) !in R;
    }
  }

  // GetKeys: the keys of an unordered map, in some order.
  method GetKeys<V>(m: map<string, V>) returns (keys: seq<string>)
    ensures forall k :: k in keys <==> k in m
    ensures forall i, j | 0 <= i < j < |keys| :: keys[i] != keys[j]
  {
    keys := [];
    var rest := m.Keys;
    while rest != {}
      invariant rest <= m.Keys
      invariant forall k :: k in keys <==> k in m.Keys - rest
      invariant forall i, j | 0 <= i < j < |keys| :: keys[i] != keys[j]
    {
      var k :| k in rest;
      assert k !in keys;
      keys, rest := keys + [k], rest - {k};
    }
  }

  // All pairs of two different states that are locally equal.
  ghost predicate ArePairs(sys: Automaton, pairs: set<Pair>) {
    && (forall p | p in pairs :: p.lo != p.hi && p == MkPair(p.lo, p.hi) && LocallyEqual(sys, p))
    && (forall a, b | a != b && LocallyEqual(sys, Pair(a, b)) :: MkPair(a, b) in pairs)
  }

  // A pair of two different names of the list.
  ghost predicate IsProper(names: seq<string>, p: Pair) {
    p.lo in names && p.hi in names && p.lo != p.hi && p == MkPair(p.lo, p.hi)
  }

  // The inner loop: the pairs of names[i] with the names before it.
  method PairWith(names: seq<string>, i: nat) returns (pairs: set<Pair>)
    requires i < |names| && forall j | 0 <= j < i :: names[i] != names[j]
    ensures forall p | p in pairs :: IsProper(names, p)
    ensures forall j | 0 <= j < i :: MkPair(names[i], names[j]) in pairs
  {
    pairs := {};
    for j := 0 to i
      invariant forall p | p in pairs :: IsProper(names, p)
      invariant forall l | 0 <= l < j :: MkPair(names[i], names[l]) in pairs
    {
      MkPairSymmetric(names[i], names[j]);
      pairs := pairs + {MkPair(names[i], names[j])};
    }
  }

  // Pairs of different names from a list without repetition.
  method PairUp(names: seq<string>) returns (pairs: set<Pair>)
    requires forall i, j | 0 <= i < j < |names| :: names[i] != names[j]
    ensures forall p | p in pairs :: IsProper(names, p)
    ensures forall a, b | a in names && b in names && a != b :: MkPair(a, b) in pairs
  {
    pairs := {};
    for i := 0 to |names|
      invariant forall p | p in pairs :: IsProper(names, p)
      invariant forall j, l | 0 <= j < l < i :: MkPair(names[l], names[j]) in pairs
    {
      var more := PairWith(names, i);
      pairs := pairs + more;
    }
    forall a, b | a in names && b in names && a != b ensures MkPair(a, b) in pairs {
      MkPairSymmetric(a, b);
    }
  }

  function IdOf(s: State<BaseDescription, string, string>): BucketId {
    BucketId(s.content, s.next.Keys)
  }

  // The bucket holds states of the given id only, with their transitions.
  ghost predicate GoodBucket(sys: Automaton, id: BucketId, bucket: Bucket) {
    && (forall e :: e in bucket.symbols <==> e in id.symbols)
    && (forall n | n in bucket.states :: n in sys && IdOf(sys[n]) == id && bucket.states[n] == sys[n].next)
  }

  // Every state is in the bucket of its id.
  ghost predicate Filed(sys: Automaton, byState: map<string, BucketId>, buckets: map<BucketId, Bucket>) {
    && byState.Keys == sys.Keys
    && (forall n | n in sys :: byState[n] == IdOf(sys[n]) && byState[n] in buckets && n in buckets[byState[n]].states)
    && (forall id | id in buckets :: GoodBucket(sys, id, buckets[id]))
  }

  lemma GoodBucketKept(sys: Automaton, id: BucketId, bucket: Bucket, name: string,
                       s: State<BaseDescription, string, string>)
    requires GoodBucket(sys, id, bucket) && name !in sys
    ensures GoodBucket(sys[name := s], id, bucket)
  {
  }

  lemma GoodBucketAdd(sys: Automaton, bucket: Bucket, name: string, s: State<BaseDescription, string, string>)
    requires GoodBucket(sys, IdOf(s), bucket) && name !in sys
    ensures GoodBucket(sys[name := s], IdOf(s), bucket.(states := bucket.states[name := s.next]))
  {
  }

  lemma FiledAdd(sys: Automaton, byState: map<string, BucketId>, buckets: map<BucketId, Bucket>,
                 name: string, s: State<BaseDescription, string, string>, bucket: Bucket)
    requires Filed(sys, byState, buckets) && name !in sys
    requires GoodBucket(sys, IdOf(s), bucket)
    requires IdOf(s) in buckets ==> buckets[IdOf(s)] == bucket
    ensures Filed(sys[name := s], byState[name := IdOf(s)],
        buckets[IdOf(s) := bucket.(states := bucket.states[name := s.next])])
  {
    hide GoodBucket, IdOf;
    var sys', byState' := sys[name := s], byState[name := IdOf(s)];
    var bucket' := bucket.(states := bucket.states[name := s.next]);
    var buckets' := buckets[IdOf(s) := bucket'];
    GoodBucketAdd(sys, bucket, name, s);
    assert forall n | n in bucket.states :: n in bucket'.states;
    forall i | i in buckets' ensures GoodBucket(sys', i, buckets'[i]) {
      if i != IdOf(s) {
        GoodBucketKept(sys, i, buckets[i], name, s);
      }
    }
    forall n | n in sys' ensures byState'[n] == IdOf(sys'[n]) && byState'[n] in buckets'
        && n in buckets'[byState'[n]].states
    {
    }
  }

  class DFAMinimizer {
    var buckets: map<BucketId, Bucket>
    var bucketsByState: map<string, BucketId>
    ghost var automaton: Automaton  // all states added so far

    ghost predicate Valid()
      reads this
    {
      Filed(automaton, bucketsByState, buckets)
    }

    constructor ()
      ensures Valid() && automaton == map[]
    {
      buckets, bucketsByState, automaton := map[], map[], map[];
    }

    method AddState(name: string, transitions: map<string, string>, content: BaseDescription)
      requires Valid()
      requires name !in automaton
      modifies this
      ensures Valid()
      ensures automaton == old(automaton)[name := State(content, transitions)]
    {
      var id := BucketId(content, transitions.Keys);
      var bucket := if id in buckets then buckets[id] else Bucket(Sorted(transitions.Keys), map[]);
      FiledAdd(automaton, bucketsByState, buckets, name, State(content, transitions), bucket);
      buckets := buckets[id := bucket.(states := bucket.states[name := transitions])];
      bucketsByState := bucketsByState[name := id];
      automaton := automaton[name := State(content, transitions)];
    }

    method CreatePairs() returns (pairs: set<Pair>)
      requires Valid()
      ensures ArePairs(automaton, pairs)
    {
      pairs := {};
      var rest := buckets.Keys;
      while rest != {}
        invariant rest <= buckets.Keys
        invariant forall p | p in pairs :: p.lo != p.hi && p == MkPair(p.lo, p.hi) && LocallyEqual(automaton, p)
        invariant forall a, b | a in automaton && b in automaton && a != b && IdOf(automaton[a]) == IdOf(automaton[b])
                    && IdOf(automaton[a]) !in rest :: MkPair(a, b) in pairs
      {
        var id :| id in rest;
        rest := rest - {id};
        var names := GetKeys(buckets[id].states);
        var inBucket := PairUp(names);
        pairs := pairs + inBucket;
      }
    }

    // Look at the edge of the pair ab labelled sym, leading to r and s.
    method CheckEdge(t: PairTable, pairs: set<Pair>, ab: Pair, sym: string, r: string, s: string,
                     ghost D: iset<Pair>, ghost visited: set<Pair>, ghost labels: seq<string>)
      requires IsDifference(automaton, D)
      requires ArePairs(automaton, pairs) && ab in pairs && sym in automaton[ab.lo].next
      requires r == automaton[ab.lo].next[sym] && s == automaton[ab.hi].next[sym]
      requires Sound(t.marks, D) && AllSettled(automaton, pairs, t.marks, visited)
      requires Settled(automaton, pairs, t.marks, ab, labels)
      modifies t
      ensures Sound(t.marks, D) && AllSettled(automaton, pairs, t.marks, visited)
      ensures Settled(automaton, pairs, t.marks, ab, labels + [sym])
    {
      if r != s {
        ghost var before := t.marks;
        var rs := MkPair(r, s);
        assert rs == Successor(automaton, ab, sym);
        if rs !in pairs || rs in t.marks.marked {
          MkPairSymmetric(r, s);
          assert ab in D;
          t.MarkPairValue(ab, D);
          SoundKept(before, t.marks, D);
        } else {
          SoundRegister(before, rs, ab, D);
          t.RegisterDependency(rs, ab);
          assert t.marks == before.Register(rs, ab);
        }
        AllSettledKept(automaton, pairs, before, t.marks, visited);
        SettledKept(automaton, pairs, before, t.marks, ab, labels);
      }
    }

    // Look at all edges of the pair ab.
    method CheckPair(t: PairTable, pairs: set<Pair>, ab: Pair, ghost D: iset<Pair>, ghost visited: set<Pair>)
      requires IsDifference(automaton, D)
      requires Valid() && ArePairs(automaton, pairs) && ab in pairs
      requires Sound(t.marks, D) && AllSettled(automaton, pairs, t.marks, visited)
      modifies t
      ensures Sound(t.marks, D) && AllSettled(automaton, pairs, t.marks, visited + {ab})
    {
      var bucket := buckets[bucketsByState[ab.lo]];
      var a, b := bucket.states[ab.lo], bucket.states[ab.hi];
      for i := 0 to |bucket.symbols|
        invariant Sound(t.marks, D) && AllSettled(automaton, pairs, t.marks, visited)
        invariant Settled(automaton, pairs, t.marks, ab, bucket.symbols[..i])
      {
        var sym := bucket.symbols[i];
        assert sym in bucket.symbols;
        CheckEdge(t, pairs, ab, sym, a[sym], b[sym], D, visited, bucket.symbols[..i]);
        PrefixStep(bucket.symbols, i);
      }
      PrefixAll(bucket.symbols);
    }

    // Only pairs that every difference contains get marked, and all pairs get settled.
    method MarkPairs(pairs: set<Pair>, ghost D: iset<Pair>) returns (t: PairTable)
      requires Valid() && ArePairs(automaton, pairs) && IsDifference(automaton, D)
      ensures fresh(t)
      ensures Sound(t.marks, D) && AllSettled(automaton, pairs, t.marks, pairs)
    {
      t := new PairTable();
      var rest := pairs;
      ghost var visited: set<Pair> := {};
      while rest != {}
        invariant rest <= pairs && forall p | p in pairs :: p in rest || p in visited
        invariant Sound(t.marks, D) && AllSettled(automaton, pairs, t.marks, visited)
      {
        var ab :| ab in rest;
        CheckPair(t, pairs, ab, D, visited);
        rest, visited := rest - {ab}, visited + {ab};
      }
    }

    // The members of the list that are unmarked with last, all to be represented by last, and the
    // remaining ones.
    method TakeClass(t: PairTable, last: string, all: seq<string>) returns (others: set<string>, unequal: seq<string>)
      requires forall i | 0 <= i < |all| :: all[i] != last
      requires forall i, j | 0 <= i < j < |all| :: all[i] != all[j]
      ensures forall m :: m in others <==> m in all && MkPair(last, m) !in t.marks.marked
      ensures forall m :: m in unequal <==> m in all && m !in others
      ensures forall i, j | 0 <= i < j < |unequal| :: unequal[i] != unequal[j]
      ensures |unequal| <= |all|
    {
      others, unequal := {}, [];
      for i := 0 to |all|
        invariant forall m :: m in others <==> m in all[..i] && MkPair(last, m) !in t.marks.marked
        invariant forall m :: m in unequal <==> m in all[..i] && m !in others
        invariant forall j, l | 0 <= j < l < |unequal| :: unequal[j] != unequal[l]
        invariant |unequal| <= i
      {
        PrefixStep(all, i);
        if MkPair(last, all[i]) !in t.marks.marked {
          others := others + {all[i]};
        } else {
          unequal := unequal + [all[i]];
        }
      }
      PrefixAll(all);
    }

    // Choose representatives for the states of one bucket.
    method ReduceBucket(t: PairTable, names: seq<string>, bis: Representatives, ghost R: Relation,
                        ghost done: set<string>)
      returns (bis': Representatives, ghost done': set<string>)
      requires IsEquivalence(R) && Covers(R, bis, done)
      requires forall i, j | 0 <= i < j < |names| :: names[i] != names[j]
      requires forall n | n in names :: n !in done
      requires MarksDecideBucket((set n | n in names), t.marks.marked, R)
      ensures Covers(R, bis', done')
      ensures forall n :: n in done' <==> n in done || n in names
    {
      var all := names;
      bis', done' := bis, done;
      while all != []
        invariant Covers(R, bis', done')
        invariant forall i, j | 0 <= i < j < |all| :: all[i] != all[j]
        invariant forall n | n in all :: n in names
        invariant forall n :: n in done' <==> n in done || (n in names && n !in all)
        decreases |all|
      {
        var last := all[|all| - 1];
        assert last in all;
        PrefixStep(all, |all| - 1);
        PrefixAll(all);
        var others, unequal := TakeClass(t, last, all[..|all| - 1]);
        forall m ensures m in others <==> m != last && (last, m) in R {
          if (last, m) in R { assert (m, last) in R; }
        }
        CoversClass(R, bis', done', last, others);
        bis' := bis' + (map m | m in others :: last);
        done' := done' + {last} + others;
        all := unequal;
      }
    }

    method ReduceAll(t: PairTable, ghost R: Relation) returns (bis: Representatives)
      requires IsEquivalence(R)
      requires forall id | id in buckets :: MarksDecideBucket(buckets[id].states.Keys, t.marks.marked, R)
      requires forall n | n in automaton :: IdOf(automaton[n]) in buckets
      requires forall id, n | id in buckets :: n in buckets[id].states <==> n in automaton && IdOf(automaton[n]) == id
      ensures Covers(R, bis, automaton.Keys)
    {
      bis := map[];
      ghost var done: set<string> := {};
      var rest := buckets.Keys;
      while rest != {}
        invariant rest <= buckets.Keys
        invariant Covers(R, bis, done)
        invariant forall n :: n in done <==> n in automaton && IdOf(automaton[n]) !in rest
      {
        var id :| id in rest;
        var names := GetKeys(buckets[id].states);
        assert (set n | n in names) == buckets[id].states.Keys;
        bis, done := ReduceBucket(t, names, bis, R, done);
        rest := rest - {id};
      }
      assert done == automaton.Keys;
    }

    method ComputeBisimulation() returns (bis: Representatives)
      requires Valid()
      ensures IsQuotient(automaton, bis)
      ensures bis.Keys + bis.Values <= automaton.Keys
    {
      var pairs := CreatePairs();
      DistinctIsDifference(automaton);
      var t := MarkPairs(pairs, DistinctPairs(automaton));
      UnmarkedAreAlike(automaton, bucketsByState, buckets, pairs, t.marks);
      AlikeIsEquivalence(automaton);
      bis := ReduceAll(t, Alike(automaton));
      CoversAll(automaton, bis);
    }
  }

  // Among the given names, the unmarked pairs are the related ones, and no relation leads out.
  ghost predicate MarksDecideBucket(names: set<string>, marked: set<Pair>, R: Relation) {
    && (forall n, m | n in names && (n, m) in R :: m in names)
    && (forall n, m | n in names && m in names && n != m :: (n, m) in R <==> MkPair(n, m) !in marked)
  }

  lemma AlikeShareBucket(sys: Automaton, n: string, m: string)
    requires n in sys && (n, m) in Alike(sys)
    ensures m in sys && IdOf(sys[n]) == IdOf(sys[m])
  {
    assert Same(1, sys, n, m);
  }

  lemma UnmarkedAreAlike(sys: Automaton, byState: map<string, BucketId>, buckets: map<BucketId, Bucket>,
                         pairs: set<Pair>, t: Marks)
    requires Filed(sys, byState, buckets) && ArePairs(sys, pairs)
    requires Sound(t, DistinctPairs(sys)) && AllSettled(sys, pairs, t, pairs)
    ensures forall id, n | id in buckets :: n in buckets[id].states <==> n in sys && IdOf(sys[n]) == id
    ensures forall id | id in buckets :: MarksDecideBucket(buckets[id].states.Keys, t.marked, Alike(sys))
  {
    MarksAreDistinctPairs(sys, pairs, t);
    forall id, n | id in buckets ensures n in buckets[id].states <==> n in sys && IdOf(sys[n]) == id {
      assert GoodBucket(sys, id, buckets[id]);
    }
    forall id | id in buckets ensures MarksDecideBucket(buckets[id].states.Keys, t.marked, Alike(sys)) {
      var names := buckets[id].states.Keys;
      forall n, m | n in names && (n, m) in Alike(sys) ensures m in names {
        AlikeShareBucket(sys, n, m);
      }
      forall n, m | n in names && m in names && n != m ensures (n, m) in Alike(sys) <==> MkPair(n, m) !in t.marked {
        assert LocallyEqual(sys, Pair(n, m));
        UnmarkedIsAlike(sys, pairs, t.marked, n, m);
      }
    }
  }
}
