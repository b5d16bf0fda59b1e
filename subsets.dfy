/** The abstract subset semantics of an `Fsa` that `determinate` explores: the
    destination of a subset on a letter, runs of subsets over words, reachability. */
module Subsets {
  import opened Wrappers
  import opened Automaton

  /** Every member of `c` has a row and that row has the letter `a`: exactly when
      neither `trTable.at(setElem)` nor `.at(letter)` throws for `c`. */
  predicate Defined<T, V>(tr: map<T, map<V, set<T>>>, c: set<T>, a: V)
  {
    forall s :: s in c ==> s in tr && a in tr[s]
  }

  /** `Defined` for every letter of the alphabet. */
  predicate Complete<T, V>(tr: map<T, map<V, set<T>>>, c: set<T>, alphabet: set<V>)
  {
    forall a :: a in alphabet ==> Defined(tr, c, a)
  }

  /** The union, over the members `s` of `c`, of `tr[s][a]`. */
  function Post<T, V>(tr: map<T, map<V, set<T>>>, c: set<T>, a: V): set<T>
  {
    set s, d | s in c && s in tr && a in tr[s] && d in tr[s][a] :: d
  }

  /** The destination of a single state is its own destination set. */
  lemma PostSingleton<T, V>(tr: map<T, map<V, set<T>>>, s: T, a: V)
    requires s in tr && a in tr[s]
    ensures Post(tr, {s}, a) == tr[s][a]
  {
    forall d | d in tr[s][a] ensures d in Post(tr, {s}, a) {
      assert s in {s};
    }
  }

  /** The destination of a union is the union of the destinations. */
  lemma PostUnion<T, V>(tr: map<T, map<V, set<T>>>, c1: set<T>, c2: set<T>, a: V)
    ensures Post(tr, c1 + c2, a) == Post(tr, c1, a) + Post(tr, c2, a)
  {
    forall d | d in Post(tr, c1 + c2, a) ensures d in Post(tr, c1, a) + Post(tr, c2, a) {
      var s :| s in c1 + c2 && s in tr && a in tr[s] && d in tr[s][a];
      if s in c1 {
        assert d in Post(tr, c1, a);
      } else {
        assert d in Post(tr, c2, a);
      }
    }
  }

  /** One step of the subset run; `None` where the source throws. */
  function Step<T, V>(tr: map<T, map<V, set<T>>>, c: set<T>, a: V): Option<set<T>>
  {
    if Defined(tr, c, a) then Some(Post(tr, c, a)) else None
  }

  /** The subset run of `w` from `c`, letter by letter. */
  function SubsetRun<T, V>(tr: map<T, map<V, set<T>>>, c: set<T>, w: seq<V>): Option<set<T>>
    decreases |w|
  {
    if w == [] then Some(c)
    else match Step(tr, c, w[0])
      case None => None
      case Some(d) => SubsetRun(tr, d, w[1..])
  }

  predicate Over<V>(w: seq<V>, alphabet: set<V>)
  {
    forall i :: 0 <= i < |w| ==> w[i] in alphabet
  }

  /** `c` is the subset run of some word over the alphabet from the initial set. */
  ghost predicate Reachable<T(!new), V(!new)>(a: Fsa<T, V>, alphabet: set<V>, c: set<T>)
  {
    exists w :: Over(w, alphabet) && SubsetRun(a.trTable, a.initial, w) == Some(c)
  }

  /** Some reachable subset has a member that lacks a row or a letter of the alphabet. */
  ghost predicate Blocked<T(!new), V(!new)>(a: Fsa<T, V>, alphabet: set<V>)
  {
    exists c, v :: Reachable(a, alphabet, c) && v in alphabet && !Defined(a.trTable, c, v)
  }

  /** All destination states named anywhere in the table. */
  function Dests<T, V>(tr: map<T, map<V, set<T>>>): set<T>
  {
    set s, v, d | s in tr && v in tr[s] && d in tr[s][v] :: d
  }

  /** The states any explored subset can be made of. */
  function Universe<T, V>(a: Fsa<T, V>): set<T>
  {
    a.initial + Dests(a.trTable)
  }

  lemma PostInUniverse<T, V>(a: Fsa<T, V>, c: set<T>, v: V)
    ensures Post(a.trTable, c, v) <= Universe(a)
  {
    forall d | d in Post(a.trTable, c, v) ensures d in Dests(a.trTable) {
      var s :| s in c && s in a.trTable && v in a.trTable[s] && d in a.trTable[s][v];
    }
  }

  /** Running a word extended by one letter is one more step after the run. */
  lemma {:induction false} RunSnoc<T, V>(tr: map<T, map<V, set<T>>>, c: set<T>, w: seq<V>, v: V)
    ensures SubsetRun(tr, c, w + [v]) ==
              match SubsetRun(tr, c, w)
              case None => None
              case Some(d) => Step(tr, d, v)
    decreases |w|
  {
    if w == [] {
      assert [v][1..] == [];
    } else {
      assert (w + [v])[1..] == w[1..] + [v];
      match Step(tr, c, w[0])
      case None =>
      case Some(d) => RunSnoc(tr, d, w[1..], v);
    }
  }

  /** The destination of a reachable subset on a letter of the alphabet is reachable. */
  lemma ReachableStep<T(!new), V(!new)>(a: Fsa<T, V>, alphabet: set<V>, c: set<T>, v: V)
    requires Reachable(a, alphabet, c) && v in alphabet && Defined(a.trTable, c, v)
    ensures Reachable(a, alphabet, Post(a.trTable, c, v))
  {
    var w :| Over(w, alphabet) && SubsetRun(a.trTable, a.initial, w) == Some(c);
    RunSnoc(a.trTable, a.initial, w, v);
    assert Over(w + [v], alphabet);
  }

  lemma InitialReachable<T(!new), V(!new)>(a: Fsa<T, V>, alphabet: set<V>)
    ensures Reachable(a, alphabet, a.initial)
  {
    assert Over([], alphabet) && SubsetRun(a.trTable, a.initial, []) == Some(a.initial);
  }

  /** A set of subsets that holds `c`, is complete and is closed under the letters
      holds every subset run from `c` over the alphabet. */
  lemma {:induction false} ClosedContainsRuns<T, V>(tr: map<T, map<V, set<T>>>, alphabet: set<V>, explored: set<set<T>>, c: set<T>, w: seq<V>)
    requires c in explored && Over(w, alphabet)
    requires forall e, v :: e in explored && v in alphabet ==> Defined(tr, e, v) && Post(tr, e, v) in explored
    ensures SubsetRun(tr, c, w).Some? && SubsetRun(tr, c, w).value in explored
    decreases |w|
  {
    if w != [] {
      assert Over(w[1..], alphabet) by {
        forall i | 0 <= i < |w[1..]| ensures w[1..][i] in alphabet { assert w[1..][i] == w[i + 1]; }
      }
      ClosedContainsRuns(tr, alphabet, explored, Post(tr, c, w[0]), w[1..]);
    }
  }

  /** The empty subset, once reached, stays empty on every letter. */
  lemma {:induction false} EmptySubsetIsSink<T, V>(tr: map<T, map<V, set<T>>>, w: seq<V>)
    ensures SubsetRun(tr, {}, w) == Some({})
    decreases |w|
  {
    if w != [] {
      assert Post(tr, {}, w[0]) == {};
      EmptySubsetIsSink(tr, w[1..]);
    }
  }
}
