/** `FSA::determinate` of include/fsa.hpp: the worklist subset construction, the
    numbering of the explored subsets and the final rename. */
module Determinize {
  import opened Wrappers
  import opened Automaton
  import opened Subsets
  import opened Decimal
  import opened Numbering

  /** The row stored for subset `c`: each letter maps to the singleton of its destination. */
  function Row<T, V>(tr: map<T, map<V, set<T>>>, c: set<T>, alphabet: set<V>): map<V, set<set<T>>>
  {
    map v | v in alphabet :: {Post(tr, c, v)}
  }

  /** The destinations of the subsets in `cs` that are not yet stored. */
  function NewSubsets<T, V>(tr: map<T, map<V, set<T>>>, c: set<T>, letters: set<V>, stored: set<set<T>>): set<set<T>>
  {
    set v | v in letters && Post(tr, c, v) !in stored :: Post(tr, c, v)
  }

  /** The subsets marked final while processing the subsets `cs`: the destinations
      that hold a final state of the automaton. */
  function FinalsOf<T, V>(tr: map<T, map<V, set<T>>>, finalState: set<T>, cs: set<set<T>>, letters: set<V>): set<set<T>>
  {
    set c, v | c in cs && v in letters && Post(tr, c, v) * finalState != {} :: Post(tr, c, v)
  }

  /** A subset is final iff it is the destination of an explored subset on a letter
      and holds a final state; the initial subset is no exception. */
  lemma FinalsOfMeaning<T, V>(tr: map<T, map<V, set<T>>>, finalState: set<T>, cs: set<set<T>>, letters: set<V>, d: set<T>)
    ensures d in FinalsOf(tr, finalState, cs, letters) <==>
              (d * finalState != {} && exists c, v :: c in cs && v in letters && Post(tr, c, v) == d)
  {
  }

  /** The empty subset, a sink by `EmptySubsetIsSink`, is never marked final. */
  lemma EmptyNeverFinal<T, V>(tr: map<T, map<V, set<T>>>, finalState: set<T>, cs: set<set<T>>, letters: set<V>)
    ensures {} !in FinalsOf(tr, finalState, cs, letters)
  {
    FinalsOfMeaning(tr, finalState, cs, letters, {});
  }

  ghost function Pick<T>(s: set<T>): T
    requires s != {}
  {
    var x :| x in s; x
  }

  /** All subsets of `u`: bounds the number of subsets the worklist can store. */
  ghost function PowerSet<T>(u: set<T>): set<set<T>>
    decreases u
  {
    if u == {} then {{}}
    else
      var x := Pick(u);
      var p := PowerSet(u - {x});
      p + set s | s in p :: s + {x}
  }

  lemma {:induction false} InPowerSet<T>(u: set<T>, s: set<T>)
    requires s <= u
    ensures s in PowerSet(u)
    decreases u
  {
    if u == {} {
      assert s == {};
    } else {
      var x := Pick(u);
      InPowerSet(u - {x}, s - {x});
      if x in s {
        assert s == (s - {x}) + {x};
      } else {
        assert s - {x} == s;
      }
    }
  }

  lemma SubsetCardinality<T>(a: set<T>, b: set<T>)
    requires a <= b
    ensures |a| <= |b|
    decreases b
  {
    if a != {} {
      var x :| x in a;
      SubsetCardinality(a - {x}, b - {x});
    }
  }

  /** The two innermost loops of `determinate` (fsa.hpp:80-89): the union of the
      destinations of the members of `currentSet` on `letter`, and whether one of
      them is final. `ok` is false where `.at` throws. */
  method AfterLetter<T(==), V(==)>(a: Fsa<T, V>, currentSet: set<T>, letter: V)
    returns (ok: bool, afterLetter: set<T>, isFinal: bool)
    ensures ok <==> Defined(a.trTable, currentSet, letter)
    ensures ok ==> afterLetter == Post(a.trTable, currentSet, letter)
    ensures ok ==> (isFinal <==> afterLetter * a.finalState != {})
  {
    ok, afterLetter, isFinal := true, {}, false;
    var elems := currentSet;
    while elems != {}
      invariant elems <= currentSet
      invariant Defined(a.trTable, currentSet - elems, letter)
      invariant afterLetter == Post(a.trTable, currentSet - elems, letter)
      invariant isFinal <==> afterLetter * a.finalState != {}
      decreases elems
    {
      var setElem :| setElem in elems;
      if setElem !in a.trTable || letter !in a.trTable[setElem] {
        ok := false;
        return;
      }
      var dests := a.trTable[setElem][letter];
      ghost var before := afterLetter;
      while dests != {}
        invariant dests <= a.trTable[setElem][letter]
        invariant afterLetter == before + (a.trTable[setElem][letter] - dests)
        invariant isFinal <==> afterLetter * a.finalState != {}
        decreases dests
      {
        var dest :| dest in dests;
        MeetsAfterInsert(afterLetter, dest, a.finalState);
        if dest in a.finalState {
          isFinal := true;
        }
        afterLetter := afterLetter + {dest};
        dests := dests - {dest};
      }
      ghost var done := currentSet - elems;
      assert Post(a.trTable, done + {setElem}, letter) == before + a.trTable[setElem][letter];
      assert currentSet - (elems - {setElem}) == done + {setElem};
      elems := elems - {setElem};
    }
  }

  /** Adding `x` to `s` makes it meet `f` iff it met `f` already or `x` is in `f`. */
  lemma MeetsAfterInsert<T>(s: set<T>, x: T, f: set<T>)
    ensures (s + {x}) * f != {} <==> s * f != {} || x in f
  {
    if x in f {
      assert x in (s + {x}) * f;
    }
    if s * f != {} {
      var y :| y in s * f;
      assert y in (s + {x}) * f;
    }
  }

  lemma RowInsert<T, V>(tr: map<T, map<V, set<T>>>, c: set<T>, done: set<V>, l: V)
    ensures Row(tr, c, done + {l}) == Row(tr, c, done)[l := {Post(tr, c, l)}]
  {
  }

  lemma NewSubsetsInsert<T, V>(tr: map<T, map<V, set<T>>>, c: set<T>, done: set<V>, l: V, stored: set<set<T>>)
    ensures NewSubsets(tr, c, done + {l}, stored)
         == NewSubsets(tr, c, done, stored) + (if Post(tr, c, l) !in stored then {Post(tr, c, l)} else {})
  {
  }

  lemma FinalsOfInsert<T, V>(tr: map<T, map<V, set<T>>>, finalState: set<T>, c: set<T>, done: set<V>, l: V)
    ensures FinalsOf(tr, finalState, {c}, done + {l})
         == FinalsOf(tr, finalState, {c}, done) + (if Post(tr, c, l) * finalState != {} then {Post(tr, c, l)} else {})
  {
    var lhs := FinalsOf(tr, finalState, {c}, done + {l});
    var rhs := FinalsOf(tr, finalState, {c}, done) + (if Post(tr, c, l) * finalState != {} then {Post(tr, c, l)} else {});
    forall d | d in lhs ensures d in rhs {
      var c', v :| c' in {c} && v in done + {l} && Post(tr, c', v) * finalState != {} && Post(tr, c', v) == d;
    }
    forall d | d in rhs ensures d in lhs {
      if d !in FinalsOf(tr, finalState, {c}, done) {
        assert c in {c} && l in done + {l} && Post(tr, c, l) * finalState != {};
      }
    }
  }

  /** The loop over the alphabet for one subset (fsa.hpp:77-97): the stored row,
      the subsets queued because they are not stored yet (`currentSet` itself is not
      stored while it is processed), and the subsets marked final. */
  method ProcessLetters<T(==), V(==)>(a: Fsa<T, V>, alphabet: set<V>, currentSet: set<T>,
                                      stored: set<set<T>>, todo0: set<set<T>>, finals0: set<set<T>>)
    returns (ok: bool, transition: map<V, set<set<T>>>, todo: set<set<T>>, finals: set<set<T>>)
    ensures ok <==> Complete(a.trTable, currentSet, alphabet)
    ensures ok ==> transition == Row(a.trTable, currentSet, alphabet)
    ensures ok ==> todo == todo0 + NewSubsets(a.trTable, currentSet, alphabet, stored)
    ensures ok ==> finals == finals0 + FinalsOf(a.trTable, a.finalState, {currentSet}, alphabet)
  {
    ok, transition, todo, finals := true, map[], todo0, finals0;
    var letters := alphabet;
    ghost var done: set<V> := {};
    while letters != {}
      invariant done + letters == alphabet && done !! letters
      invariant Complete(a.trTable, currentSet, done)
      invariant transition == Row(a.trTable, currentSet, done)
      invariant todo == todo0 + NewSubsets(a.trTable, currentSet, done, stored)
      invariant finals == finals0 + FinalsOf(a.trTable, a.finalState, {currentSet}, done)
      decreases letters
    {
      var letter :| letter in letters;
      var okLetter, afterLetter, isFinal := AfterLetter(a, currentSet, letter);
      if !okLetter {
        ok := false;
        return;
      }
      if afterLetter !in stored {
        todo := todo + {afterLetter};
      }
      if isFinal {
        finals := finals + {afterLetter};
      }
      transition := transition[letter := {afterLetter}];
      RowInsert(a.trTable, currentSet, done, letter);
      NewSubsetsInsert(a.trTable, currentSet, done, letter, stored);
      FinalsOfInsert(a.trTable, a.finalState, currentSet, done, letter);
      done := done + {letter};
      letters := letters - {letter};
    }
  }

  lemma FinalsOfAddSubset<T, V>(tr: map<T, map<V, set<T>>>, finalState: set<T>, cs: set<set<T>>, c: set<T>, letters: set<V>)
    ensures FinalsOf(tr, finalState, cs + {c}, letters)
         == FinalsOf(tr, finalState, cs, letters) + FinalsOf(tr, finalState, {c}, letters)
  {
    var lhs := FinalsOf(tr, finalState, cs + {c}, letters);
    forall d | d in lhs
      ensures d in FinalsOf(tr, finalState, cs, letters) + FinalsOf(tr, finalState, {c}, letters)
    {
      var c', v :| c' in cs + {c} && v in letters && Post(tr, c', v) * finalState != {} && Post(tr, c', v) == d;
      if c' == c {
        assert c' in {c};
      }
    }
  }

  /** Every subset run over the alphabet from the initial set is explored, so the
      explored subsets are exactly the reachable ones. */
  lemma ExploredAreReachable<T(!new), V(!new)>(a: Fsa<T, V>, alphabet: set<V>, explored: set<set<T>>)
    requires a.initial in explored
    requires forall c :: c in explored ==> Reachable(a, alphabet, c)
    requires forall c, v :: c in explored && v in alphabet ==> Defined(a.trTable, c, v) && Post(a.trTable, c, v) in explored
    ensures forall c :: c in explored <==> Reachable(a, alphabet, c)
    ensures !Blocked(a, alphabet)
  {
    forall c | Reachable(a, alphabet, c) ensures c in explored {
      var w :| Over(w, alphabet) && SubsetRun(a.trTable, a.initial, w) == Some(c);
      ClosedContainsRuns(a.trTable, alphabet, explored, a.initial, w);
    }
  }

  /** Every subset in `cs` is made of states of the automaton and is reachable. */
  ghost predicate AllReachable<T(!new), V(!new)>(a: Fsa<T, V>, alphabet: set<V>, cs: set<set<T>>)
  {
    forall c :: c in cs ==> c <= Universe(a) && Reachable(a, alphabet, c)
  }

  /** Every stored subset is complete and its stored row is its row of singletons. */
  predicate RowsStored<T, V>(tr: map<T, map<V, set<T>>>, alphabet: set<V>, parts: map<set<T>, map<V, set<set<T>>>>)
  {
    forall c :: c in parts ==> Complete(tr, c, alphabet) && parts[c] == Row(tr, c, alphabet)
  }

  /** Every destination of a stored subset is stored or still waiting in `todo`. */
  predicate DestinationsPending<T, V>(tr: map<T, map<V, set<T>>>, alphabet: set<V>, stored: set<set<T>>, todo: set<set<T>>)
  {
    forall c, v :: c in stored && v in alphabet ==> Post(tr, c, v) in stored || Post(tr, c, v) in todo
  }

  /** What holds of the worklist state at the head of the `while` loop of `determinate`. */
  ghost predicate WorklistInv<T(!new), V(!new)>(a: Fsa<T, V>, alphabet: set<V>, parts: map<set<T>, map<V, set<set<T>>>>,
                                             todo: set<set<T>>, finals: set<set<T>>)
  {
    && AllReachable(a, alphabet, todo)
    && AllReachable(a, alphabet, parts.Keys)
    && (a.initial in todo || a.initial in parts)
    && RowsStored(a.trTable, alphabet, parts)
    && DestinationsPending(a.trTable, alphabet, parts.Keys, todo)
    && finals == FinalsOf(a.trTable, a.finalState, parts.Keys, alphabet)
  }

  lemma WorklistInvInit<T(!new), V(!new)>(a: Fsa<T, V>, alphabet: set<V>)
    ensures WorklistInv(a, alphabet, map[], {a.initial}, {})
  {
    InitialReachable(a, alphabet);
  }

  /** The queued destinations of a reachable subset are reachable subsets of the universe. */
  lemma NewSubsetsReachable<T(!new), V(!new)>(a: Fsa<T, V>, alphabet: set<V>, c: set<T>, stored: set<set<T>>)
    requires Reachable(a, alphabet, c) && Complete(a.trTable, c, alphabet)
    ensures AllReachable(a, alphabet, NewSubsets(a.trTable, c, alphabet, stored))
  {
    forall d | d in NewSubsets(a.trTable, c, alphabet, stored)
      ensures d <= Universe(a) && Reachable(a, alphabet, d)
    {
      var v :| v in alphabet && Post(a.trTable, c, v) !in stored && Post(a.trTable, c, v) == d;
      PostInUniverse(a, c, v);
      ReachableStep(a, alphabet, c, v);
    }
  }

  lemma RowsStoredInsert<T, V>(tr: map<T, map<V, set<T>>>, alphabet: set<V>, parts: map<set<T>, map<V, set<set<T>>>>, c: set<T>)
    requires RowsStored(tr, alphabet, parts) && Complete(tr, c, alphabet)
    ensures RowsStored(tr, alphabet, parts[c := Row(tr, c, alphabet)])
  {
  }

  lemma PendingAfterProcess<T, V>(tr: map<T, map<V, set<T>>>, alphabet: set<V>, stored: set<set<T>>, todo: set<set<T>>, c: set<T>)
    requires DestinationsPending(tr, alphabet, stored, todo) && c in todo
    ensures DestinationsPending(tr, alphabet, stored + {c}, (todo - {c}) + NewSubsets(tr, c, alphabet, stored))
    ensures c in stored ==> NewSubsets(tr, c, alphabet, stored) <= todo - {c}
  {
    var todo' := (todo - {c}) + NewSubsets(tr, c, alphabet, stored);
    forall e, v | e in stored + {c} && v in alphabet
      ensures Post(tr, e, v) in stored + {c} || Post(tr, e, v) in todo'
    {
      if e == c && Post(tr, c, v) !in stored {
        assert Post(tr, c, v) in NewSubsets(tr, c, alphabet, stored);
      }
    }
  }

  /** Processing one subset popped from the worklist keeps the invariant. Either the
      subset was new, and one more subset of the universe is stored, or it had been
      stored already (it was its own destination), and the worklist only shrinks. */
  lemma ProcessKeepsInv<T(!new), V(!new)>(a: Fsa<T, V>, alphabet: set<V>, parts: map<set<T>, map<V, set<set<T>>>>,
                                          todo: set<set<T>>, finals: set<set<T>>, c: set<T>,
                                          parts': map<set<T>, map<V, set<set<T>>>>, todo': set<set<T>>, finals': set<set<T>>)
    requires WorklistInv(a, alphabet, parts, todo, finals)
    requires c in todo && Complete(a.trTable, c, alphabet)
    requires parts' == parts[c := Row(a.trTable, c, alphabet)]
    requires todo' == (todo - {c}) + NewSubsets(a.trTable, c, alphabet, parts.Keys)
    requires finals' == finals + FinalsOf(a.trTable, a.finalState, {c}, alphabet)
    ensures WorklistInv(a, alphabet, parts', todo', finals')
  {
    var tr := a.trTable;
    var queued := NewSubsets(tr, c, alphabet, parts.Keys);
    assert parts'.Keys == parts.Keys + {c};
    NewSubsetsReachable(a, alphabet, c, parts.Keys);
    assert AllReachable(a, alphabet, todo');
    assert AllReachable(a, alphabet, parts'.Keys);
    RowsStoredInsert(tr, alphabet, parts, c);
    PendingAfterProcess(tr, alphabet, parts.Keys, todo, c);
    FinalsOfAddSubset(tr, a.finalState, parts.Keys, c, alphabet);
  }

  /** Processing a subset either stores one more subset of the universe, or, for a
      subset stored before (it was its own destination), only shrinks the worklist. */
  lemma ProcessDecreases<T, V>(a: Fsa<T, V>, alphabet: set<V>, parts: map<set<T>, map<V, set<set<T>>>>, todo: set<set<T>>,
                               c: set<T>, parts': map<set<T>, map<V, set<set<T>>>>, todo': set<set<T>>)
    requires DestinationsPending(a.trTable, alphabet, parts.Keys, todo)
    requires c in todo && c <= Universe(a)
    requires parts' == parts[c := Row(a.trTable, c, alphabet)]
    requires todo' == (todo - {c}) + NewSubsets(a.trTable, c, alphabet, parts.Keys)
    ensures || |PowerSet(Universe(a)) - parts'.Keys| < |PowerSet(Universe(a)) - parts.Keys|
            || (|PowerSet(Universe(a)) - parts'.Keys| == |PowerSet(Universe(a)) - parts.Keys| && |todo'| < |todo|)
  {
    PendingAfterProcess(a.trTable, alphabet, parts.Keys, todo, c);
    UpdateKeys(parts, c, Row(a.trTable, c, alphabet));
    var bound := PowerSet(Universe(a));
    if c in parts {
      SubsetCardinality(todo', todo - {c});
    } else {
      InPowerSet(Universe(a), c);
      DifferenceShrinks(bound, parts.Keys, c);
    }
  }

  lemma UpdateKeys<K, W>(m: map<K, W>, k: K, w: W)
    ensures m[k := w].Keys == m.Keys + {k}
    ensures k in m ==> m[k := w].Keys == m.Keys
  {
  }

  lemma DifferenceShrinks<X>(bound: set<X>, stored: set<X>, x: X)
    requires x in bound && x !in stored
    ensures |bound - (stored + {x})| < |bound - stored|
  {
    assert bound - (stored + {x}) == (bound - stored) - {x};
  }

  /** A reachable subset in the worklist that lacks a letter makes the automaton blocked. */
  lemma IncompleteIsBlocked<T(!new), V(!new)>(a: Fsa<T, V>, alphabet: set<V>, todo: set<set<T>>, c: set<T>)
    requires AllReachable(a, alphabet, todo) && c in todo && !Complete(a.trTable, c, alphabet)
    ensures Blocked(a, alphabet)
  {
    var v :| v in alphabet && !Defined(a.trTable, c, v);
    assert Reachable(a, alphabet, c);
  }

  /** When the worklist is empty, the stored subsets are the reachable ones and they are closed. */
  lemma WorklistDone<T(!new), V(!new)>(a: Fsa<T, V>, alphabet: set<V>, parts: map<set<T>, map<V, set<set<T>>>>,
                                       finals: set<set<T>>, d: Fsa<set<T>, V>)
    requires WorklistInv(a, alphabet, parts, {}, finals)
    requires d == Fsa({a.initial}, finals, parts)
    ensures !Blocked(a, alphabet)
    ensures d.initial == {a.initial}
    ensures forall c :: c in d.trTable <==> Reachable(a, alphabet, c)
    ensures forall c :: c in d.trTable ==> Complete(a.trTable, c, alphabet) && d.trTable[c] == Row(a.trTable, c, alphabet)
    ensures forall c, v :: c in d.trTable && v in alphabet ==> Post(a.trTable, c, v) in d.trTable
    ensures d.finalState == FinalsOf(a.trTable, a.finalState, d.trTable.Keys, alphabet)
  {
    ExploredAreReachable(a, alphabet, parts.Keys);
  }

  /** One turn of the `while` loop of `determinate` (fsa.hpp:75-98): pop some subset
      `currentSet` of the worklist, process its letters, store its row. `ok` is false
      where `.at` throws. A subset that was its own destination is queued again (it is
      not stored while its letters are processed) and later processed a second time. */
  method ProcessOne<T(==), V(==)>(a: Fsa<T, V>, alphabet: set<V>,
                                  parts: map<set<T>, map<V, set<set<T>>>>, todo: set<set<T>>, finals: set<set<T>>)
    returns (ok: bool, currentSet: set<T>,
             parts': map<set<T>, map<V, set<set<T>>>>, todo': set<set<T>>, finals': set<set<T>>)
    requires todo != {}
    ensures currentSet in todo
    ensures ok <==> Complete(a.trTable, currentSet, alphabet)
    ensures ok ==> parts' == parts[currentSet := Row(a.trTable, currentSet, alphabet)]
    ensures ok ==> todo' == (todo - {currentSet}) + NewSubsets(a.trTable, currentSet, alphabet, parts.Keys)
    ensures ok ==> finals' == finals + FinalsOf(a.trTable, a.finalState, {currentSet}, alphabet)
  {
    currentSet :| currentSet in todo;
    var transition;
    ok, transition, todo', finals' := ProcessLetters(a, alphabet, currentSet, parts.Keys, todo - {currentSet}, finals);
    parts' := parts[currentSet := transition];
  }

  /** The worklist loop of `determinate` (fsa.hpp:67-99). On success the result is
      the automaton over subsets that the source renames afterwards: its initial set
      is the singleton of the initial subset, its rows are the explored subsets, and
      its finals are the destinations that hold a final state. It fails exactly when
      some reachable subset has a member without a row or a letter (where `.at` throws). */
  method Explore<T(==,!new), V(==,!new)>(a: Fsa<T, V>, alphabet: set<V>) returns (r: Option<Fsa<set<T>, V>>)
    ensures r.None? <==> Blocked(a, alphabet)
    ensures r.Some? ==> r.value.initial == {a.initial}
    ensures r.Some? ==> forall c :: c in r.value.trTable <==> Reachable(a, alphabet, c)
    ensures r.Some? ==> forall c :: c in r.value.trTable ==>
                          Complete(a.trTable, c, alphabet) && r.value.trTable[c] == Row(a.trTable, c, alphabet)
    ensures r.Some? ==> forall c, v :: c in r.value.trTable && v in alphabet ==> Post(a.trTable, c, v) in r.value.trTable
    ensures r.Some? ==> r.value.finalState == FinalsOf(a.trTable, a.finalState, r.value.trTable.Keys, alphabet)
  {
    ghost var bound := PowerSet(Universe(a));
    var partsTrTable: map<set<T>, map<V, set<set<T>>>> := map[];
    var initials: set<set<T>> := {a.initial};
    var finals: set<set<T>> := {};
    var todo: set<set<T>> := {a.initial};
    WorklistInvInit(a, alphabet);
    while todo != {}
      invariant WorklistInv(a, alphabet, partsTrTable, todo, finals)
      decreases |bound - partsTrTable.Keys|, |todo|
    {
      var ok, currentSet, parts', todo', finals';
      ok, currentSet, parts', todo', finals' := ProcessOne(a, alphabet, partsTrTable, todo, finals);
      if !ok {
        IncompleteIsBlocked(a, alphabet, todo, currentSet);
        r := None;
        return;
      }
      ProcessKeepsInv(a, alphabet, partsTrTable, todo, finals, currentSet, parts', todo', finals');
      ProcessDecreases(a, alphabet, partsTrTable, todo, currentSet, parts', todo');
      partsTrTable, todo, finals := parts', todo', finals';
    }
    WorklistDone(a, alphabet, partsTrTable, finals, Fsa(initials, finals, partsTrTable));
    r := Some(Fsa(initials, finals, partsTrTable));
  }

  lemma ImageSingleton<T, NT>(x: T, f: T -> NT)
    ensures Image({x}, f) == {f(x)}
  {
  }

  /** Renaming the explored subsets through an injective numbering: the initial set,
      the finals and the table of the result in terms of the subsets. */
  lemma RenamedSubsets<T, V>(tr: map<T, map<V, set<T>>>, finalState: set<T>, alphabet: set<V>, initial: set<T>,
                             parts: Fsa<set<T>, V>, names: map<set<T>, string>, conv: set<T> -> string,
                             rowOrder: seq<set<T>>, renamed: Fsa<string, V>)
    requires parts.initial == {initial} && initial in parts.trTable
    requires forall c :: c in parts.trTable ==> parts.trTable[c] == Row(tr, c, alphabet)
    requires forall c, v :: c in parts.trTable && v in alphabet ==> Post(tr, c, v) in parts.trTable
    requires parts.finalState == FinalsOf(tr, finalState, parts.trTable.Keys, alphabet)
    requires names.Keys == parts.trTable.Keys && DistinctLabels(names)
    requires forall c :: c in names ==> conv(c) == names[c]
    requires IsEnumeration(rowOrder, parts.trTable.Keys)
    requires renamed == RenamedFsa(parts, conv, rowOrder)
    ensures renamed.initial == {names[initial]}
    ensures renamed.finalState ==
              set c | c in parts.trTable && c in FinalsOf(tr, finalState, parts.trTable.Keys, alphabet) :: names[c]
    ensures renamed.trTable.Keys == set c | c in parts.trTable :: names[c]
    ensures forall c :: c in parts.trTable ==> renamed.trTable[names[c]] == map v | v in alphabet :: {names[Post(tr, c, v)]}
  {
    var explored := parts.trTable.Keys;
    assert InjectiveOn(conv, explored);
    RenameInjective(parts, conv, rowOrder);
    RenamedTableKeys(parts.trTable, conv, rowOrder);
    ImageSingleton(initial, conv);
    RenamedFinalNames(tr, finalState, alphabet, explored, names, conv, renamed.finalState);
    RenamedRowNames(explored, names, conv, renamed.trTable.Keys);
    forall c | c in explored
      ensures renamed.trTable[names[c]] == map v | v in alphabet :: {names[Post(tr, c, v)]}
    {
      assert conv(c) == names[c];
      RenamedSubsetRow(tr, c, alphabet, names, conv);
    }
  }

  /** The renamed finals are the names of the final destinations. */
  lemma RenamedFinalNames<T, V>(tr: map<T, map<V, set<T>>>, finalState: set<T>, alphabet: set<V>,
                                explored: set<set<T>>, names: map<set<T>, string>, conv: set<T> -> string,
                                renamedFinals: set<string>)
    requires forall c, v :: c in explored && v in alphabet ==> Post(tr, c, v) in explored
    requires names.Keys == explored
    requires forall c :: c in names ==> conv(c) == names[c]
    requires renamedFinals == Image(FinalsOf(tr, finalState, explored, alphabet), conv)
    ensures renamedFinals == set c | c in explored && c in FinalsOf(tr, finalState, explored, alphabet) :: names[c]
  {
    var finalSubsets := FinalsOf(tr, finalState, explored, alphabet);
    forall x | x in renamedFinals
      ensures x in set c | c in explored && c in finalSubsets :: names[c]
    {
      var c :| c in finalSubsets && conv(c) == x;
      var c', v :| c' in explored && v in alphabet && Post(tr, c', v) * finalState != {} && Post(tr, c', v) == c;
    }
    forall c | c in explored && c in finalSubsets ensures names[c] in renamedFinals {
      assert conv(c) == names[c];
    }
  }

  /** The renamed rows are exactly the names of the explored subsets. */
  lemma RenamedRowNames<K>(explored: set<K>, names: map<K, string>, conv: K -> string, keys: set<string>)
    requires names.Keys == explored
    requires forall c :: c in names ==> conv(c) == names[c]
    requires keys == Image(explored, conv)
    ensures keys == set c | c in explored :: names[c]
  {
    forall x | x in keys ensures x in set c | c in explored :: names[c] {
      var c :| c in explored && conv(c) == x;
    }
  }

  /** The row of an explored subset, renamed: each letter goes to the singleton of the
      name of its destination. */
  lemma RenamedSubsetRow<T, V>(tr: map<T, map<V, set<T>>>, c: set<T>, alphabet: set<V>,
                               names: map<set<T>, string>, conv: set<T> -> string)
    requires forall v :: v in alphabet ==> Post(tr, c, v) in names
    requires forall d :: d in names ==> conv(d) == names[d]
    ensures RenamedRow(Row(tr, c, alphabet), conv) == map v | v in alphabet :: {names[Post(tr, c, v)]}
  {
    var row := RenamedRow(Row(tr, c, alphabet), conv);
    forall v | v in alphabet ensures row[v] == {names[Post(tr, c, v)]} {
      ImageSingleton(Post(tr, c, v), conv);
    }
  }

  /** The subsets `determinate` explores and names: exactly the reachable ones, holding
      the initial subset and closed under every letter of the alphabet (each defined on
      them), numbered by distinct labels "r0", "r1", ... */
  ghost predicate NamedReachableSubsets<T(!new), V(!new)>(a: Fsa<T, V>, alphabet: set<V>,
                                                           explored: set<set<T>>, name: map<set<T>, string>)
  {
    && (forall c :: c in explored <==> Reachable(a, alphabet, c))
    && a.initial in explored
    && (forall c, v :: c in explored && v in alphabet ==> Defined(a.trTable, c, v) && Post(a.trTable, c, v) in explored)
    && name.Keys == explored
    && DistinctLabels(name)
    && LabelsBelow(name, |explored|)
  }

  /** The automaton `determinate` yields over the named subsets: its initial set is the
      name of the initial subset, a name is final iff its subset is a final destination,
      and every row maps each letter to the singleton of the name of its destination. */
  ghost predicate NamedSubsetAutomaton<T, V>(a: Fsa<T, V>, alphabet: set<V>, r: Fsa<string, V>,
                                             explored: set<set<T>>, name: map<set<T>, string>)
    requires name.Keys == explored
    requires forall c, v :: c in explored && v in alphabet ==> Post(a.trTable, c, v) in explored
  {
    && a.initial in explored
    && r.initial == {name[a.initial]}
    && r.finalState == (set c | c in explored && c in FinalsOf(a.trTable, a.finalState, explored, alphabet) :: name[c])
    && r.trTable.Keys == (set c | c in explored :: name[c])
    && (forall c :: c in explored ==> r.trTable[name[c]] == map v | v in alphabet :: {name[Post(a.trTable, c, v)]})
  }

  /** The numbering of the explored subsets, by the worklist's own guarantees. */
  lemma NumberingOfReachable<T(!new), V(!new)>(a: Fsa<T, V>, alphabet: set<V>, parts: Fsa<set<T>, V>,
                                               names: map<set<T>, string>, order: seq<set<T>>)
    requires forall c :: c in parts.trTable <==> Reachable(a, alphabet, c)
    requires forall c :: c in parts.trTable ==> Complete(a.trTable, c, alphabet)
    requires forall c, v :: c in parts.trTable && v in alphabet ==> Post(a.trTable, c, v) in parts.trTable
    requires LabelledInOrder(names, order, parts.trTable.Keys)
    ensures NamedReachableSubsets(a, alphabet, parts.trTable.Keys, names)
  {
    InitialReachable(a, alphabet);
  }

  /** Renaming the worklist's automaton through the numbering gives the automaton
      `determinate` promises. */
  lemma NumberedRenameCorrect<T, V>(a: Fsa<T, V>, alphabet: set<V>, parts: Fsa<set<T>, V>,
                                    names: map<set<T>, string>, conv: set<T> -> string,
                                    rowOrder: seq<set<T>>, renamed: Fsa<string, V>)
    requires parts.initial == {a.initial} && a.initial in parts.trTable
    requires forall c :: c in parts.trTable ==> parts.trTable[c] == Row(a.trTable, c, alphabet)
    requires forall c, v :: c in parts.trTable && v in alphabet ==> Post(a.trTable, c, v) in parts.trTable
    requires parts.finalState == FinalsOf(a.trTable, a.finalState, parts.trTable.Keys, alphabet)
    requires names.Keys == parts.trTable.Keys && DistinctLabels(names)
    requires forall c :: c in names ==> conv(c) == names[c]
    requires IsEnumeration(rowOrder, parts.trTable.Keys)
    requires renamed == RenamedFsa(parts, conv, rowOrder)
    ensures NamedSubsetAutomaton(a, alphabet, renamed, parts.trTable.Keys, names)
  {
    RenamedSubsets(a.trTable, a.finalState, alphabet, a.initial, parts, names, conv, rowOrder, renamed);
  }

  /** `determinate` (fsa.hpp:65-113): the subset construction over `alphabet`, then every
      explored subset renamed to its number. It fails (the source throws) exactly when a
      reachable subset is blocked. */
  method Determinate<T(==,!new), V(==,!new)>(a: Fsa<T, V>, alphabet: set<V>)
    returns (r: Option<Fsa<string, V>>, ghost explored: set<set<T>>, ghost name: map<set<T>, string>)
    ensures r.None? <==> Blocked(a, alphabet)
    ensures r.Some? ==> NamedReachableSubsets(a, alphabet, explored, name)
    ensures r.Some? ==> NamedSubsetAutomaton(a, alphabet, r.value, explored, name)
  {
    explored, name := {}, map[];
    var sub := Explore(a, alphabet);
    if sub.None? {
      r := None;
      return;
    }
    var parts := sub.value;
    var names;
    ghost var order;
    names, order := NumberSubsets(parts.trTable);
    var conv := (part: set<T>) => if part in names then names[part] else "";
    var renamed;
    ghost var rowOrder;
    renamed, rowOrder := Rename(parts, conv);
    NumberingOfReachable(a, alphabet, parts, names, order);
    NumberedRenameCorrect(a, alphabet, parts, names, conv, rowOrder, renamed);
    r := Some(renamed);
    explored, name := parts.trTable.Keys, names;
  }
}
