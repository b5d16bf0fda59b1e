/** `DFA<T,V>` of include/dfa.hpp: a deterministic automaton with one initial state,
    a set of finals and a partial transition function, built directly or by
    determinising an `FSA`, and the walk `validate` that decides acceptance. */
module Deterministic {
  import opened Wrappers
  import opened Automaton
  import opened Subsets
  import opened Determinize
  import opened Numbering

  /** The state reached by following `w` from `q`; `None` as soon as the current state
      has no row or its row lacks the next letter. This is the left fold of `delta`
      over the word. */
  function Walk<T, V>(delta: map<T, map<V, T>>, q: T, w: seq<V>): Option<T>
    decreases |w|
  {
    if w == [] then Some(q)
    else if q in delta && w[0] in delta[q] then Walk(delta, delta[q][w[0]], w[1..])
    else None
  }

  /** `w` is accepted from `q`: every step is defined and the walk ends in a final. */
  predicate Accepts<T, V>(delta: map<T, map<V, T>>, q: T, finals: set<T>, w: seq<V>)
  {
    Walk(delta, q, w).Some? && Walk(delta, q, w).value in finals
  }

  /** `delta[q]` as `operator[]` leaves it: an empty row is inserted when `q` has none. */
  function WithRow<T, V>(delta: map<T, map<V, T>>, q: T): (d: map<T, map<V, T>>)
    ensures q in d
  {
    if q in delta then delta else delta[q := map[]]
  }

  /** The transition function after `validate(w)` from `q`: every state looked up on the
      way, up to the one whose row lacks the letter, has a row. */
  function Validated<T, V>(delta: map<T, map<V, T>>, q: T, w: seq<V>): map<T, map<V, T>>
    decreases |w|
  {
    if w == [] then delta
    else
      var d := WithRow(delta, q);
      if w[0] in d[q] then Validated(d, d[q][w[0]], w[1..]) else d
  }

  /** `after` is `before` with possibly some empty rows added for states without one. */
  ghost predicate OnlyEmptyRowsAdded<T, V>(before: map<T, map<V, T>>, after: map<T, map<V, T>>)
  {
    && before.Keys <= after.Keys
    && (forall q :: q in before ==> after[q] == before[q])
    && (forall q :: q in after && q !in before ==> after[q] == map[])
  }

  /** Empty rows change no walk: a state without a row and a state with an empty row
      both stop every non-empty word. */
  lemma {:induction false} WalkIgnoresEmptyRows<T, V>(before: map<T, map<V, T>>, after: map<T, map<V, T>>, q: T, w: seq<V>)
    requires OnlyEmptyRowsAdded(before, after)
    ensures Walk(after, q, w) == Walk(before, q, w)
    decreases |w|
  {
    if w != [] && q in before && w[0] in before[q] {
      WalkIgnoresEmptyRows(before, after, before[q][w[0]], w[1..]);
    }
  }

  /** `validate` only ever adds empty rows. */
  lemma {:induction false} ValidatedAddsEmptyRows<T, V>(delta: map<T, map<V, T>>, q: T, w: seq<V>)
    ensures OnlyEmptyRowsAdded(delta, Validated(delta, q, w))
    decreases |w|
  {
    if w != [] {
      var d := WithRow(delta, q);
      if w[0] in d[q] {
        ValidatedAddsEmptyRows(d, d[q][w[0]], w[1..]);
      }
    }
  }

  /** Running `validate` does not change the answer of any later `validate`. */
  lemma ValidateKeepsLanguage<T, V>(delta: map<T, map<V, T>>, q: T, w: seq<V>, q': T, finals: set<T>, w': seq<V>)
    ensures Accepts(Validated(delta, q, w), q', finals, w') == Accepts(delta, q', finals, w')
  {
    ValidatedAddsEmptyRows(delta, q, w);
    WalkIgnoresEmptyRows(delta, Validated(delta, q, w), q', w');
  }

  /** Walking a concatenation walks the first part, then the second from where it ended. */
  lemma {:induction false} WalkAppend<T, V>(delta: map<T, map<V, T>>, q: T, u: seq<V>, v: seq<V>)
    ensures Walk(delta, q, u + v) ==
              match Walk(delta, q, u)
              case None => None
              case Some(p) => Walk(delta, p, v)
    decreases |u|
  {
    if u == [] {
      assert u + v == v;
    } else {
      assert (u + v)[0] == u[0];
      assert (u + v)[1..] == u[1..] + v;
      if q in delta && u[0] in delta[q] {
        WalkAppend(delta, delta[q][u[0]], u[1..], v);
      }
    }
  }

  /** The empty word is accepted iff the initial state is final. */
  lemma AcceptsEmpty<T, V>(delta: map<T, map<V, T>>, q: T, finals: set<T>)
    ensures Accepts(delta, q, finals, []) <==> q in finals
  {
  }

  /** Once the walk of a prefix reaches a state without the next letter, the word is
      rejected, whatever follows. */
  lemma RejectsAtMissingStep<T, V>(delta: map<T, map<V, T>>, q: T, finals: set<T>, w: seq<V>, i: nat)
    requires i < |w| && Walk(delta, q, w[..i]).Some?
    requires var p := Walk(delta, q, w[..i]).value; p !in delta || w[i] !in delta[p]
    ensures !Accepts(delta, q, finals, w)
  {
    assert w == w[..i] + w[i..];
    WalkAppend(delta, q, w[..i], w[i..]);
  }

  class Dfa<T(==), V(==)> {
    var initial: T
    var finals: set<T>
    var delta: map<T, map<V, T>>

    /** The direct constructor (dfa.hpp:15-20). */
    constructor (initial: T, finals: set<T>, delta: map<T, map<V, T>>)
      ensures this.initial == initial && this.finals == finals && this.delta == delta
    {
      this.initial := initial;
      this.finals := finals;
      this.delta := delta;
    }

    /** `validate` (dfa.hpp:48-56): the word is accepted iff every step of the walk from
        `initial` is defined and it ends in a final. `initial` and `finals` are kept;
        `delta` gains the empty rows `operator[]` inserts on the way. */
    method Validate(word: seq<V>) returns (accepted: bool)
      modifies this
      ensures accepted == Accepts(old(delta), initial, finals, word)
      ensures initial == old(initial) && finals == old(finals)
      ensures delta == Validated(old(delta), initial, word)
    {
      var currentState := initial;
      var i := 0;
      while i < |word|
        invariant 0 <= i <= |word|
        invariant initial == old(initial) && finals == old(finals)
        invariant OnlyEmptyRowsAdded(old(delta), delta)
        invariant Walk(old(delta), initial, word) == Walk(old(delta), currentState, word[i..])
        invariant Validated(old(delta), initial, word) == Validated(delta, currentState, word[i..])
      {
        assert word[i..][0] == word[i] && word[i..][1..] == word[i + 1..];
        delta := WithRow(delta, currentState);
        if word[i] !in delta[currentState] {
          accepted := false;
          return;
        }
        currentState := delta[currentState][word[i]];
        i := i + 1;
      }
      accepted := currentState in finals;
    }
  }

  /** The nested loops of the converting constructor (dfa.hpp:29-34) over a table whose
      destination sets are never empty: every letter of a row goes to a member of its
      destination set, the sole member of a singleton; a state gets a row only if its
      row has a letter. */
  method Flatten<T(==), V(==)>(tr: map<T, map<V, set<T>>>) returns (delta: map<T, map<V, T>>)
    requires forall s, v :: s in tr && v in tr[s] ==> tr[s][v] != {}
    ensures forall s :: s in delta <==> s in tr && tr[s] != map[]
    ensures forall s :: s in delta ==> delta[s].Keys == tr[s].Keys
    ensures forall s, v :: s in delta && v in delta[s] ==> delta[s][v] in tr[s][v]
  {
    delta := map[];
    var states := tr.Keys;
    while states != {}
      invariant states <= tr.Keys
      invariant FlattenedExcept(tr, states, delta)
      decreases states
    {
      var state :| state in states;
      ghost var before := delta;
      var letters := tr[state].Keys;
      while letters != {}
        invariant letters <= tr[state].Keys
        invariant state in delta <==> letters != tr[state].Keys
        invariant state in delta ==> delta[state].Keys == tr[state].Keys - letters
        invariant state in delta ==> forall v :: v in delta[state] ==> delta[state][v] in tr[state][v]
        invariant delta.Keys - {state} == before.Keys
        invariant forall s :: s in before ==> delta[s] == before[s]
        decreases letters
      {
        var letter :| letter in letters;
        var dest :| dest in tr[state][letter];
        var row := if state in delta then delta[state] else map[];
        delta := delta[state := row[letter := dest]];
        letters := letters - {letter};
      }
      FlattenedStep(tr, states, state, before, delta);
      states := states - {state};
    }
  }

  /** The rows of every state of `tr` outside `pending` are flattened into `delta`. */
  ghost predicate FlattenedExcept<T, V>(tr: map<T, map<V, set<T>>>, pending: set<T>, delta: map<T, map<V, T>>)
  {
    && (forall s :: s in delta ==> s in tr && s !in pending && tr[s] != map[])
    && (forall s :: s in tr && s !in pending && tr[s] != map[] ==> s in delta)
    && (forall s :: s in delta ==> delta[s].Keys == tr[s].Keys)
    && (forall s, v :: s in delta && v in delta[s] ==> delta[s][v] in tr[s][v])
  }

  lemma FlattenedStep<T, V>(tr: map<T, map<V, set<T>>>, pending: set<T>, state: T,
                            before: map<T, map<V, T>>, after: map<T, map<V, T>>)
    requires state in pending && pending <= tr.Keys && state !in before
    requires FlattenedExcept(tr, pending, before)
    requires state in after <==> tr[state] != map[]
    requires state in after ==> after[state].Keys == tr[state].Keys
    requires state in after ==> forall v :: v in after[state] ==> after[state][v] in tr[state][v]
    requires after.Keys - {state} == before.Keys
    requires forall s :: s in before ==> after[s] == before[s]
    ensures FlattenedExcept(tr, pending - {state}, after)
  {
  }

  /** Over a non-empty alphabet, the row of the name of every explored subset maps each
      letter to the name of the destination of the subset; no other state has a row. */
  ghost predicate SubsetDelta<S, V>(fsa: Fsa<S, V>, alphabet: set<V>, explored: set<set<S>>, name: map<set<S>, string>,
                                    delta: map<string, map<V, string>>)
    requires name.Keys == explored
    requires forall c, v :: c in explored && v in alphabet ==> Post(fsa.trTable, c, v) in explored
  {
    && (forall n :: n in delta ==> alphabet != {} && exists c :: c in explored && name[c] == n)
    && (forall c :: c in explored && alphabet != {} ==>
          name[c] in delta && delta[name[c]] == map v | v in alphabet :: name[Post(fsa.trTable, c, v)])
  }

  /** What the converting constructor yields from `fsa` over `alphabet`, with `explored`
      and `name` the subsets and names of `determinate`: the initial state is the name of
      the initial subset, a name is final iff its subset is a final destination, and the
      transition function is `SubsetDelta`. */
  ghost predicate ConvertedFrom<S, V>(fsa: Fsa<S, V>, alphabet: set<V>, explored: set<set<S>>, name: map<set<S>, string>,
                                      initial: string, finals: set<string>, delta: map<string, map<V, string>>)
    requires name.Keys == explored
    requires forall c, v :: c in explored && v in alphabet ==> Post(fsa.trTable, c, v) in explored
  {
    && fsa.initial in explored
    && initial == name[fsa.initial]
    && finals == (set c | c in explored && c in FinalsOf(fsa.trTable, fsa.finalState, explored, alphabet) :: name[c])
    && SubsetDelta(fsa, alphabet, explored, name, delta)
  }

  /** Flattening the renamed table of `determinate` gives the transition function of
      the subset construction. */
  lemma FlattenedSubsetTable<S(!new), V(!new)>(fsa: Fsa<S, V>, alphabet: set<V>, explored: set<set<S>>,
                                               name: map<set<S>, string>, det: Fsa<string, V>,
                                               delta: map<string, map<V, string>>)
    requires NamedReachableSubsets(fsa, alphabet, explored, name)
    requires NamedSubsetAutomaton(fsa, alphabet, det, explored, name)
    requires forall s :: s in delta <==> s in det.trTable && det.trTable[s] != map[]
    requires forall s :: s in delta ==> delta[s].Keys == det.trTable[s].Keys
    requires forall s, v :: s in delta && v in delta[s] ==> delta[s][v] in det.trTable[s][v]
    ensures SubsetDelta(fsa, alphabet, explored, name, delta)
  {
    forall n | n in delta ensures alphabet != {} && exists c :: c in explored && name[c] == n {
      FlattenedRowOwner(fsa, alphabet, explored, name, det, n);
    }
    forall c | c in explored && alphabet != {}
      ensures name[c] in delta && delta[name[c]] == map v | v in alphabet :: name[Post(fsa.trTable, c, v)]
    {
      StoredRowNotEmpty(fsa.trTable, c, alphabet, name, det.trTable[name[c]]);
      FlattenedRow(fsa.trTable, c, alphabet, name, det.trTable[name[c]], delta[name[c]]);
    }
  }

  /** A state with a non-empty row in the table of `determinate` names an explored
      subset, and the alphabet is not empty. */
  lemma FlattenedRowOwner<S(!new), V(!new)>(fsa: Fsa<S, V>, alphabet: set<V>, explored: set<set<S>>,
                                            name: map<set<S>, string>, det: Fsa<string, V>, n: string)
    requires NamedReachableSubsets(fsa, alphabet, explored, name)
    requires NamedSubsetAutomaton(fsa, alphabet, det, explored, name)
    requires n in det.trTable && det.trTable[n] != map[]
    ensures alphabet != {} && exists c :: c in explored && name[c] == n
  {
    assert n in (set c | c in explored :: name[c]);
    var c :| c in explored && name[c] == n;
    var v :| v in det.trTable[n];
    assert det.trTable[n] == map v | v in alphabet :: {name[Post(fsa.trTable, c, v)]};
  }

  /** The row `determinate` stores for a subset over a non-empty alphabet is not empty. */
  lemma StoredRowNotEmpty<S, V>(tr: map<S, map<V, set<S>>>, c: set<S>, alphabet: set<V>, name: map<set<S>, string>,
                                row: map<V, set<string>>)
    requires alphabet != {}
    requires forall v :: v in alphabet ==> Post(tr, c, v) in name
    requires row == map v | v in alphabet :: {name[Post(tr, c, v)]}
    ensures row != map[]
  {
    var v :| v in alphabet;
    assert v in row;
  }

  /** Flattening the row `determinate` stores for subset `c` member by member gives the
      names of the destinations. */
  lemma FlattenedRow<S, V>(tr: map<S, map<V, set<S>>>, c: set<S>, alphabet: set<V>, name: map<set<S>, string>,
                           row: map<V, set<string>>, flat: map<V, string>)
    requires forall v :: v in alphabet ==> Post(tr, c, v) in name
    requires row == map v | v in alphabet :: {name[Post(tr, c, v)]}
    requires flat.Keys == row.Keys && forall v :: v in flat ==> flat[v] in row[v]
    ensures flat == map v | v in alphabet :: name[Post(tr, c, v)]
  {
  }

  /** The converting constructor (dfa.hpp:22-35): determinise `fsa` over `alphabet`, take
      the single initial state, copy the finals and flatten the singleton destination
      sets. It fails (the source throws) exactly when `determinate` does. */
  method FromFsa<S(==,!new), V(==,!new)>(fsa: Fsa<S, V>, alphabet: set<V>)
    returns (r: Option<Dfa<string, V>>, ghost explored: set<set<S>>, ghost name: map<set<S>, string>)
    ensures r.None? <==> Blocked(fsa, alphabet)
    ensures r.Some? ==> fresh(r.value)
    ensures r.Some? ==> NamedReachableSubsets(fsa, alphabet, explored, name)
    ensures r.Some? ==> ConvertedFrom(fsa, alphabet, explored, name, r.value.initial, r.value.finals, r.value.delta)
  {
    var fsaD;
    fsaD, explored, name := Determinate(fsa, alphabet);
    if fsaD.None? {
      return None, explored, name;
    }
    var det := fsaD.value;
    var initial :| initial in det.initial;
    var delta := Flatten(det.trTable);
    ConvertedFromDeterminate(fsa, alphabet, explored, name, det, initial, delta);
    var dfa := new Dfa(initial, det.finalState, delta);
    r := Some(dfa);
  }

  /** Taking the member of the singleton initial set, the finals and the flattened table
      of `determinate` gives the converted automaton. */
  lemma ConvertedFromDeterminate<S(!new), V(!new)>(fsa: Fsa<S, V>, alphabet: set<V>, explored: set<set<S>>,
                                                   name: map<set<S>, string>, det: Fsa<string, V>,
                                                   initial: string, delta: map<string, map<V, string>>)
    requires NamedReachableSubsets(fsa, alphabet, explored, name)
    requires NamedSubsetAutomaton(fsa, alphabet, det, explored, name)
    requires initial in det.initial
    requires forall s :: s in delta <==> s in det.trTable && det.trTable[s] != map[]
    requires forall s :: s in delta ==> delta[s].Keys == det.trTable[s].Keys
    requires forall s, v :: s in delta && v in delta[s] ==> delta[s][v] in det.trTable[s][v]
    ensures ConvertedFrom(fsa, alphabet, explored, name, initial, det.finalState, delta)
  {
    FlattenedSubsetTable(fsa, alphabet, explored, name, det, delta);
  }

  /** A walk of the converted automaton from the name of an explored subset follows the
      subset run: it is defined exactly on the words over the alphabet and ends in the
      name of the subset the run reaches. */
  lemma {:induction false} WalkFollowsSubsetRun<S, V>(fsa: Fsa<S, V>, alphabet: set<V>, explored: set<set<S>>,
                                                       name: map<set<S>, string>,
                                                       delta: map<string, map<V, string>>, c: set<S>, w: seq<V>)
    requires name.Keys == explored
    requires forall c, v :: c in explored && v in alphabet ==> Defined(fsa.trTable, c, v) && Post(fsa.trTable, c, v) in explored
    requires SubsetDelta(fsa, alphabet, explored, name, delta)
    requires c in explored
    ensures Walk(delta, name[c], w).Some? <==> Over(w, alphabet)
    ensures Over(w, alphabet) ==>
              SubsetRun(fsa.trTable, c, w).Some? && SubsetRun(fsa.trTable, c, w).value in explored &&
              Walk(delta, name[c], w) == Some(name[SubsetRun(fsa.trTable, c, w).value])
    decreases |w|
  {
    if w != [] {
      if w[0] in alphabet {
        var d := Post(fsa.trTable, c, w[0]);
        assert delta[name[c]][w[0]] == name[d];
        WalkFollowsSubsetRun(fsa, alphabet, explored, name, delta, d, w[1..]);
        OverCons(w, alphabet);
      } else {
        OverCons(w, alphabet);
        if name[c] in delta {
          assert delta[name[c]] == map v | v in alphabet :: name[Post(fsa.trTable, c, v)];
        }
      }
    }
  }

  lemma OverCons<V>(w: seq<V>, alphabet: set<V>)
    requires w != []
    ensures Over(w, alphabet) <==> w[0] in alphabet && Over(w[1..], alphabet)
  {
    if w[0] in alphabet && Over(w[1..], alphabet) {
      forall i | 0 <= i < |w| ensures w[i] in alphabet {
        if i > 0 { assert w[i] == w[1..][i - 1]; }
      }
    }
    if Over(w, alphabet) {
      forall i | 0 <= i < |w[1..]| ensures w[1..][i] in alphabet { assert w[1..][i] == w[i + 1]; }
    }
  }

  /** A destination on a letter of an explored subset is final in the converted
      automaton iff it holds a final state of `fsa`. */
  lemma FinalDestination<S, V>(fsa: Fsa<S, V>, alphabet: set<V>, explored: set<set<S>>,
                               name: map<set<S>, string>, initial: string, finals: set<string>,
                               delta: map<string, map<V, string>>, c: set<S>, v: V)
    requires name.Keys == explored
    requires DistinctLabels(name)
    requires forall c, v :: c in explored && v in alphabet ==> Post(fsa.trTable, c, v) in explored
    requires ConvertedFrom(fsa, alphabet, explored, name, initial, finals, delta)
    requires c in explored && v in alphabet
    ensures name[Post(fsa.trTable, c, v)] in finals <==> Post(fsa.trTable, c, v) * fsa.finalState != {}
  {
    var d := Post(fsa.trTable, c, v);
    FinalsOfMeaning(fsa.trTable, fsa.finalState, explored, alphabet, d);
    if name[d] in finals {
      var e :| e in explored && e in FinalsOf(fsa.trTable, fsa.finalState, explored, alphabet) && name[e] == name[d];
    }
  }

  /** The subset run of a non-empty word ends in the destination of the run of its
      prefix on the last letter. */
  lemma RunOfNonEmpty<S, V>(tr: map<S, map<V, set<S>>>, c: set<S>, w: seq<V>)
    requires w != [] && SubsetRun(tr, c, w).Some?
    ensures SubsetRun(tr, c, w[..|w| - 1]).Some?
    ensures SubsetRun(tr, c, w).value == Post(tr, SubsetRun(tr, c, w[..|w| - 1]).value, w[|w| - 1])
  {
    assert w == w[..|w| - 1] + [w[|w| - 1]];
    RunSnoc(tr, c, w[..|w| - 1], w[|w| - 1]);
  }

  /** The automaton the converting constructor builds accepts a non-empty word iff the
      word is over the alphabet and the subset run of `fsa` on it reaches a set holding
      a final state; it accepts the empty word iff the initial subset is a final
      destination (it holds a final state and some explored subset leads to it). */
  lemma ConvertedAccepts<S(!new), V(!new)>(fsa: Fsa<S, V>, alphabet: set<V>, explored: set<set<S>>,
                                           name: map<set<S>, string>, initial: string, finals: set<string>,
                                           delta: map<string, map<V, string>>, w: seq<V>)
    requires NamedReachableSubsets(fsa, alphabet, explored, name)
    requires ConvertedFrom(fsa, alphabet, explored, name, initial, finals, delta)
    ensures w != [] ==>
              (Accepts(delta, initial, finals, w) <==>
                 Over(w, alphabet) && SubsetRun(fsa.trTable, fsa.initial, w).Some? &&
                 SubsetRun(fsa.trTable, fsa.initial, w).value * fsa.finalState != {})
    ensures w == [] ==>
              (Accepts(delta, initial, finals, w) <==>
                 fsa.initial in FinalsOf(fsa.trTable, fsa.finalState, explored, alphabet))
  {
    WalkFollowsSubsetRun(fsa, alphabet, explored, name, delta, fsa.initial, w);
    if w == [] {
      if initial in finals {
        var e :| e in explored && e in FinalsOf(fsa.trTable, fsa.finalState, explored, alphabet) && name[e] == initial;
      }
    } else if Over(w, alphabet) {
      var u := w[..|w| - 1];
      RunOfNonEmpty(fsa.trTable, fsa.initial, w);
      assert Over(u, alphabet) by {
        forall i | 0 <= i < |u| ensures u[i] in alphabet { assert u[i] == w[i]; }
      }
      ClosedContainsRuns(fsa.trTable, alphabet, explored, fsa.initial, u);
      FinalDestination(fsa, alphabet, explored, name, initial, finals, delta,
                       SubsetRun(fsa.trTable, fsa.initial, u).value, w[|w| - 1]);
    }
  }

  /** A letter outside the alphabet is never accepted by the converted automaton. */
  lemma ConvertedRejectsForeignLetter<S(!new), V(!new)>(fsa: Fsa<S, V>, alphabet: set<V>, explored: set<set<S>>,
                                                        name: map<set<S>, string>, initial: string, finals: set<string>,
                                                        delta: map<string, map<V, string>>, w: seq<V>, i: nat)
    requires NamedReachableSubsets(fsa, alphabet, explored, name)
    requires ConvertedFrom(fsa, alphabet, explored, name, initial, finals, delta)
    requires i < |w| && w[i] !in alphabet
    ensures !Accepts(delta, initial, finals, w)
  {
    WalkFollowsSubsetRun(fsa, alphabet, explored, name, delta, fsa.initial, w);
  }
}
