/** The nondeterministic automaton `FSA<T,V>` of include/fsa.hpp and its `rename`. */
module Automaton {

  /** An automaton over states `T` and symbols `V`: a set of initial states, a set of
      final states, and a table from state to symbol to the set of destination states.
      The source never changes an FSA after construction, so it is a value here; its
      getters `getInitial`, `getFinal` and `getTransition` are the three fields. */
  datatype Fsa<T, V> = Fsa(initial: set<T>, finalState: set<T>, trTable: map<T, map<V, set<T>>>)

  /** `order` lists every element of `s` exactly once: an iteration order of `s`. */
  ghost predicate IsEnumeration<T>(order: seq<T>, s: set<T>)
  {
    && (forall x :: x in s ==> x in order)
    && (forall i :: 0 <= i < |order| ==> order[i] in s)
    && (forall i, j :: 0 <= i < j < |order| ==> order[i] != order[j])
  }

  ghost predicate InjectiveOn<T, NT>(f: T -> NT, s: set<T>)
  {
    forall x, y :: x in s && y in s && f(x) == f(y) ==> x == y
  }

  /** The states `f` gives to the members of `s`. */
  function Image<T, NT>(s: set<T>, f: T -> NT): set<NT>
  {
    set x | x in s :: f(x)
  }

  /** One row of the table with every destination renamed and the symbols kept. */
  function RenamedRow<T, V, NT>(row: map<V, set<T>>, f: T -> NT): map<V, set<NT>>
  {
    map v | v in row :: Image(row[v], f)
  }

  /** The renamed table when the rows of `tr` are written in the order `order`:
      the row of `s` is stored under `f(s)`, and a later row overwrites an
      earlier one that received the same new name. */
  function RenamedTable<T, V, NT>(tr: map<T, map<V, set<T>>>, f: T -> NT, order: seq<T>): map<NT, map<V, set<NT>>>
    requires forall i :: 0 <= i < |order| ==> order[i] in tr
  {
    if order == [] then map[]
    else
      var s := order[|order| - 1];
      RenamedTable(tr, f, order[..|order| - 1])[f(s) := RenamedRow(tr[s], f)]
  }

  /** The automaton `rename` returns when the source rows are visited in `order`. */
  function RenamedFsa<T, V, NT>(a: Fsa<T, V>, f: T -> NT, order: seq<T>): Fsa<NT, V>
    requires forall i :: 0 <= i < |order| ==> order[i] in a.trTable
  {
    Fsa(Image(a.initial, f), Image(a.finalState, f), RenamedTable(a.trTable, f, order))
  }

  /** The loop that converts every member of a set (used for the initial set, the
      final set and each destination set). */
  method ConvertAll<T, NT(==)>(s: set<T>, converter: T -> NT) returns (r: set<NT>)
    ensures r == Image(s, converter)
  {
    r := {};
    var todo := s;
    while todo != {}
      invariant todo <= s
      invariant r == Image(s - todo, converter)
      decreases todo
    {
      var x :| x in todo;
      r := r + {converter(x)};
      todo := todo - {x};
    }
  }

  /** The inner loop of `rename` over the symbols of one row. */
  method RenameRow<T, V, NT(==)>(row: map<V, set<T>>, converter: T -> NT) returns (r: map<V, set<NT>>)
    ensures r == RenamedRow(row, converter)
  {
    r := map[];
    var todo := row.Keys;
    while todo != {}
      invariant todo <= row.Keys
      invariant r == map v | v in row.Keys - todo :: Image(row[v], converter)
      decreases todo
    {
      var v :| v in todo;
      var newFollowingSet := ConvertAll(row[v], converter);
      r := r[v := newFollowingSet];
      todo := todo - {v};
    }
  }

  /** `rename`: every state goes through `converter`, symbols are unchanged. The rows
      are visited in some order of the source table (returned as `order`). */
  method Rename<T, V, NT(==)>(a: Fsa<T, V>, converter: T -> NT) returns (r: Fsa<NT, V>, ghost order: seq<T>)
    ensures IsEnumeration(order, a.trTable.Keys)
    ensures r == RenamedFsa(a, converter, order)
    ensures r.initial == Image(a.initial, converter) && r.finalState == Image(a.finalState, converter)
    ensures r.trTable.Keys == Image(a.trTable.Keys, converter)
    ensures InjectiveOn(converter, a.trTable.Keys) ==>
              forall s :: s in a.trTable ==> r.trTable[converter(s)] == RenamedRow(a.trTable[s], converter)
  {
    var newIni := ConvertAll(a.initial, converter);
    var newFinal := ConvertAll(a.finalState, converter);
    var newTrs: map<NT, map<V, set<NT>>> := map[];
    var todo := a.trTable.Keys;
    order := [];
    while todo != {}
      invariant todo <= a.trTable.Keys
      invariant forall x :: x in a.trTable ==> (x in todo <==> x !in order)
      invariant forall i, j :: 0 <= i < j < |order| ==> order[i] != order[j]
      invariant forall i :: 0 <= i < |order| ==> order[i] in a.trTable
      invariant newTrs == RenamedTable(a.trTable, converter, order)
      decreases todo
    {
      var s :| s in todo;
      var newStateTr := RenameRow(a.trTable[s], converter);
      newTrs := newTrs[converter(s) := newStateTr];
      assert (order + [s])[..|order|] == order;
      order := order + [s];
      todo := todo - {s};
    }
    r := Fsa(newIni, newFinal, newTrs);
    RenamedTableKeys(a.trTable, converter, order);
    if InjectiveOn(converter, a.trTable.Keys) {
      RenameInjective(a, converter, order);
    }
  }

  /** Which new names the renamed table has, and which source row each one holds:
      the row of the last state in `order` that was renamed to it. */
  lemma {:induction false} RenamedTableLastWins<T, V, NT>(tr: map<T, map<V, set<T>>>, f: T -> NT, order: seq<T>)
    requires forall i :: 0 <= i < |order| ==> order[i] in tr
    ensures forall i :: 0 <= i < |order| ==> f(order[i]) in RenamedTable(tr, f, order)
    ensures forall k :: k in RenamedTable(tr, f, order) ==>
              exists i :: && 0 <= i < |order| && f(order[i]) == k
                          && RenamedTable(tr, f, order)[k] == RenamedRow(tr[order[i]], f)
                          && forall j :: i < j < |order| ==> f(order[j]) != k
  {
    if order != [] {
      var n := |order| - 1;
      var prefix := order[..n];
      RenamedTableLastWins(tr, f, prefix);
      var r := RenamedTable(tr, f, order);
      forall k | k in r
        ensures exists i :: && 0 <= i < |order| && f(order[i]) == k
                            && r[k] == RenamedRow(tr[order[i]], f)
                            && forall j :: i < j < |order| ==> f(order[j]) != k
      {
        if k == f(order[n]) {
          assert r[k] == RenamedRow(tr[order[n]], f);
        } else {
          var i :| && 0 <= i < |prefix| && f(prefix[i]) == k
                   && RenamedTable(tr, f, prefix)[k] == RenamedRow(tr[prefix[i]], f)
                   && forall j :: i < j < |prefix| ==> f(prefix[j]) != k;
          assert order[i] == prefix[i];
        }
      }
      forall i | 0 <= i < |order|
        ensures f(order[i]) in r
      {
        if i < n {
          assert prefix[i] == order[i];
        }
      }
    }
  }

  /** The initial and final sets are the images of the old ones, and the renamed table
      has exactly the images of the old states as rows. */
  lemma RenamedFsaStates<T, V, NT>(a: Fsa<T, V>, f: T -> NT, order: seq<T>)
    requires IsEnumeration(order, a.trTable.Keys)
    ensures forall s :: s in a.initial ==> f(s) in RenamedFsa(a, f, order).initial
    ensures forall n :: n in RenamedFsa(a, f, order).initial ==> exists s :: s in a.initial && f(s) == n
    ensures forall s :: s in a.finalState ==> f(s) in RenamedFsa(a, f, order).finalState
    ensures forall n :: n in RenamedFsa(a, f, order).finalState ==> exists s :: s in a.finalState && f(s) == n
    ensures RenamedFsa(a, f, order).trTable.Keys == Image(a.trTable.Keys, f)
  {
    RenamedTableKeys(a.trTable, f, order);
  }

  /** The renamed table has exactly the images of the old states as rows. */
  lemma RenamedTableKeys<T, V, NT>(tr: map<T, map<V, set<T>>>, f: T -> NT, order: seq<T>)
    requires IsEnumeration(order, tr.Keys)
    ensures RenamedTable(tr, f, order).Keys == Image(tr.Keys, f)
  {
    RenamedTableLastWins(tr, f, order);
    var r := RenamedTable(tr, f, order);
    forall k | k in Image(tr.Keys, f) ensures k in r {
      var s :| s in tr && f(s) == k;
      var i :| 0 <= i < |order| && order[i] == s;
    }
  }

  /** When `converter` does not merge two rows, every edge `s -v-> d` becomes
      `f(s) -v-> f(d)`, each renamed row has the symbols of its source row, and the
      result does not depend on the order in which the rows were visited. */
  lemma RenameInjective<T, V, NT>(a: Fsa<T, V>, f: T -> NT, order: seq<T>)
    requires IsEnumeration(order, a.trTable.Keys)
    requires InjectiveOn(f, a.trTable.Keys)
    ensures forall s :: s in a.trTable ==>
              && f(s) in RenamedFsa(a, f, order).trTable
              && RenamedFsa(a, f, order).trTable[f(s)] == RenamedRow(a.trTable[s], f)
    ensures forall s, v, d :: s in a.trTable && v in a.trTable[s] && d in a.trTable[s][v] ==>
              && v in RenamedFsa(a, f, order).trTable[f(s)]
              && f(d) in RenamedFsa(a, f, order).trTable[f(s)][v]
    ensures forall s :: s in a.trTable ==> RenamedFsa(a, f, order).trTable[f(s)].Keys == a.trTable[s].Keys
  {
    RenamedTableLastWins(a.trTable, f, order);
    var r := RenamedTable(a.trTable, f, order);
    assert RenamedFsa(a, f, order).trTable == r;
    forall s | s in a.trTable
      ensures f(s) in r && r[f(s)] == RenamedRow(a.trTable[s], f)
    {
      var i0 :| 0 <= i0 < |order| && order[i0] == s;
      assert f(order[i0]) == f(s);
      var i :| && 0 <= i < |order| && f(order[i]) == f(s)
               && r[f(s)] == RenamedRow(a.trTable[order[i]], f)
               && forall j :: i < j < |order| ==> f(order[j]) != f(s);
      assert order[i] == s;
    }
  }

  /** `rename` with the identity converter gives back the same automaton. */
  lemma RenameIdentity<T, V>(a: Fsa<T, V>, order: seq<T>)
    requires IsEnumeration(order, a.trTable.Keys)
    ensures RenamedFsa(a, (x: T) => x, order) == a
  {
    var id := (x: T) => x;
    var r := RenamedFsa(a, id, order);
    RenameInjective(a, id, order);
    RenamedFsaStates(a, id, order);
    assert r.initial == a.initial;
    assert r.finalState == a.finalState;
    forall s | s in a.trTable ensures r.trTable[s] == a.trTable[s] {
      var row := a.trTable[s];
      assert r.trTable[s] == RenamedRow(row, id);
      forall v | v in row ensures RenamedRow(row, id)[v] == row[v] {
        assert Image(row[v], id) == row[v];
      }
    }
    assert r.trTable.Keys == a.trTable.Keys;
  }

  /** With a non-injective converter rows are overwritten, not merged: two states
      renamed to one keep only the symbols of the row visited last. */
  lemma RenameOverwritesRows()
    ensures var a := Fsa({1}, {2}, map[1 := map['x' := {2}], 2 := map['y' := {1}]]);
            var merge := (s: int) => 0;
            RenamedFsa(a, merge, [1, 2]).trTable == map[0 := map['y' := {0}]]
  {
    var a := Fsa({1}, {2}, map[1 := map['x' := {2}], 2 := map['y' := {1}]]);
    var merge := (s: int) => 0;
    assert [1, 2][..1] == [1];
    assert [1][..0] == [];
    assert Image({1}, merge) == {0};
    assert RenamedRow(a.trTable[2], merge) == map['y' := {0}];
    var first := RenamedTable(a.trTable, merge, [1]);
    assert first.Keys == {0};
    assert RenamedTable(a.trTable, merge, [1, 2]) == first[0 := map['y' := {0}]];
  }
}
