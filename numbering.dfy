/** The numbering step of `FSA::determinate` (include/fsa.hpp): every explored subset,
    in the order the table is walked, is named "r" followed by its position. */
module Numbering {
  import opened Automaton
  import opened Decimal

  /** The numbering loop of `determinate` (fsa.hpp:100-105): the explored subsets, in
      the order the table is walked, get the names "r0", "r1", ...; distinct subsets
      get distinct names. */
  method NumberSubsets<K(==), W>(partsTrTable: map<K, W>)
    returns (names: map<K, string>, ghost order: seq<K>)
    ensures LabelledInOrder(names, order, partsTrTable.Keys)
    ensures names.Keys == partsTrTable.Keys && DistinctLabels(names)
    ensures LabelsBelow(names, |partsTrTable.Keys|)
  {
    names := map[];
    order := [];
    ghost var position: map<K, nat> := map[];
    var i := 0;
    var todo := partsTrTable.Keys;
    while todo != {}
      invariant i == |order|
      invariant Numbering(partsTrTable.Keys, todo, names, position, order)
      decreases todo
    {
      var part :| part in todo;
      NumberingStep(partsTrTable.Keys, todo, names, position, order, part,
                    todo - {part}, names[part := Label(i)], position[part := i], order + [part]);
      names := names[part := Label(i)];
      position := position[part := i];
      order := order + [part];
      i := i + 1;
      todo := todo - {part};
    }
    NumberingFacts(partsTrTable.Keys, names, order, position);
  }

  /** `names` gives the `i`-th key of the walk `order` over `keys` the name `Label(i)`:
      every key is named, by one of the first `|keys|` labels, and no two keys alike. */
  ghost predicate LabelledInOrder<K>(names: map<K, string>, order: seq<K>, keys: set<K>)
  {
    && IsEnumeration(order, keys) && |order| == |keys|
    && (forall i :: 0 <= i < |order| ==> order[i] in names && names[order[i]] == Label(i))
    && names.Keys == keys
    && DistinctLabels(names)
    && LabelsBelow(names, |keys|)
  }

  /** No two keys of `names` get the same name: an injective naming. */
  ghost predicate DistinctLabels<K>(names: map<K, string>)
  {
    forall p, q :: p in names && q in names && names[p] == names[q] ==> p == q
  }

  /** Every name is one of the first `n` labels "r0", ..., "r(n-1)". */
  ghost predicate LabelsBelow<K>(names: map<K, string>, n: nat)
  {
    forall p :: p in names ==> exists i :: 0 <= i < n && names[p] == Label(i)
  }

  /** The state of the numbering walk over `keys` with `todo` still unnamed: `order`
      lists the named keys, each once, at the position `position` records, and each is
      named by the label of its position. */
  ghost predicate Numbering<K>(keys: set<K>, todo: set<K>, names: map<K, string>, position: map<K, nat>, order: seq<K>)
  {
    && names.Keys !! todo && names.Keys + todo == keys
    && |order| + |todo| == |keys|
    && position.Keys == names.Keys
    && (forall k :: 0 <= k < |order| ==> order[k] in names && position[order[k]] == k)
    && (forall p :: p in names ==> position[p] < |order| && order[position[p]] == p && names[p] == Label(position[p]))
  }

  /** Naming one more key keeps each listed key at its position, labelled by it. */
  lemma NumberingStep<K>(keys: set<K>, todo: set<K>, names: map<K, string>, position: map<K, nat>, order: seq<K>,
                         part: K, todo': set<K>, names': map<K, string>, position': map<K, nat>, order': seq<K>)
    requires Numbering(keys, todo, names, position, order) && part in todo
    requires todo' == todo - {part} && names' == names[part := Label(|order|)]
    requires position' == position[part := |order|] && order' == order + [part]
    ensures Numbering(keys, todo', names', position', order')
  {
    forall k | 0 <= k < |order'| ensures order'[k] in names' && position'[order'[k]] == k {
      if k < |order| {
        assert order'[k] == order[k];
        assert order[k] != part;
      }
    }
  }

  /** Labels are distinct, so a walk that labels the `k`-th key `Label(k)` lists every key
      once and names distinct keys differently. */
  lemma NumberingFacts<K>(keys: set<K>, names: map<K, string>, order: seq<K>, position: map<K, nat>)
    requires Numbering(keys, {}, names, position, order)
    ensures LabelledInOrder(names, order, keys)
  {
    forall p | p in names ensures exists k :: 0 <= k < |keys| && names[p] == Label(k) {
      assert names[p] == Label(position[p]);
    }
    forall p, q | p in names && q in names && names[p] == names[q] ensures p == q {
      LabelInjective(position[p], position[q]);
    }
  }
}
