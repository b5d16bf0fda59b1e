/** The automaton of src/main.cpp: states 'a' and 'b', letters `false` and `true`,
    initial {'a'}, final {'b'}. From {a} the subset construction reaches {a,b} and {b},
    and {b} leads back to {a}. */
module DemoAutomaton {
  import opened Wrappers
  import opened Automaton
  import opened Subsets
  import opened Determinize
  import opened Deterministic

  function DemoTable(): map<char, map<bool, set<char>>>
  {
    map['a' := map[false := {'a', 'b'}, true := {'b'}], 'b' := map[false := {'b'}, true := {'a'}]]
  }

  /** The destinations of the singletons are the rows of the table. */
  lemma DemoRows()
    ensures Post(DemoTable(), {'a'}, false) == {'a', 'b'} && Post(DemoTable(), {'a'}, true) == {'b'}
    ensures Post(DemoTable(), {'b'}, false) == {'b'} && Post(DemoTable(), {'b'}, true) == {'a'}
  {
    var tr := DemoTable();
    var ra, rb := tr['a'], tr['b'];
    assert ra == map[false := {'a', 'b'}, true := {'b'}];
    assert rb == map[false := {'b'}, true := {'a'}];
    assert ra[false] == {'a', 'b'} && ra[true] == {'b'};
    assert rb[false] == {'b'} && rb[true] == {'a'};
    PostSingleton(tr, 'a', false);
    PostSingleton(tr, 'a', true);
    PostSingleton(tr, 'b', false);
    PostSingleton(tr, 'b', true);
  }

  /** {a,b} is its own destination on both letters: the subset the worklist queues
      again while it is being processed. */
  lemma DemoPair()
    ensures Post(DemoTable(), {'a', 'b'}, false) == {'a', 'b'} && Post(DemoTable(), {'a', 'b'}, true) == {'a', 'b'}
  {
    assert {'a', 'b'} == {'a'} + {'b'};
    assert {'b'} + {'a'} == {'a', 'b'};
    DemoRows();
    PostUnion(DemoTable(), {'a'}, {'b'}, false);
    PostUnion(DemoTable(), {'a'}, {'b'}, true);
  }

  /** Every state of the table has both letters. */
  lemma DemoDefined(e: set<char>, v: bool)
    requires e <= {'a', 'b'}
    ensures Defined(DemoTable(), e, v)
  {
    var tr := DemoTable();
    assert tr['a'] == map[false := {'a', 'b'}, true := {'b'}];
    assert tr['b'] == map[false := {'b'}, true := {'a'}];
    assert v in tr['a'] && v in tr['b'];
  }

  /** The word `false` leads from {a} to {a,b}, which holds the final state 'b'. */
  lemma DemoRunFalse()
    ensures SubsetRun(DemoTable(), {'a'}, [false]) == Some({'a', 'b'})
  {
    assert [false][1..] == [];
    DemoDefined({'a'}, false);
    var tr := DemoTable();
    assert tr['a'][false] == {'a', 'b'};
    PostSingleton(tr, 'a', false);
  }

  /** The word `true` leads from {a} to {b}. */
  lemma DemoRunTrue()
    ensures SubsetRun(DemoTable(), {'a'}, [true]) == Some({'b'})
  {
    assert [true][1..] == [];
    DemoDefined({'a'}, true);
    var tr := DemoTable();
    assert tr['a'][true] == {'b'};
    PostSingleton(tr, 'a', true);
  }

  function Demo(): Fsa<char, bool>
  {
    Fsa({'a'}, {'b'}, DemoTable())
  }

  /** Any automaton the converting constructor builds from the demo over {false, true}
      accepts the words `false` and `true` and rejects the empty word: {a} is final only
      if it holds 'b'. */
  lemma DemoConverted(explored: set<set<char>>, name: map<set<char>, string>,
                      initial: string, finals: set<string>, delta: map<string, map<bool, string>>)
    requires NamedReachableSubsets(Demo(), {false, true}, explored, name)
    requires ConvertedFrom(Demo(), {false, true}, explored, name, initial, finals, delta)
    ensures Accepts(delta, initial, finals, [false])
    ensures Accepts(delta, initial, finals, [true])
    ensures !Accepts(delta, initial, finals, [])
  {
    var letters := {false, true};
    DemoRunFalse();
    DemoRunTrue();
    assert Over([false], letters) && Over([true], letters);
    assert 'b' in {'a', 'b'} * {'b'} && 'b' in {'b'} * {'b'};
    ConvertedAccepts(Demo(), letters, explored, name, initial, finals, delta, [false]);
    ConvertedAccepts(Demo(), letters, explored, name, initial, finals, delta, [true]);
    ConvertedAccepts(Demo(), letters, explored, name, initial, finals, delta, []);
    FinalsOfMeaning(DemoTable(), {'b'}, explored, letters, {'a'});
    assert {'a'} * {'b'} == {};
  }
}
