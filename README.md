# FSA: subset construction and deterministic acceptance, in Dafny

This project models the core of the header-only C++ library FSA. It proves properties of that model.

The library has two class templates.

**`FSA<T,V>`** (include/fsa.hpp) is a nondeterministic automaton:
- a set of initial states;
- a set of final states;
- a table from state to symbol to the set of destination states.

It offers two operations:
- `rename` sends every state through a converter;
- `determinate` runs the subset construction over a given alphabet. It names the explored subsets `"r0"`, `"r1"`, … and returns an `FSA<std::string,V>`.

**`DFA<T,V>`** (include/dfa.hpp) is a deterministic automaton:
- one initial state;
- a set of finals;
- a partial transition function.

It is built either directly or by determinising an `FSA`. Its method `validate` walks a word and decides acceptance.

## How the model is laid out

- `automaton.dfy` (module `Automaton`):
  - `Fsa` is a value datatype. An `FSA` is never changed after construction, so its getters are the datatype's fields.
  - `rename` is a method whose loops are proved against the function `RenamedFsa`.
- `subsets.dfy` (module `Subsets`) holds the semantics the subset construction is measured against:
  - `Post`, the union of the destinations of a subset on a letter;
  - `SubsetRun`, the subset reached by a word;
  - `Reachable`;
  - `Blocked`, a reachable subset with a member that lacks a row or the letter.
- `determinize.dfy` (module `Determinize`) has the worklist loop of `determinate`, split into the method `Explore` and the methods it calls. It also has `Determinate` itself.
- `numbering.dfy` (module `Numbering`) has the loop that numbers the explored subsets.
- `decimal.dfy` (module `Decimal`) has the decimal rendering of `std::to_string`, proved injective.
- `deterministic.dfy` (module `Deterministic`):
  - `Dfa` is a class whose `Validate` method modifies `delta`;
  - `FromFsa` is the converting constructor;
  - the lemmas there relate the converted automaton's language to the subset runs of the source automaton.
- `example.dfy` (module `DemoAutomaton`) is the automaton built in src/main.cpp.

### Modelling choices

- **Exceptions.** Where `determinate` calls `.at` on a missing row or a missing letter, the source throws `std::out_of_range`. The model returns `None` instead. It is proved that this happens exactly when some reachable subset is `Blocked`.
- **Iteration order.** The iteration orders of `std::set`, `std::map` and `std::unordered_map` are abstracted:
  - the methods choose the next element with `:|`;
  - `Rename` and `NumberSubsets` return the order they used as a ghost sequence;
  - every property is proved for every order.
- **Integers.** Integers are unbounded. The counter `i` of the numbering loop is a `nat`, so the model does not overflow where the source's `int` would after 2^31 subsets.

### Behaviour worth knowing

1. **A missing transition throws.** Suppose a state of a reachable subset has no row, or its row lacks a letter of the alphabet. Then `determinate` throws at include/fsa.hpp:83, and the model returns `None`.
2. **Finality comes only from destinations.** A subset is final only if it was produced as the destination of an explored subset and holds a final state (include/fsa.hpp:93-95).
   - So the initial subset can be non-final even when it holds a final state: that happens when no explored subset leads back to it.
   - `FinalsOfMeaning` and the `w == []` case of `ConvertedAccepts` state this.
   - The empty subset is never final (`EmptyNeverFinal`).
3. **The automaton of src/main.cpp.**
   - `{a}` goes to `{a,b}` on `0`, and `{a,b}` holds the final state `b`. So `[0]` is accepted, as is `[1]`, and the empty word is rejected (`DemoConverted`).
   - Three subsets are explored: `{a}`, `{a,b}` and `{b}`.
   - `{a,b}` is its own destination on both letters (`DemoPair`). It is not yet stored while it is being processed, so it is queued a second time and processed again. The termination measure of `Explore` accounts for this.

## Model

| member | source | states |
|---|---|---|
| Automaton.ConvertAll | include/fsa.hpp:23-30 | the converted set is exactly the image of the input set under the converter |
| Automaton.RenameRow | include/fsa.hpp:36-43 | a renamed row keeps exactly the symbols of the source row, and each destination set becomes its image |
| Automaton.Rename | include/fsa.hpp:21-47 | `rename` visits the rows in some enumeration of the table, and its result is the renamed automaton for that order: initial and final sets are images, and the row of `s` is stored under `f(s)` |
| Automaton.RenamedTableLastWins | include/fsa.hpp:35-45 | every renamed source row has an entry; each entry holds the row of the last source state in visiting order that was renamed to it |
| Automaton.RenamedFsaStates | include/fsa.hpp:23-46 | the initial and final sets of the result are exactly the images of the old ones (both directions), and its rows are exactly the images of the old row keys |
| Automaton.RenamedTableKeys | include/fsa.hpp:35-45 | the renamed table has a row for exactly the images of the old row keys |
| Automaton.RenameInjective | include/fsa.hpp:35-45 | for a converter injective on the row keys, every edge `s -v-> d` becomes `f(s) -v-> f(d)`, rows keep their symbols, and the result does not depend on the visiting order |
| Automaton.RenameIdentity | include/fsa.hpp:21-47 | renaming with the identity gives back the same automaton |
| Automaton.RenameOverwritesRows | include/fsa.hpp:44 | with a converter that merges two states, the rows are overwritten, not merged: only the row visited last survives |
| Decimal.NatToString | include/fsa.hpp:103 | the numeral has at least one character, all of them decimal digits, and two or more exactly when the number is at least 10 |
| Decimal.NatToStringInjective | include/fsa.hpp:103 | distinct counters have distinct decimal numerals |
| Decimal.Label | include/fsa.hpp:103 | the name `"r" + to_string(i)` of the `i`-th subset starts with `r` and is at least two characters long |
| Decimal.LabelInjective | include/fsa.hpp:103 | distinct counters give distinct names `"r" + to_string(i)` |
| Subsets.PostSingleton | include/fsa.hpp:82-88 | the destination of a one-state subset is that state's destination set |
| Subsets.PostUnion | include/fsa.hpp:82-88 | the destination of a union of subsets is the union of their destinations |
| Subsets.PostInUniverse | include/fsa.hpp:82-87 | every destination is made of initial states and states named as destinations in the table |
| Subsets.RunSnoc | include/fsa.hpp:74-97 | the run of a word extended by a letter is one more step after the run of the word |
| Subsets.ReachableStep | include/fsa.hpp:90-92 | the destination of a reachable subset on a letter of the alphabet, where defined, is reachable |
| Subsets.InitialReachable | include/fsa.hpp:70-73 | the initial subset is reachable (by the empty word) |
| Subsets.ClosedContainsRuns | include/fsa.hpp:74-99 | a set of subsets that contains `c` and is closed and defined under every letter contains the run from `c` of every word over the alphabet |
| Subsets.EmptySubsetIsSink | include/fsa.hpp:81-96 | the empty subset goes to itself on every word |
| Determinize.FinalsOfMeaning | include/fsa.hpp:84-95 | a subset is marked final iff it holds a final state and is the destination of an explored subset on a letter |
| Determinize.EmptyNeverFinal | include/fsa.hpp:84-95 | the empty subset is never marked final: it holds no final state |
| Determinize.AfterLetter | include/fsa.hpp:80-89 | succeeds iff every member of the subset has a row with the letter; on success the result is the union of their destinations, and `isFinal` holds iff that union meets the final states |
| Determinize.ProcessLetters | include/fsa.hpp:77-97 | succeeds iff the subset is complete over the alphabet; on success the stored row maps each letter to the singleton of its destination, exactly the not-yet-stored destinations are queued, and exactly the destinations holding a final state are marked final |
| Determinize.ProcessOne | include/fsa.hpp:75-98 | pops a subset of the worklist; succeeds iff it is complete; on success stores its row, queues the destinations not stored before it, and marks its final destinations |
| Determinize.WorklistInvInit | include/fsa.hpp:67-73 | the worklist invariant holds for the empty table with the initial subset queued |
| Determinize.NewSubsetsReachable | include/fsa.hpp:90-92 | the subsets queued from a reachable subset are reachable and are made of states of the automaton |
| Determinize.PendingAfterProcess | include/fsa.hpp:90-98 | after processing, every destination of a stored subset is stored or queued; a subset stored before adds nothing to the worklist |
| Determinize.ProcessKeepsInv | include/fsa.hpp:74-99 | one turn of the worklist loop keeps its invariant: queued and stored subsets are reachable, stored rows are correct, destinations are pending or stored, finals are those of the stored subsets |
| Determinize.ProcessDecreases | include/fsa.hpp:74-99 | each turn either stores a new subset of the power set of the states, or leaves the stored set unchanged and shrinks the worklist, so the loop ends |
| Determinize.IncompleteIsBlocked | include/fsa.hpp:83 | a queued subset that lacks a letter makes the automaton blocked, the case where `.at` throws |
| Determinize.ExploredAreReachable | include/fsa.hpp:74-99 | a closed, defined set of reachable subsets holding the initial subset is exactly the reachable subsets, and the automaton is not blocked |
| Determinize.WorklistDone | include/fsa.hpp:74-99 | once the worklist is empty, the stored subsets are exactly the reachable ones, their rows are correct, they are closed under the letters, and the finals are the final destinations |
| Determinize.Explore | include/fsa.hpp:67-99 | fails iff the automaton is blocked; otherwise its initial set is the singleton of the initial subset, its rows are exactly the reachable subsets, each mapping a letter to the singleton of its destination, and its finals are the final destinations |
| Numbering.NumberSubsets | include/fsa.hpp:100-105 | the `i`-th subset in walking order is named `"r" + to_string(i)`; every subset is named, and distinct subsets get distinct names |
| Numbering.NumberingStep | include/fsa.hpp:102-104 | naming one more subset with the next counter keeps every named subset at its position, labelled by it |
| Numbering.NumberingFacts | include/fsa.hpp:100-105 | a finished numbering walk lists every subset once, names each with a label below the count, and is injective |
| Determinize.RenamedSubsetRow | include/fsa.hpp:107-112 | the renamed row of an explored subset maps each letter to the singleton of the name of its destination |
| Determinize.RenamedFinalNames | include/fsa.hpp:93-95 | the renamed finals are exactly the names of the explored subsets that are final destinations |
| Determinize.RenamedRowNames | include/fsa.hpp:107-112 | the rows of the renamed table are exactly the names of the explored subsets |
| Determinize.RenamedSubsets | include/fsa.hpp:107-112 | renaming the explored subsets by an injective numbering: initial set is the name of the initial subset, finals are the names of the final destinations, rows are exactly the names of the explored subsets |
| Determinize.NumberingOfReachable | include/fsa.hpp:100-105 | the numbering of the reachable subsets names exactly them, injectively, with the labels `r0` to `r(n-1)` |
| Determinize.NumberedRenameCorrect | include/fsa.hpp:107-112 | the renamed subset automaton is the named subset automaton `determinate` promises |
| Determinize.Determinate | include/fsa.hpp:65-113 | fails (the source throws) iff the automaton is blocked; otherwise the explored subsets are exactly the reachable ones, distinctly named, and the result is their named subset automaton |
| Deterministic.AcceptsEmpty | include/dfa.hpp:49-55 | the empty word is accepted iff the initial state is final |
| Deterministic.WalkAppend | include/dfa.hpp:49-54 | walking a concatenation walks the first part, then the second from where the first ended |
| Deterministic.RejectsAtMissingStep | include/dfa.hpp:50-52 | once the walk of a prefix reaches a state without the next letter, the word is rejected whatever follows |
| Deterministic.WalkIgnoresEmptyRows | include/dfa.hpp:51-53 | adding empty rows changes no walk |
| Deterministic.ValidatedAddsEmptyRows | include/dfa.hpp:48-54 | `validate` only adds empty rows, for looked-up states that had none |
| Deterministic.ValidateKeepsLanguage | include/dfa.hpp:48-56 | after a `validate`, every word is accepted exactly as before |
| Deterministic.Dfa.constructor | include/dfa.hpp:15-20 | the fields are the given initial state, finals and transition function |
| Deterministic.Dfa.Validate | include/dfa.hpp:48-56 | returns true iff every step of the walk from the initial state is defined and it ends in a final; initial and finals unchanged; the transition function gains the empty rows `operator[]` inserts |
| Deterministic.Flatten | include/dfa.hpp:29-34 | a state gets a row iff its row of sets is not empty; rows keep their letters, and each letter goes to a member of its destination set |
| Deterministic.FlattenedStep | include/dfa.hpp:29-34 | flattening one more row keeps every other flattened row and adds that one |
| Deterministic.FlattenedRow | include/dfa.hpp:30-33 | flattening a row of singletons gives each letter the name of its destination |
| Deterministic.StoredRowNotEmpty | include/dfa.hpp:29-31 | over a non-empty alphabet the row `determinate` stores is not empty, so the flattening gives it a row |
| Deterministic.FlattenedRowOwner | include/dfa.hpp:29-31 | a flattened row belongs to the name of an explored subset |
| Deterministic.FlattenedSubsetTable | include/dfa.hpp:26-34 | flattening the table of `determinate` gives the transition function mapping each named subset and letter to the name of its destination, with rows only for explored subsets and a non-empty alphabet |
| Deterministic.FromFsa | include/dfa.hpp:22-35 | fails iff `determinate` does (a reachable subset is blocked); otherwise a fresh DFA whose initial state is the name of the initial subset, whose finals are the names of the final destinations, and whose transitions are those of the subset construction |
| Deterministic.ConvertedFromDeterminate | include/dfa.hpp:26-34 | the member of the singleton initial set, the finals and the flattened table of `determinate` form the converted automaton |
| Deterministic.WalkFollowsSubsetRun | include/dfa.hpp:48-55 | from the name of an explored subset, the walk is defined exactly on words over the alphabet and ends in the name of the subset the run reaches |
| Deterministic.FinalDestination | include/dfa.hpp:28 | the name of a destination is final in the converted DFA iff the destination holds a final state |
| Deterministic.ConvertedAccepts | include/dfa.hpp:22-56 | the converted DFA accepts a non-empty word iff it is over the alphabet and the subset run reaches a set holding a final state; it accepts the empty word iff the initial subset is a final destination |
| Deterministic.ConvertedRejectsForeignLetter | include/dfa.hpp:50-52 | a word with a letter outside the alphabet is rejected by the converted DFA |
| DemoAutomaton.DemoRows | src/main.cpp:8-12 | the destinations of `{a}` and `{b}` on both letters are the rows of the table |
| DemoAutomaton.DemoPair | src/main.cpp:8-12 | `{a,b}` is its own destination on both letters |
| DemoAutomaton.DemoDefined | src/main.cpp:8-12 | every subset of `{a,b}` has both letters defined |
| DemoAutomaton.DemoRunFalse | src/main.cpp:8-13 | the word `[0]` leads from `{a}` to `{a,b}` |
| DemoAutomaton.DemoRunTrue | src/main.cpp:8-13 | the word `[1]` leads from `{a}` to `{b}` |
| DemoAutomaton.DemoConverted | src/main.cpp:8-16 | the DFA converted from the demo over `{0,1}` accepts `[0]` and `[1]` and rejects the empty word |

## Left out

- The printing members are not modelled: `FSA::printTransition` and `FSA::printFSA` (include/fsa.hpp:49-63), `DFA::print` (include/dfa.hpp:37-46), and the `operator<<` overload for sets (include/fsa.hpp:131-140). They only write to standard output.
- include/drawer.hpp and the printing in src/main.cpp are not modelled. They produce text for display and carry no contract.
- Numbering.NumberSubsets, Determinize.Determinate: do not model the naming order. The naming in `determinate` follows the ascending (lexicographic) order of `std::map<std::set<T>, …>` keys. The model proves its properties for every enumeration of the explored subsets, so it does not pin down which subset is `"r0"`. It only proves three things:
  - the names are `"r0"` to `"r(n-1)"`;
  - they are distinct;
  - they are given in the walking order.
- Automaton.Rename: does not model that `std::map` walks `trTable` in ascending key order. When a converter merges several states, the source therefore keeps the row of the largest merged key. `Rename` and `RenamedTableLastWins` only promise the row of the last merged state in some enumeration of the keys, so the model leaves open which merged row survives. With a converter injective on the keys, which is how `determinate` calls it, the result is the same for every order (`RenameInjective`).
- The order in which sets and per-state `std::unordered_map` rows are walked inside `rename`, `determinate` and the converting constructor is not modelled; none of these results depends on it.
- Determinize.ProcessOne, Determinize.Explore: do not model the choice of worklist element. The source pops the smallest subset of `todo` (`*todo.begin()`); the model pops any member.
- Deterministic.Flatten: does not model that `*tr.second.begin()` takes the smallest member. It requires every destination set to be non-empty, because `*begin()` of an empty set is undefined behaviour. Every set `determinate` produces is a singleton, so the choice does not matter there.
- Numbering.NumberSubsets: the counter `i` (include/fsa.hpp:101) is an unbounded `nat`, while the source's `int` overflows after INT_MAX subsets.
- Exceptions are modelled as `None`, not as a thrown `std::out_of_range`.
- The `enable_if` restriction of the converting constructor to `T = std::string` is not modelled. `FromFsa` simply returns a `Dfa<string, V>`.
- `std::function` converters are not modelled as such; they are Dafny total functions.
- `std::forward_list` words are sequences.
- Epsilon transitions, DFA completion with a sink state and minimisation are not part of this model. They do not occur in include/fsa.hpp or include/dfa.hpp.
- DemoAutomaton.DemoConverted: the demo is not run through `Determinate` concretely. It states acceptance for any converted DFA that satisfies the proved postconditions of `FromFsa`. The exact explored set `{a}, {a,b}, {b}` and its finals `{a,b}` and `{b}` are described above but not proved as a set equality.
