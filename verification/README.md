# TinkerPop core pieces, modelled in Dafny

This project models five pieces of Apache TinkerPop and proves properties of them:

- **Paths** (`Paths.dfy`, with the concrete histories of the path tests in `PathVectors.dfy`). A traverser's path is an ordered history of entries. Each entry holds a value and an ordered, duplicate-free set of labels. The model covers:
  - `extend` with a value or with labels only;
  - `get` by index, by label and by `Pop` (`first`, `last`, `all`);
  - `isSimple`, `retract` and `subPath`;
  - path equality and its hash, and `popEquals`.
- **The traverser `B_O_S_SE_SL_Traverser`** (`Traversers.dfy`). The model covers:
  - the sack and its supplier, splitter and merger;
  - the named loop counter, a Java `short` that wraps;
  - `split` and `merge`;
  - the `equals` and `hashCode` that decide whether two traversers fold together.
- **The .NET `GroovyTranslator`** (`GroovyTranslator.dfy`). It prints bytecode as Gremlin-Groovy text, argument by argument:
  - null, strings and chars;
  - dates, GUIDs and predicates;
  - dictionaries, collections and child traversals;
  - integers and booleans.

  `Numerals.dfy` holds the invariant-culture decimal text of integers and its parser. `ParseList`, `ParsePair` and `ParseQuoted` are readers written for the proofs, not part of the translator: they say what it means for printed text to be read back. `GroovyVectors.dfy` computes the translations that `GroovyTranslatorTests` expects.
- **`TreeStep`** (`TreeStep.dfy`). Its consumer passes each object of a path through a ring of branch functions. It then inserts the resulting chain of keys into a nested map (a trie) kept under the step's side-effect key.
- **`TinkerEdgesOptimizer.optimize`** (`TinkerEdgesOptimizer.dfy`). It scans the steps backwards for a `TinkerEdgesStep`, passing over has, interval and identity steps only. A step folded into it hands over its has-containers.

All data are immutable datatypes. All operations are pure functions, except for the methods that run the source's loops: `IsSimple`, `ApplyRing`, `Consume`, `ConsumeTwice` and `Optimize`. Where a Java or C# call would throw, the model returns an error value (`Result`). `merge` is the exception: it has already summed the bulks when it throws, so `Merge` returns the receiver's new state together with the exception it throws, if any.

## Model

| member | source | states |
|---|---|---|
| Paths.Empty | gremlin-core/src/test/java/org/apache/tinkerpop/gremlin/process/traversal/PathTest.java:56-58 | a fresh path has no entries and is well formed |
| Paths.Extend | gremlin-core/src/test/java/org/apache/tinkerpop/gremlin/process/traversal/PathTest.java:59-62 | `extend(v, L)` appends exactly one entry: size grows by one, earlier entries are untouched, the new entry holds `v` and the labels of `L` as a set, and well-formedness is kept |
| Paths.ExtendDistinct | gremlin-core/src/test/java/org/apache/tinkerpop/gremlin/process/traversal/PathTest.java:151-162 | labels given in an order without repeats are stored in that order |
| Paths.ExtendLabels | gremlin-core/src/test/java/org/apache/tinkerpop/gremlin/process/traversal/PathTest.java:66-71 | `extend(L)` leaves size and values unchanged, touches only the last entry, and that entry then carries exactly its old labels plus `L`, its old labels first |
| Paths.AddAll | gremlin-core/src/test/java/org/apache/tinkerpop/gremlin/process/traversal/PathTest.java:164-175 | adding labels keeps the existing ones as a prefix, adds exactly the missing ones and keeps the set duplicate-free |
| Paths.LabelSet | gremlin-core/src/test/java/org/apache/tinkerpop/gremlin/process/traversal/PathTest.java:137-146 | a label list becomes a duplicate-free set with exactly the same members |
| Paths.Size | gremlin-core/src/test/java/org/apache/tinkerpop/gremlin/process/traversal/PathTest.java:56-67 | the number of entries, one per extend: `Objects` has exactly that many values, `Extend` adds one entry, and retraction drops exactly the `CountDropped` emptied entries (`RetractSize`) |
| Paths.Get | gremlin-core/src/test/java/org/apache/tinkerpop/gremlin/process/traversal/PathTest.java:82-85 | `get(i)` succeeds exactly for `0 <= i < size`, returning the i-th value; otherwise an index error |
| Paths.Objects | gremlin-core/src/test/java/org/apache/tinkerpop/gremlin/process/traversal/PathTest.java:119-120 | the values of the path, one per entry, in path order |
| Paths.HasLabel | gremlin-core/src/test/java/org/apache/tinkerpop/gremlin/process/traversal/PathTest.java:72-76 | a label is present exactly when some entry carries it; `LabelsOf`, `FirstIndexOf`, `LastIndexOf` and `ValuesOf` each state their result as the same test (`-1`, `-1` and the empty list exactly when it fails) |
| Paths.LabelsOf | gremlin-core/src/test/java/org/apache/tinkerpop/gremlin/process/traversal/PathTest.java:72-76 | the labels of the path are exactly those some entry carries |
| Paths.FirstIndexOf | gremlin-core/src/test/java/org/apache/tinkerpop/gremlin/process/traversal/PathTest.java:197-201 | the first carrier of a label: it carries the label, no earlier entry does, and -1 exactly when no entry does |
| Paths.LastIndexOf | gremlin-core/src/test/java/org/apache/tinkerpop/gremlin/process/traversal/PathTest.java:203-207 | the last carrier of a label: it carries the label, no later entry does, and -1 exactly when no entry does |
| Paths.ValuesOf | gremlin-core/src/test/java/org/apache/tinkerpop/gremlin/process/traversal/PathTest.java:219-230 | the selection of a label is empty exactly when no entry carries it |
| Paths.ValuesOfMembers | gremlin-core/src/test/java/org/apache/tinkerpop/gremlin/process/traversal/PathTest.java:123-127 | the selection of a label holds the value of every carrying entry and nothing else |
| Paths.ValuesOfAppend | gremlin-core/src/test/java/org/apache/tinkerpop/gremlin/process/traversal/PathTest.java:177-184 | selections follow path order: an appended entry adds its value at the end of each of its labels' selections only |
| Paths.ValuesOfFirst | gremlin-core/src/test/java/org/apache/tinkerpop/gremlin/process/traversal/PathTest.java:197-201 | the first selected value is the value of the first carrying entry |
| Paths.ValuesOfLast | gremlin-core/src/test/java/org/apache/tinkerpop/gremlin/process/traversal/PathTest.java:203-207 | the last selected value is the value of the last carrying entry |
| Paths.ValuesOfSingle | gremlin-core/src/test/java/org/apache/tinkerpop/gremlin/process/traversal/PathTest.java:123-124 | a label selects one value exactly when its first and last carriers are the same entry |
| Paths.GetLabel | gremlin-core/src/test/java/org/apache/tinkerpop/gremlin/process/traversal/PathTest.java:113-128 | `get(label)` fails exactly for an absent label; it gives a single value when one entry carries the label, otherwise the list of all values in path order |
| Paths.GetPop | gremlin-core/src/test/java/org/apache/tinkerpop/gremlin/process/traversal/PathTest.java:189-231 | `first`/`last` give the value of the first/last carrier and fail exactly for an absent label; `all` gives the ordered selection, empty for an absent label |
| Paths.IsSimple | gremlin-core/src/test/java/org/apache/tinkerpop/gremlin/process/traversal/PathTest.java:536-550 | the scan answers true exactly when no value occurs twice (labels play no part; null is a value) |
| Paths.SimpleExtend | gremlin-core/src/test/java/org/apache/tinkerpop/gremlin/process/traversal/PathTest.java:77-79 | extending keeps a path simple exactly when the new value is not already on it |
| Paths.Without | gremlin-core/src/test/java/org/apache/tinkerpop/gremlin/process/traversal/PathTest.java:90-91 | removing labels keeps exactly the others, in order, and changes nothing when none is removed |
| Paths.Retract | gremlin-core/src/test/java/org/apache/tinkerpop/gremlin/process/traversal/PathTest.java:86-108 | retraction never lengthens a path and keeps it well formed |
| Paths.Retracted | gremlin-core/src/test/java/org/apache/tinkerpop/gremlin/process/traversal/PathTest.java:90-108 | one entry under retraction: it stays exactly when it survives, as a single entry with the same value and exactly its labels outside `S`; otherwise it disappears |
| Paths.RetractAppend | gremlin-core/src/test/java/org/apache/tinkerpop/gremlin/process/traversal/PathTest.java:90-108 | the retraction of two joined paths is the join of their retractions, so surviving entries keep their relative order and nothing is invented, moved or merged |
| Paths.RetractSnoc | gremlin-core/src/test/java/org/apache/tinkerpop/gremlin/process/traversal/PathTest.java:90-97 | retracting a path extended by one entry is retracting the path and then adding what that entry becomes |
| Paths.RetractPosition | gremlin-core/src/test/java/org/apache/tinkerpop/gremlin/process/traversal/PathTest.java:90-102 | a surviving entry `i` lands at position `i` minus the number of entries dropped before it, with its value and its labels outside `S` |
| Paths.RetractRemovesLabels | gremlin-core/src/test/java/org/apache/tinkerpop/gremlin/process/traversal/PathTest.java:90-106 | after `retract(S)` no entry carries a label of `S` |
| Paths.RetractKeepsOtherLabels | gremlin-core/src/test/java/org/apache/tinkerpop/gremlin/process/traversal/PathTest.java:94-101 | every label outside `S` selects the same values after retraction as before |
| Paths.RetractAbsentIsIdentity | gremlin-core/src/test/java/org/apache/tinkerpop/gremlin/process/traversal/PathTest.java:86-89 | retracting labels the path does not carry leaves it as it was |
| Paths.EntryUntouched | gremlin-core/src/test/java/org/apache/tinkerpop/gremlin/process/traversal/PathTest.java:86-89 | an entry with none of its labels retracted survives with its labels unchanged |
| Paths.RetractSize | gremlin-core/src/test/java/org/apache/tinkerpop/gremlin/process/traversal/PathTest.java:90-102 | count only: the retracted path has as many entries as the path minus the dropped ones (contents and order are stated by `RetractAppend` and `RetractPosition`) |
| Paths.CountDropped | gremlin-core/src/test/java/org/apache/tinkerpop/gremlin/process/traversal/PathTest.java:90-102 | the number of dropped entries is at most the size |
| Paths.SubPath | gremlin-core/src/test/java/org/apache/tinkerpop/gremlin/process/traversal/PathTest.java:414-504 | `subPath(from, to)` is the slice between the last carriers of `from` and `to` (start and end when null); a missing from-label, a missing to-label and a reversed pair each fail with their own error, and those are the only failures |
| Paths.ResolvesUnique | gremlin-core/src/test/java/org/apache/tinkerpop/gremlin/process/traversal/PathTest.java:507-533 | a label resolves to one position only, so a sub-path is fixed by its labels |
| Paths.SubPathObjects | gremlin-core/src/test/java/org/apache/tinkerpop/gremlin/process/traversal/PathTest.java:425-430 | the values of a sub-path are the matching slice of the path's values |
| Paths.PathEqualsIsEquivalence | gremlin-core/src/test/java/org/apache/tinkerpop/gremlin/process/traversal/PathTest.java:235-246 | path equality is reflexive, symmetric and transitive |
| Paths.PathEquals | gremlin-core/src/test/java/org/apache/tinkerpop/gremlin/process/traversal/PathTest.java:235-246 | equal paths have the same values in order and carry the same labels |
| Paths.PathEqualsSameValues | gremlin-core/src/test/java/org/apache/tinkerpop/gremlin/process/traversal/PathTest.java:399-411 | equal paths select the same values under every label |
| Paths.PathEqualsCongruence | gremlin-core/src/test/java/org/apache/tinkerpop/gremlin/process/traversal/PathTest.java:248-272 | extending equal paths the same way, with a value or with labels, gives equal paths |
| Paths.SameLabelsSurvive | gremlin-core/src/test/java/org/apache/tinkerpop/gremlin/process/traversal/PathTest.java:89-93 | entries with the same label set survive the same retractions |
| Paths.PathEqualsRetract | gremlin-core/src/test/java/org/apache/tinkerpop/gremlin/process/traversal/PathTest.java:89-93 | retracting the same labels from equal paths gives equal paths |
| Paths.PathEqualsConcat | gremlin-core/src/test/java/org/apache/tinkerpop/gremlin/process/traversal/PathTest.java:248-272 | joining equal paths to equal paths gives equal paths |
| Paths.ListHash | gremlin-core/src/test/java/org/apache/tinkerpop/gremlin/process/traversal/PathTest.java:241-253 | the list hash stays within the 32-bit int range |
| Paths.Wrap32 | gremlin-core/src/test/java/org/apache/tinkerpop/gremlin/process/traversal/PathTest.java:241-253 | 32-bit truncation lands in the int range and is congruent to its input modulo 2^32 |
| Paths.HashCode | gremlin-core/src/test/java/org/apache/tinkerpop/gremlin/process/traversal/PathTest.java:241-246 | the path hash is a 32-bit int, and the empty path hashes to 1, as an empty Java list does |
| Paths.PathEqualsSameHash | gremlin-core/src/test/java/org/apache/tinkerpop/gremlin/process/traversal/PathTest.java:405-410 | equal paths have equal hashes |
| Paths.PopEqualsEverywhere | gremlin-core/src/test/java/org/apache/tinkerpop/gremlin/process/traversal/PathTest.java:287-301 | pop equality holds exactly when both paths answer `get(pop, l)` alike for every label `l` |
| Paths.PopEquals | gremlin-core/src/test/java/org/apache/tinkerpop/gremlin/process/traversal/PathTest.java:287-301 | pop-equal paths carry the same labels |
| Paths.AgreementKeepsLabels | gremlin-core/src/test/java/org/apache/tinkerpop/gremlin/process/traversal/PathTest.java:379-394 | paths whose selections agree on every label of either path carry the same labels |
| Paths.PopEqualsReflexiveSymmetric | gremlin-core/src/test/java/org/apache/tinkerpop/gremlin/process/traversal/PathTest.java:383-394 | a path is pop-equal to itself, and pop equality is symmetric |
| Paths.PopAllImpliesFirstLast | gremlin-core/src/test/java/org/apache/tinkerpop/gremlin/process/traversal/PathTest.java:304-331 | paths that agree under `all` agree under `first` and `last` |
| Paths.PathEqualsImpliesPopEquals | gremlin-core/src/test/java/org/apache/tinkerpop/gremlin/process/traversal/PathTest.java:293-301 | equal paths are pop-equal under every pop |
| PathVectors.BuildExact | gremlin-core/src/test/java/org/apache/tinkerpop/gremlin/process/traversal/PathTest.java:59-61 | extending an empty path entry by entry, each with distinct labels, yields exactly those entries |
| PathVectors.StandardConstruction | gremlin-core/src/test/java/org/apache/tinkerpop/gremlin/process/traversal/PathTest.java:59-61 | `extend(1,a)`, `extend(2,b)`, `extend(3,c)` build the three expected entries |
| PathVectors.StandardAddLabel | gremlin-core/src/test/java/org/apache/tinkerpop/gremlin/process/traversal/PathTest.java:66 | `extend(d)` adds `d` to the last entry |
| PathVectors.StandardExtendE | gremlin-core/src/test/java/org/apache/tinkerpop/gremlin/process/traversal/PathTest.java:78 | `extend(3,e)` appends a fourth entry |
| PathVectors.StandardExtend | gremlin-core/src/test/java/org/apache/tinkerpop/gremlin/process/traversal/PathTest.java:56-65 | the empty path is simple with size 0; after three extends the size is 3 and `a`, `b`, `c` give 1, 2, 3 |
| PathVectors.StandardExtendLabels | gremlin-core/src/test/java/org/apache/tinkerpop/gremlin/process/traversal/PathTest.java:66-71 | after `extend(d)` the size is still 3, and `d` gives 3 like `c` |
| PathVectors.StandardHasLabel | gremlin-core/src/test/java/org/apache/tinkerpop/gremlin/process/traversal/PathTest.java:72-77 | labels `a` to `d` are present, `e` is not, and the path is simple |
| PathVectors.StandardNonSimple | gremlin-core/src/test/java/org/apache/tinkerpop/gremlin/process/traversal/PathTest.java:78-85 | a second 3 makes the path non-simple; the size is 4 and `get(0..3)` is 1, 2, 3, 3 |
| PathVectors.StandardRetractionKeep | gremlin-core/src/test/java/org/apache/tinkerpop/gremlin/process/traversal/PathTest.java:86-89 | retracting the absent `f` changes nothing |
| PathVectors.StandardRetractionB | gremlin-core/src/test/java/org/apache/tinkerpop/gremlin/process/traversal/PathTest.java:90-93 | retracting `b` drops the second entry |
| PathVectors.StandardRetractionA | gremlin-core/src/test/java/org/apache/tinkerpop/gremlin/process/traversal/PathTest.java:94-97 | retracting `a` then drops the first entry |
| PathVectors.StandardRetractionCDE | gremlin-core/src/test/java/org/apache/tinkerpop/gremlin/process/traversal/PathTest.java:98-108 | retracting `c, d` leaves only the `e` entry, and retracting `e` empties the path |
| PathVectors.StandardRetractionQueries | gremlin-core/src/test/java/org/apache/tinkerpop/gremlin/process/traversal/PathTest.java:90-107 | the label and size checks between retractions, and that the emptied path differs from the unretracted one |
| PathVectors.MultiLabelConstruction | gremlin-core/src/test/java/org/apache/tinkerpop/gremlin/process/traversal/PathTest.java:115-118 | the multi-label history builds the expected entries |
| PathVectors.MultiLabelPaths | gremlin-core/src/test/java/org/apache/tinkerpop/gremlin/process/traversal/PathTest.java:119-127 | a label on two entries gives the list `[marko, matthias]`; a label on one gives the single value |
| PathVectors.OrderedConstruction | gremlin-core/src/test/java/org/apache/tinkerpop/gremlin/process/traversal/PathTest.java:153-162 | label sets keep the order in which they were given |
| PathVectors.OrderedPathLabels | gremlin-core/src/test/java/org/apache/tinkerpop/gremlin/process/traversal/PathTest.java:177-184 | `a`, `b` and `c` give their values in path order |
| PathVectors.ExtendCollapsesLabels | gremlin-core/src/test/java/org/apache/tinkerpop/gremlin/process/traversal/PathTest.java:194 | a label list naming `x` twice yields a single `x` |
| PathVectors.WithNullConstruction | gremlin-core/src/test/java/org/apache/tinkerpop/gremlin/process/traversal/PathTest.java:191-196 | the four extends, one with a null value, build the expected path |
| PathVectors.WithNullValuesAB | gremlin-core/src/test/java/org/apache/tinkerpop/gremlin/process/traversal/PathTest.java:197-204 | the selections of `a` and `b` on that path |
| PathVectors.WithNullValuesC | gremlin-core/src/test/java/org/apache/tinkerpop/gremlin/process/traversal/PathTest.java:199-206 | the selection of `c` on that path |
| PathVectors.WithNullValuesXD | gremlin-core/src/test/java/org/apache/tinkerpop/gremlin/process/traversal/PathTest.java:200-207 | the selections of `x` (the null value) and `d` |
| PathVectors.SelectSingle | gremlin-core/src/test/java/org/apache/tinkerpop/gremlin/process/traversal/PathTest.java:189-209 | every `get(first, _)` and `get(last, _)` of the test, with null returned as a value |
| PathVectors.SelectList | gremlin-core/src/test/java/org/apache/tinkerpop/gremlin/process/traversal/PathTest.java:212-230 | the test's three extends give a path of size 3 on which every `get(all, _)` of the test holds: `a` and `c` select two values in path order, `b` and `d` one; an absent label gives the empty list under `all` and an error under `first` |
| PathVectors.Equality | gremlin-core/src/test/java/org/apache/tinkerpop/gremlin/process/traversal/PathTest.java:235-284 | one instance of each kind of equality and inequality in the test, on shorter histories than the test builds: empty paths, equal one-entry paths, different labels, `{bb,bbb}` against `{bb}`, and different values |
| PathVectors.CrossTypeEquality | gremlin-core/src/test/java/org/apache/tinkerpop/gremlin/process/traversal/PathTest.java:399-411 | the same path built with labels in another order is equal and hashes alike |
| PathVectors.PopEqualityConvergentLast | gremlin-core/src/test/java/org/apache/tinkerpop/gremlin/process/traversal/PathTest.java:334-346 | histories that end on the same value per label are equal under `last` |
| PathVectors.PopEqualityDivergentFirst | gremlin-core/src/test/java/org/apache/tinkerpop/gremlin/process/traversal/PathTest.java:338-342 | ... but not under `first` or `all` |
| PathVectors.PopEqualityMissingLabel | gremlin-core/src/test/java/org/apache/tinkerpop/gremlin/process/traversal/PathTest.java:379-394 | an instance of the test's case on a shorter history: a label present on one side only breaks pop equality under every pop |
| PathVectors.SubPathsFound | gremlin-core/src/test/java/org/apache/tinkerpop/gremlin/process/traversal/PathTest.java:425-447 | `subPath(b, c)` and `subPath(b, b)` |
| PathVectors.SubPathsToEnd | gremlin-core/src/test/java/org/apache/tinkerpop/gremlin/process/traversal/PathTest.java:449-471 | `subPath(c, d)` and `subPath(c, null)` both run to the end |
| PathVectors.SubPathsWhole | gremlin-core/src/test/java/org/apache/tinkerpop/gremlin/process/traversal/PathTest.java:473-481 | `subPath(a, d)` and `subPath(null, d)` are the whole path |
| PathVectors.SubPathsFailing | gremlin-core/src/test/java/org/apache/tinkerpop/gremlin/process/traversal/PathTest.java:483-502 | reversed labels, a missing end label and a missing start label fail with their own errors |
| PathVectors.SubPathLastOccurrence | gremlin-core/src/test/java/org/apache/tinkerpop/gremlin/process/traversal/PathTest.java:507-533 | a repeated label resolves to its last carrier |
| PathVectors.NullSemantics | gremlin-core/src/test/java/org/apache/tinkerpop/gremlin/process/traversal/PathTest.java:536-550 | null, then 1, is simple; a second null makes the path non-simple |
| Traversers.ToShort | gremlin-core/src/main/java/org/apache/tinkerpop/gremlin/process/traversal/traverser/B_O_S_SE_SL_Traverser.java:35 | narrowing to a short lands in the short range, is congruent modulo 2^16 and leaves shorts alone |
| Traversers.New | gremlin-core/src/main/java/org/apache/tinkerpop/gremlin/process/traversal/traverser/B_O_S_SE_SL_Traverser.java:42-47 | a new traverser has loops 0, no loop name and the traversal's side effects; its sack is the supplier's value when there is a supplier, else null |
| Traversers.SetSack | gremlin-core/src/main/java/org/apache/tinkerpop/gremlin/process/traversal/traverser/B_O_S_SE_SL_Traverser.java:56-59 | `sack(o)` changes nothing but the sack |
| Traversers.SackRoundTrip | gremlin-core/src/main/java/org/apache/tinkerpop/gremlin/process/traversal/traverser/B_O_S_SE_SL_Traverser.java:51-59 | reading the sack returns what was last written; a second write overrides the first; writing back what was read changes nothing |
| Traversers.LoopsNamed | gremlin-core/src/main/java/org/apache/tinkerpop/gremlin/process/traversal/traverser/B_O_S_SE_SL_Traverser.java:68-74 | `loops(name)` gives the counter exactly when the name is null or equals the registered name; otherwise it is a "loop name not defined" error |
| Traversers.GetLoopNames | gremlin-core/src/main/java/org/apache/tinkerpop/gremlin/process/traversal/traverser/B_O_S_SE_SL_Traverser.java:76-79 | the loop names are a one-element set holding the registered name, null included |
| Traversers.InitialiseLoops | gremlin-core/src/main/java/org/apache/tinkerpop/gremlin/process/traversal/traverser/B_O_S_SE_SL_Traverser.java:81-84 | registers the name, ignores the step label and changes nothing else |
| Traversers.IncrLoops | gremlin-core/src/main/java/org/apache/tinkerpop/gremlin/process/traversal/traverser/B_O_S_SE_SL_Traverser.java:86-89 | `loops++` adds one below the short maximum and wraps the maximum to the minimum; nothing else changes |
| Traversers.ResetLoops | gremlin-core/src/main/java/org/apache/tinkerpop/gremlin/process/traversal/traverser/B_O_S_SE_SL_Traverser.java:91-94 | the counter becomes 0 and the name is kept |
| Traversers.IncrLoopsTimes | gremlin-core/src/main/java/org/apache/tinkerpop/gremlin/process/traversal/traverser/B_O_S_SE_SL_Traverser.java:86-89 | repeated increments keep the counter a short |
| Traversers.IncrLoopsTimesWraps | gremlin-core/src/main/java/org/apache/tinkerpop/gremlin/process/traversal/traverser/B_O_S_SE_SL_Traverser.java:35 | `k` increments add `k` to the counter modulo the short range and keep the name |
| Traversers.ToShortSucc | gremlin-core/src/main/java/org/apache/tinkerpop/gremlin/process/traversal/traverser/B_O_S_SE_SL_Traverser.java:88 | one short increment agrees with narrowing after a wide increment |
| Traversers.ShortUnique | gremlin-core/src/main/java/org/apache/tinkerpop/gremlin/process/traversal/traverser/B_O_S_SE_SL_Traverser.java:35 | two shorts congruent modulo 2^16 are equal |
| Traversers.LoopsCountFromReset | gremlin-core/src/main/java/org/apache/tinkerpop/gremlin/process/traversal/traverser/B_O_S_SE_SL_Traverser.java:86-94 | after a reset, up to 32767 increments count exactly |
| Traversers.LoopsCycle | gremlin-core/src/main/java/org/apache/tinkerpop/gremlin/process/traversal/traverser/B_O_S_SE_SL_Traverser.java:35 | 65536 increments bring the counter back to where it was |
| Traversers.InitialiseThenAsk | gremlin-core/src/main/java/org/apache/tinkerpop/gremlin/process/traversal/traverser/B_O_S_SE_SL_Traverser.java:68-84 | after registering a name, asking by that name or by null gives the counter, and asking by another name fails |
| Traversers.SplitSack | gremlin-core/src/main/java/org/apache/tinkerpop/gremlin/process/traversal/traverser/B_O_S_SE_SL_Traverser.java:113 | a null sack stays null; otherwise the splitter's result, or the same sack without a splitter; with a sack but no side effects it is the null dereference error |
| Traversers.SplitTo | gremlin-core/src/main/java/org/apache/tinkerpop/gremlin/process/traversal/traverser/B_O_S_SE_SL_Traverser.java:110-115 | `split(r, step)` holds `r` with the split sack, the same bulk and the same loops; it fails exactly on the null dereference |
| Traversers.Split | gremlin-core/src/main/java/org/apache/tinkerpop/gremlin/process/traversal/traverser/B_O_S_SE_SL_Traverser.java:117-122 | `split()` is a copy that differs at most in its split sack |
| Traversers.Merge | gremlin-core/src/main/java/org/apache/tinkerpop/gremlin/process/traversal/traverser/B_O_S_SE_SL_Traverser.java:124-130 | bulks add up on every path, including the one that throws because a present sack has no side-effects to find a merger in; the sack is merged only when present with a merger, and nothing else changes |
| Traversers.CarriesUnmergeableSack | gremlin-core/src/main/java/org/apache/tinkerpop/gremlin/process/traversal/traverser/B_O_S_SE_SL_Traverser.java:134-137 | a present sack with no side-effects or no merger; `MergeUsesMergerIffMergeable` proves it holds exactly when `merge` cannot apply a merger, and `FoldEqualsReflexiveIffMergeable` that it is exactly what stops a traverser folding with itself |
| Traversers.MergeUsesMergerIffMergeable | gremlin-core/src/main/java/org/apache/tinkerpop/gremlin/process/traversal/traverser/B_O_S_SE_SL_Traverser.java:124-137 | for a traverser with a sack: without an unmergeable sack the merge succeeds and the sack becomes the merger applied to both sacks; with one, the merge fails or leaves the sack as it was |
| Traversers.SplitMergeRoundTrip | gremlin-core/src/main/java/org/apache/tinkerpop/gremlin/process/traversal/traverser/B_O_S_SE_SL_Traverser.java:110-130 | splitting and merging the copy back doubles the bulk; without splitter and merger the sack comes back unchanged |
| Traversers.Equals | gremlin-core/src/main/java/org/apache/tinkerpop/gremlin/process/traversal/traverser/B_O_S_SE_SL_Traverser.java:144-148 | equal exactly when the base says so, the receiver carries no unmergeable sack, the argument has the receiver's loop names, and the argument answers `loops(name)` for the receiver's name with the receiver's counter |
| Traversers.EqualsSymmetricWhenMergeable | gremlin-core/src/main/java/org/apache/tinkerpop/gremlin/process/traversal/traverser/B_O_S_SE_SL_Traverser.java:144-148 | when neither side carries an unmergeable sack, equality is symmetric |
| Traversers.UnmergeableEqualsNothing | gremlin-core/src/main/java/org/apache/tinkerpop/gremlin/process/traversal/traverser/B_O_S_SE_SL_Traverser.java:134-148 | a traverser with an unmergeable sack equals nothing, not even itself |
| Traversers.Utf16 | gremlin-core/src/main/java/org/apache/tinkerpop/gremlin/process/traversal/traverser/B_O_S_SE_SL_Traverser.java:141 | the UTF-16 code units Java hashes: at least one per character, each a 16-bit value, and exactly one per character when every character lies in the Basic Multilingual Plane |
| Traversers.Utf16Basic | gremlin-core/src/main/java/org/apache/tinkerpop/gremlin/process/traversal/traverser/B_O_S_SE_SL_Traverser.java:141 | a string of Basic Multilingual Plane characters is its own code units, in order |
| Traversers.UnitsHash | gremlin-core/src/main/java/org/apache/tinkerpop/gremlin/process/traversal/traverser/B_O_S_SE_SL_Traverser.java:141 | the polynomial hash of code units is a 32-bit value, read unsigned |
| Traversers.StringHash | gremlin-core/src/main/java/org/apache/tinkerpop/gremlin/process/traversal/traverser/B_O_S_SE_SL_Traverser.java:141 | the loop name's `String.hashCode`, taken over its UTF-16 code units, is a 32-bit value |
| Traversers.StringHashVectors | gremlin-core/src/main/java/org/apache/tinkerpop/gremlin/process/traversal/traverser/B_O_S_SE_SL_Traverser.java:141 | the string hash agrees with Java's on `""`, `"a"` and `"ab"`, and on U+1F600, hashed as its surrogate pair to 1772899 |
| Traversers.NameHash | gremlin-core/src/main/java/org/apache/tinkerpop/gremlin/process/traversal/traverser/B_O_S_SE_SL_Traverser.java:141 | a null name hashes to 0 |
| Traversers.HashCode | gremlin-core/src/main/java/org/apache/tinkerpop/gremlin/process/traversal/traverser/B_O_S_SE_SL_Traverser.java:139-142 | the identity hash under an unmergeable sack, otherwise the base hash XOR the loop counter XOR the loop name's hash; its meaning is stated by `HashCodeIdentity`, `EqualsHashConsistentWhenMergeable` and `FoldEqualsHashConsistent` |
| Traversers.HashCodeIdentity | gremlin-core/src/main/java/org/apache/tinkerpop/gremlin/process/traversal/traverser/B_O_S_SE_SL_Traverser.java:139-142 | an unmergeable sack gives the identity hash, so different identity hashes give different hashes exactly then; otherwise the identity hash plays no part |
| Traversers.EqualsHashConsistentWhenMergeable | gremlin-core/src/main/java/org/apache/tinkerpop/gremlin/process/traversal/traverser/B_O_S_SE_SL_Traverser.java:139-148 | when the argument's sack is mergeable too, equal traversers hash alike |
| Traversers.EqualsAsymmetric | gremlin-core/src/main/java/org/apache/tinkerpop/gremlin/process/traversal/traverser/B_O_S_SE_SL_Traverser.java:144-153 | a traverser equals its detached copy but not the other way round, and the two hash differently |
| Traversers.FoldEquals | gremlin-core/src/main/java/org/apache/tinkerpop/gremlin/process/traversal/traverser/B_O_S_SE_SL_Traverser.java:144-148 | the corrected equality: the source's check made in both directions |
| Traversers.FoldEqualsSymmetric | gremlin-core/src/main/java/org/apache/tinkerpop/gremlin/process/traversal/traverser/B_O_S_SE_SL_Traverser.java:144-153 | the corrected equality is symmetric |
| Traversers.FoldEqualsHashConsistent | gremlin-core/src/main/java/org/apache/tinkerpop/gremlin/process/traversal/traverser/B_O_S_SE_SL_Traverser.java:139-148 | traversers equal under the corrected equality hash alike |
| Traversers.FoldEqualsReflexiveIffMergeable | gremlin-core/src/main/java/org/apache/tinkerpop/gremlin/process/traversal/traverser/B_O_S_SE_SL_Traverser.java:134-148 | a traverser folds with itself exactly when its sack is mergeable |
| Numerals.NatToString | gremlin-dotnet/src/Gremlin.Net/Process/Traversal/Translator/GroovyTranslator.cs:131 | decimal digits, non-empty, with a leading zero only for 0 |
| Numerals.IntToString | gremlin-dotnet/src/Gremlin.Net/Process/Traversal/Translator/GroovyTranslator.cs:131 | a leading minus exactly for negative numbers |
| Numerals.DigitsValueOfNat | gremlin-dotnet/src/Gremlin.Net/Process/Traversal/Translator/GroovyTranslator.cs:131 | reading back the digits of a natural number gives the number |
| Numerals.ParseIntToString | gremlin-dotnet/src/Gremlin.Net/Process/Traversal/Translator/GroovyTranslator.cs:131 | every integer's text parses back to it |
| Numerals.IntToStringInjective | gremlin-dotnet/src/Gremlin.Net/Process/Traversal/Translator/GroovyTranslator.cs:131 | distinct integers print differently |
| Groovy.Join | gremlin-dotnet/src/Gremlin.Net/Process/Traversal/Translator/GroovyTranslator.cs:101 | joining no parts gives the empty text, and one part gives that part |
| Groovy.JoinSnoc | gremlin-dotnet/src/Gremlin.Net/Process/Traversal/Translator/GroovyTranslator.cs:101 | one more part adds the separator and the part at the end |
| Groovy.JoinLength | gremlin-dotnet/src/Gremlin.Net/Process/Traversal/Translator/GroovyTranslator.cs:101 | the joined text is exactly the parts plus one separator between each pair |
| Groovy.HexDigit | gremlin-dotnet/src/Gremlin.Net/Process/Traversal/Translator/GroovyTranslator.cs:170 | GUID digits print in lower case |
| Groovy.GuidString | gremlin-dotnet/src/Gremlin.Net/Process/Traversal/Translator/GroovyTranslator.cs:170 | a GUID prints as 36 characters with dashes at 8, 13, 18 and 23 |
| Groovy.ParseGuid | gremlin-dotnet/src/Gremlin.Net/Process/Traversal/Translator/GroovyTranslator.cs:170 | parsing succeeds exactly on the dashed shape and reads each digit from its position |
| Groovy.HexRoundTrip | gremlin-dotnet/src/Gremlin.Net/Process/Traversal/Translator/GroovyTranslator.cs:170 | a printed digit reads back as itself, and a lower-case digit is the printing of its value |
| Groovy.GuidStringDigits | gremlin-dotnet/src/Gremlin.Net/Process/Traversal/Translator/GroovyTranslator.cs:170 | each digit of a GUID lands at its position in the text |
| Groovy.ParseGuidString | gremlin-dotnet/src/Gremlin.Net/Process/Traversal/Translator/GroovyTranslator.cs:170 | parsing a GUID's text gives the GUID back |
| Groovy.GuidStringParse | gremlin-dotnet/src/Gremlin.Net/Process/Traversal/Translator/GroovyTranslator.cs:170 | lower-case dashed text is exactly the printing of the GUID it parses to |
| Groovy.TranslateDateTime | gremlin-dotnet/src/Gremlin.Net/Process/Traversal/Translator/GroovyTranslator.cs:172-181 | `new Date(` and `)` around text that reads back as six integers: the year minus 1900, the month minus 1, then day, hour, minute and second |
| Groovy.DateFieldsReadable | gremlin-dotnet/src/Gremlin.Net/Process/Traversal/Translator/GroovyTranslator.cs:174-180 | the six numbers of a date, joined, read back in order |
| Groovy.DateFields | gremlin-dotnet/src/Gremlin.Net/Process/Traversal/Translator/GroovyTranslator.cs:172-181 | a date prints six numbers that read back as the year minus 1900, the month minus 1, then day, hour, minute and second |
| Groovy.BoolString | gremlin-dotnet/src/Gremlin.Net/Process/Traversal/Translator/GroovyTranslator.cs:131 | a boolean prints as `True` or `False`, `True` exactly for true |
| Groovy.ArgStrings | gremlin-dotnet/src/Gremlin.Net/Process/Traversal/Translator/GroovyTranslator.cs:92-102 | each argument is printed on its own, in order |
| Groovy.KeyValueStrings | gremlin-dotnet/src/Gremlin.Net/Process/Traversal/Translator/GroovyTranslator.cs:139-148 | one `key: value` text per dictionary entry |
| Groovy.TranslateSteps | gremlin-dotnet/src/Gremlin.Net/Process/Traversal/Translator/GroovyTranslator.cs:74-82 | the instructions print as nothing exactly when there are none; otherwise the text starts with `.` |
| Groovy.TranslateStep | gremlin-dotnet/src/Gremlin.Net/Process/Traversal/Translator/GroovyTranslator.cs:87-90 | a step prints as text starting with `.` and ending with `)` |
| Groovy.StepShape | gremlin-dotnet/src/Gremlin.Net/Process/Traversal/Translator/GroovyTranslator.cs:87-90 | after the dot comes the operator name, then `(`, the printed arguments and `)` |
| Groovy.TranslateArguments | gremlin-dotnet/src/Gremlin.Net/Process/Traversal/Translator/GroovyTranslator.cs:92-102 | the arguments print as nothing exactly when there are none; a single argument prints as itself |
| Groovy.TranslateArgument | gremlin-dotnet/src/Gremlin.Net/Process/Traversal/Translator/GroovyTranslator.cs:104-132 | null prints as `null`, a date through `TranslateDateTime`, a traversal as a child traversal, an integer as text that parses back to it and a boolean as `True` or `False` |
| Groovy.QuotedArgument | gremlin-dotnet/src/Gremlin.Net/Process/Traversal/Translator/GroovyTranslator.cs:108-111 | strings and chars print between single quotes, unchanged |
| Groovy.BracketedArgument | gremlin-dotnet/src/Gremlin.Net/Process/Traversal/Translator/GroovyTranslator.cs:116-125 | predicates print as `P.` calls ending in `)`; dictionaries and collections print between brackets |
| Groovy.TranslateKeyValue | gremlin-dotnet/src/Gremlin.Net/Process/Traversal/Translator/GroovyTranslator.cs:144 | an entry of two integers prints without a comma and reads back as that pair |
| Groovy.TranslateStepsConcat | gremlin-dotnet/src/Gremlin.Net/Process/Traversal/Translator/GroovyTranslator.cs:74-82 | printing instructions distributes over concatenation |
| Groovy.Translate | gremlin-dotnet/src/Gremlin.Net/Process/Traversal/Translator/GroovyTranslator.cs:70-85 | `__` for a child traversal, otherwise the source name, followed by each source instruction and then each step instruction; stated by `TranslateIsPrefixAndSteps`, `TranslateAppendStep` and `TranslatePrefix` |
| Groovy.TranslateIsPrefixAndSteps | gremlin-dotnet/src/Gremlin.Net/Process/Traversal/Translator/GroovyTranslator.cs:70-85 | the text is the prefix, then the source instructions, then the step instructions |
| Groovy.TranslateAppendStep | gremlin-dotnet/src/Gremlin.Net/Process/Traversal/Translator/GroovyTranslator.cs:79-82 | adding a step at the end appends exactly that step's text to the traversal's text |
| Groovy.AppendedSteps | gremlin-dotnet/src/Gremlin.Net/Process/Traversal/Translator/GroovyTranslator.cs:87-90 | one more instruction adds its `.op(args)` at the end |
| Groovy.TranslatePrefix | gremlin-dotnet/src/Gremlin.Net/Process/Traversal/Translator/GroovyTranslator.cs:72 | a traversal starts with the source name, a child traversal with `__`, and a child's text does not depend on the source name |
| Groovy.TranslateSourceIrrelevant | gremlin-dotnet/src/Gremlin.Net/Process/Traversal/Translator/GroovyTranslator.cs:134-137 | a child traversal prints the same whatever the outer source is |
| Groovy.ArgSourceIrrelevant | gremlin-dotnet/src/Gremlin.Net/Process/Traversal/Translator/GroovyTranslator.cs:104-132 | an argument prints the same whatever the outer source is |
| Groovy.IntArgumentRoundTrip | gremlin-dotnet/src/Gremlin.Net/Process/Traversal/Translator/GroovyTranslator.cs:131 | an integer argument prints as text that parses back to it |
| Groovy.GuidArgumentRoundTrip | gremlin-dotnet/src/Gremlin.Net/Process/Traversal/Translator/GroovyTranslator.cs:114-115 | a GUID argument is `UUID.fromString('...')` around text that parses back to the GUID |
| Groovy.QuotesAreNotEscaped | gremlin-dotnet/src/Gremlin.Net/Process/Traversal/Translator/GroovyTranslator.cs:108-109 | strings are quoted without escaping, so one string can print like two |
| Groovy.IntTextPunctuationFree | gremlin-dotnet/src/Gremlin.Net/Process/Traversal/Translator/GroovyTranslator.cs:131 | an integer's text holds no comma, colon or space |
| Groovy.ParseItemsJoin | gremlin-dotnet/src/Gremlin.Net/Process/Traversal/Translator/GroovyTranslator.cs:101 | parts without commas that each read back as an item read back, in order, from their `", "` join |
| Groovy.ParseListJoin | gremlin-dotnet/src/Gremlin.Net/Process/Traversal/Translator/GroovyTranslator.cs:101 | the same for a possibly empty list of non-empty parts |
| Groovy.PairRoundTrip | gremlin-dotnet/src/Gremlin.Net/Process/Traversal/Translator/GroovyTranslator.cs:144 | a `key: value` entry of integers has no comma and reads back as the pair |
| Groovy.IntsReadable | gremlin-dotnet/src/Gremlin.Net/Process/Traversal/Translator/GroovyTranslator.cs:92-102 | integer arguments, printed and joined, read back as those integers |
| Groovy.CollectionOfIntsRoundTrip | gremlin-dotnet/src/Gremlin.Net/Process/Traversal/Translator/GroovyTranslator.cs:160-161 | a collection of integers prints between brackets around text that reads back as exactly those integers, in order |
| Groovy.IntEntriesReadable | gremlin-dotnet/src/Gremlin.Net/Process/Traversal/Translator/GroovyTranslator.cs:139-147 | integer entries, printed and joined, read back as those pairs |
| Groovy.DictionaryOfIntsRoundTrip | gremlin-dotnet/src/Gremlin.Net/Process/Traversal/Translator/GroovyTranslator.cs:139-148 | a dictionary of integers prints between brackets around text that reads back as exactly its entries, in order |
| Groovy.StringArgumentInjective | gremlin-dotnet/src/Gremlin.Net/Process/Traversal/Translator/GroovyTranslator.cs:108-109 | distinct strings print differently |
| Groovy.QuotedListRoundTrip | gremlin-dotnet/src/Gremlin.Net/Process/Traversal/Translator/GroovyTranslator.cs:92-109 | a non-empty list of strings without single quotes reads back from its printed arguments |
| Groovy.StringListsInjective | gremlin-dotnet/src/Gremlin.Net/Process/Traversal/Translator/GroovyTranslator.cs:92-109 | lists of strings without single quotes print differently when they differ |
| Groovy.CharPrintsAsString | gremlin-dotnet/src/Gremlin.Net/Process/Traversal/Translator/GroovyTranslator.cs:108-111 | a char prints like the one-character string |
| Groovy.LeafArgumentsDistinct | gremlin-dotnet/src/Gremlin.Net/Process/Traversal/Translator/GroovyTranslator.cs:106-131 | `null`, `True`, `False` and every integer print as texts that cannot be confused |
| Groovy.PredicateIsCall | gremlin-dotnet/src/Gremlin.Net/Process/Traversal/Translator/GroovyTranslator.cs:163-168 | a predicate prints like a step called on `P`: `P.op(value)`, or `P.op(value, other)` when it has a second operand |
| GroovyVectors.SingleArgument | gremlin-dotnet/test/Gremlin.Net.UnitTest/Process/Traversal/Translator/GroovyTranslatorTests.cs:40-47 | `g.V().values('name')` |
| GroovyVectors.MultipleArguments | gremlin-dotnet/test/Gremlin.Net.UnitTest/Process/Traversal/Translator/GroovyTranslatorTests.cs:50-57 | `g.V().values('name', 'age')` |
| GroovyVectors.NullArgument | gremlin-dotnet/test/Gremlin.Net.UnitTest/Process/Traversal/Translator/GroovyTranslatorTests.cs:60-63 | null prints as `null` |
| GroovyVectors.SimpleTypes | gremlin-dotnet/test/Gremlin.Net.UnitTest/Process/Traversal/Translator/GroovyTranslatorTests.cs:65-72 | `3, 5` and `'c'` (the float row is left out) |
| GroovyVectors.DateInjected | gremlin-dotnet/test/Gremlin.Net.UnitTest/Process/Traversal/Translator/GroovyTranslatorTests.cs:75-78 | 2022-12-30T12:00:01Z prints as `new Date(122, 11, 30, 12, 0, 1)` |
| GroovyVectors.GuidTextNames | gremlin-dotnet/test/Gremlin.Net.UnitTest/Process/Traversal/Translator/GroovyTranslatorTests.cs:83-84 | the test's GUID is the one whose text is `ffffffff-fd49-1e4b-0000-00000d4b8a1d`, in both directions |
| GroovyVectors.GuidInjected | gremlin-dotnet/test/Gremlin.Net.UnitTest/Process/Traversal/Translator/GroovyTranslatorTests.cs:81-85 | that GUID prints as `UUID.fromString('ffffffff-fd49-1e4b-0000-00000d4b8a1d')` |
| GroovyVectors.CollectionInjected | gremlin-dotnet/test/Gremlin.Net.UnitTest/Process/Traversal/Translator/GroovyTranslatorTests.cs:88-91 | `['test1', 'test2']` |
| GroovyVectors.DictionaryInjected | gremlin-dotnet/test/Gremlin.Net.UnitTest/Process/Traversal/Translator/GroovyTranslatorTests.cs:94-102 | `['key1': 'value1', 1: 'value2']` |
| GroovyVectors.AndPredicateInjected | gremlin-dotnet/test/Gremlin.Net.UnitTest/Process/Traversal/Translator/GroovyTranslatorTests.cs:135-138 | `P.and(P.gt(20), P.lt(30))` |
| GroovyVectors.BetweenPredicateInjected | gremlin-dotnet/test/Gremlin.Net.UnitTest/Process/Traversal/Translator/GroovyTranslatorTests.cs:141-144 | `P.between([20, 30])` |
| GroovyVectors.ComparisonPredicates | gremlin-dotnet/src/Gremlin.Net/Process/Traversal/Translator/GroovyTranslator.cs:163-168 | a predicate without a second operand prints one argument |
| GroovyVectors.StringBeforeCollection | gremlin-dotnet/src/Gremlin.Net/Process/Traversal/Translator/GroovyTranslator.cs:108-125 | a string prints quoted, not as a collection of characters |
| GroovyVectors.RepeatTraversal | gremlin-dotnet/test/Gremlin.Net.UnitTest/Process/Traversal/Translator/GroovyTranslatorTests.cs:147-151 | `g.V('3').repeat(__.out('route').simplePath()).times(2).path().by('code')` |
| GroovyVectors.VWithIds | gremlin-dotnet/test/Gremlin.Net.UnitTest/Process/Traversal/Translator/GroovyTranslatorTests.cs:159 | `g.V('1', '2', '3', '4')` |
| GroovyVectors.ValueMapTrue | gremlin-dotnet/test/Gremlin.Net.UnitTest/Process/Traversal/Translator/GroovyTranslatorTests.cs:160 | `g.V('3').valueMap(True)` |
| GroovyVectors.HasLabelWithin | gremlin-dotnet/test/Gremlin.Net.UnitTest/Process/Traversal/Translator/GroovyTranslatorTests.cs:165-168 | `g.V().hasLabel(P.within(['a', 'b', 'c']))` |
| GroovyVectors.UnionOfChildren | gremlin-dotnet/test/Gremlin.Net.UnitTest/Process/Traversal/Translator/GroovyTranslatorTests.cs:189-193 | `g.V().hasLabel('airport').union(__.values('city'), __.values('region')).limit(5)` |
| GroovyVectors.InjectValues | gremlin-dotnet/test/Gremlin.Net.UnitTest/Process/Traversal/Translator/GroovyTranslatorTests.cs:253 | `g.inject(3, 4, 5)` |
| GroovyVectors.InjectList | gremlin-dotnet/test/Gremlin.Net.UnitTest/Process/Traversal/Translator/GroovyTranslatorTests.cs:254 | `g.inject([3, 4, 5])` |
| TreeSteps.EmptyTree | gremlin-core/src/main/java/com/tinkerpop/gremlin/process/graph/step/sideEffect/TreeStep.java:32 | a new tree has no children |
| TreeSteps.Insert | gremlin-core/src/main/java/com/tinkerpop/gremlin/process/graph/step/sideEffect/TreeStep.java:34-39 | an empty chain changes nothing; otherwise the root gains exactly the first key, and every other child is kept as it was |
| TreeSteps.InsertHas | gremlin-core/src/main/java/com/tinkerpop/gremlin/process/graph/step/sideEffect/TreeStep.java:33-39 | after consuming a chain, the tree holds it as nested keys from the root |
| TreeSteps.InsertPresent | gremlin-core/src/main/java/com/tinkerpop/gremlin/process/graph/step/sideEffect/TreeStep.java:36-38 | inserting a chain that is already there changes nothing: an existing child is never replaced |
| TreeSteps.InsertIdempotent | gremlin-core/src/main/java/com/tinkerpop/gremlin/process/graph/step/sideEffect/TreeStep.java:36-38 | inserting the same chain twice is inserting it once |
| TreeSteps.InsertChains | gremlin-core/src/main/java/com/tinkerpop/gremlin/process/graph/step/sideEffect/TreeStep.java:33-39 | the chains of the new tree are exactly the old chains plus the prefixes of the inserted one: nothing is removed, nothing else is added |
| TreeSteps.PrefixCons | gremlin-core/src/main/java/com/tinkerpop/gremlin/process/graph/step/sideEffect/TreeStep.java:34-38 | a non-empty prefix starts with the same key and continues as a prefix |
| TreeSteps.EmptyHasOnlyRoot | gremlin-core/src/main/java/com/tinkerpop/gremlin/process/graph/step/sideEffect/TreeStep.java:32 | a new tree holds only the empty chain |
| TreeSteps.TurnFrom | gremlin-core/src/main/java/com/tinkerpop/gremlin/process/graph/step/sideEffect/TreeStep.java:35 | the ring's position stays in range |
| TreeSteps.TurnFromFirst | gremlin-core/src/main/java/com/tinkerpop/gremlin/process/graph/step/sideEffect/TreeStep.java:35-40 | from a reset ring, turn `i` uses function `i mod n` |
| TreeSteps.ModSucc | gremlin-core/src/main/java/com/tinkerpop/gremlin/process/graph/step/sideEffect/TreeStep.java:35 | one more turn moves the remainder on by one, wrapping at the ring's size |
| TreeSteps.ApplyNext | gremlin-core/src/main/java/com/tinkerpop/gremlin/process/graph/step/sideEffect/TreeStep.java:35 | `next().apply(x)` applies the current function (the identity for an empty ring) and moves the ring on by one |
| TreeSteps.ResetRing | gremlin-core/src/main/java/com/tinkerpop/gremlin/process/graph/step/sideEffect/TreeStep.java:40 | after a reset the next function is the first one |
| TreeSteps.RingKeys | gremlin-core/src/main/java/com/tinkerpop/gremlin/process/graph/step/sideEffect/TreeStep.java:34-35 | a path of n objects gives n keys |
| TreeSteps.RingKeysAt | gremlin-core/src/main/java/com/tinkerpop/gremlin/process/graph/step/sideEffect/TreeStep.java:34-35 | key `i` is object `i` passed through the function reached after `i` turns |
| TreeSteps.FromFirstKeys | gremlin-core/src/main/java/com/tinkerpop/gremlin/process/graph/step/sideEffect/TreeStep.java:34-40 | from a reset ring, key `i` is `f_(i mod n)(path[i])`: each path starts from the first branch function |
| TreeSteps.EmptyRingKeys | gremlin-core/src/main/java/com/tinkerpop/gremlin/process/graph/step/sideEffect/TreeStep.java:35 | with no branch functions the keys are the path's own objects |
| TreeSteps.ApplyRing | gremlin-core/src/main/java/com/tinkerpop/gremlin/process/graph/step/sideEffect/TreeStep.java:34-39 | the consumer's loop yields exactly the ring keys of the path and leaves the ring `|path|` turns further on |
| TreeSteps.NewTreeStep | gremlin-core/src/main/java/com/tinkerpop/gremlin/process/graph/step/sideEffect/TreeStep.java:26-29 | the side-effect key is the given key, or the step's label when none is given; the ring starts at the first function |
| TreeSteps.GetOrCreate | gremlin-core/src/main/java/com/tinkerpop/gremlin/process/graph/step/sideEffect/TreeStep.java:32 | an existing tree is returned as it is; a missing one is created empty and registered |
| TreeSteps.Record | gremlin-core/src/main/java/com/tinkerpop/gremlin/process/graph/step/sideEffect/TreeStep.java:32-39 | the tree under the key becomes the get-or-created tree with the chain inserted |
| TreeSteps.RecordFrame | gremlin-core/src/main/java/com/tinkerpop/gremlin/process/graph/step/sideEffect/TreeStep.java:32 | only the step's key is added; every other side effect is unchanged |
| TreeSteps.RecordHas | gremlin-core/src/main/java/com/tinkerpop/gremlin/process/graph/step/sideEffect/TreeStep.java:33-39 | the recorded tree holds the chain |
| TreeSteps.RecordEmpty | gremlin-core/src/main/java/com/tinkerpop/gremlin/process/graph/step/sideEffect/TreeStep.java:34 | an empty path only creates the tree if it was missing |
| TreeSteps.RecordTwice | gremlin-core/src/main/java/com/tinkerpop/gremlin/process/graph/step/sideEffect/TreeStep.java:36-38 | recording the same chain twice is recording it once |
| TreeSteps.Consume | gremlin-core/src/main/java/com/tinkerpop/gremlin/process/graph/step/sideEffect/TreeStep.java:31-41 | the consumer inserts the path's ring keys under the step's key (adding only that key) and leaves the ring reset |
| TreeSteps.ConsumeTwice | gremlin-core/src/main/java/com/tinkerpop/gremlin/process/graph/step/sideEffect/TreeStep.java:31-41 | from a reset ring, consuming the same path a second time leaves the side effects as the first time left them |
| TreeSteps.Reset | gremlin-core/src/main/java/com/tinkerpop/gremlin/process/graph/step/sideEffect/TreeStep.java:55-58 | `reset()` puts the ring back on its first function and keeps key and functions |
| TinkerEdges.FindTarget | tinkergraph/src/main/java/com/tinkerpop/tinkergraph/process/steps/optimizers/TinkerEdgesOptimizer.java:30-38 | what the backward scan finds is an edges step before the scan's start |
| TinkerEdges.FindTargetIsTarget | tinkergraph/src/main/java/com/tinkerpop/tinkergraph/process/steps/optimizers/TinkerEdgesOptimizer.java:30-38 | the scan finds `t` exactly when `t` is an edges step with only foldable steps after it |
| TinkerEdges.FindTargetNone | tinkergraph/src/main/java/com/tinkerpop/tinkergraph/process/steps/optimizers/TinkerEdgesOptimizer.java:30-38 | the scan finds nothing exactly when no position is such a target |
| TinkerEdges.TargetUnique | tinkergraph/src/main/java/com/tinkerpop/tinkergraph/process/steps/optimizers/TinkerEdgesOptimizer.java:33-37 | there is at most one target, since an edges step is not foldable |
| TinkerEdges.Appended | tinkergraph/src/main/java/com/tinkerpop/tinkergraph/process/steps/optimizers/TinkerEdgesOptimizer.java:41-47 | a folded step hands over at most two containers |
| TinkerEdges.Fold | tinkergraph/src/main/java/com/tinkerpop/tinkergraph/process/steps/optimizers/TinkerEdgesOptimizer.java:40-48 | folding only appends to the target's containers (the old ones stay a prefix) and leaves every other step as it was |
| TinkerEdges.FoldAppends | tinkergraph/src/main/java/com/tinkerpop/tinkergraph/process/steps/optimizers/TinkerEdgesOptimizer.java:41-47 | a has step appends its one container, an interval step its start then its end, and an identity step nothing |
| TinkerEdges.Optimize | tinkergraph/src/main/java/com/tinkerpop/tinkergraph/process/steps/optimizers/TinkerEdgesOptimizer.java:26-53 | a step that is not identity, has or interval is kept with nothing changed; otherwise the result is `false` exactly when a target exists, and then the step is folded into that target |

## Left out

- The four path classes (immutable, mutable, referenced and detached) are one value-semantics model. So is ImmutablePath's behaviour when the returned path of `extend` is discarded (the test special-cases it). The history `NullSemantics` proves is the path the mutable classes accumulate.
- Paths.Retract: the path class sources are not part of this model. An entry is dropped only once retraction removes its last label, so an entry that had no labels at all stays; the tests never retract such an entry.
- Paths.PopEquals: two paths are pop-equal when, for every label either path carries, `get(pop, l)` selects the same values from both; the `popEquals` source is not part of this model.
- Paths.HashCode: the path's `hashCode` source is not part of this model. It is modelled as Java's list hash over the values, with 32-bit wrap-around, so it only has to agree with path equality.
- The `B_O_Traverser` base class is not part of this model. Its `equals` verdict, its hash and `System.identityHashCode` are parameters. Its bulk is a plain integer whose `long` overflow is not modelled, and its path is not carried.
- Traversers.Merge: the base class's bulk summing (`super.merge`) is modelled as plain addition without 64-bit wrap-around. The null dereference that follows it for a detached receiver is modelled as the `thrown` part of the result, next to the receiver's state with the bulk already summed.
- `getSideEffects`/`setSideEffects`, and the side effects becoming `null` after serialisation, are modelled as the `sideEffects` field and its `None` case. Serialisation itself is not modelled.
- Floating-point and enum arguments of the translator (`Convert.ToString` of a double, and tokens such as `Direction.BOTH` that rely on `ToString` overrides outside this model) are left out, as are the test rows that use them (GroovyTranslatorTests.cs rows at 67, 104-132, 162 and the strategy rows).
- Groovy.GuidString: only the default "D" text of a GUID is modelled; the GUID is its 32 digits in text order, not .NET's byte layout.
- Groovy.TranslateDateTime: a `DateTimeOffset` is modelled by its calendar fields as its offset sees them; parsing the date text of the test is not modelled.
- Groovy.TranslateDateTime and Groovy.DateFields: the date's fields are formatted by string interpolation, that is with the current culture, while every other number uses the invariant culture; the model assumes an invariant-culture minus sign, which only shows for a year before 1900, where `year - 1900` is negative and a culture such as sv-SE would print U+2212 instead of `-`.
- `IsDictionaryType` is unused by the printer and is left out. `TargetLanguage` and the constructor are trivial.
- Groovy.TranslateArgument: reading back is proved for integers, GUIDs, dates, collections and dictionaries of integers, and lists of strings without single quotes. Nested collections, predicates and child traversals are stated by their shape only.
- PathVectors.Equality and PathVectors.PopEqualityMissingLabel: each case of the equality tests is proved on a shorter history than the test builds.
- Most rows of `TranslationTest` are not restated one by one. Each is an instance of `TranslateIsPrefixAndSteps`, and the rows proved stand for each kind of argument.
- The `FunctionRing` and `Tree` classes are not part of this model. The ring is a sequence of functions with a current position, handing out the identity when it holds no function, and the tree is a map from keys to subtrees.
- `TreeStep`: `verifySideEffectKeyIsNotAStepLabel`, `getMapReduce`, `toString` and `super.reset()` are left out; they belong to code outside this model.
- `TinkerEdgesOptimizer`: `generateHolderIterator(false)` is left out (it rebuilds the edges step's iterator, outside this model). The `isAssignableFrom` test is modelled as membership of the three step kinds, so subclasses of those steps are not modelled.
- The edges step is mutated in place in the source. The model returns the step list with that one step replaced.
- All input and output, and the network, are outside this model.

## Findings

| source | as written | input that shows it | evidently intended | confidence | as-written member | corrected member |
|---|---|---|---|---|---|---|
| gremlin-core/src/main/java/org/apache/tinkerpop/gremlin/process/traversal/traverser/B_O_S_SE_SL_Traverser.java:144-153 | `equals` checks only the receiver for an unmergeable sack, so equality is not symmetric | a traverser with sack 5 and a merger, against its copy whose side effects were lost: the first equals the second, but not the other way round, and their hashes differ | neither side may carry an unmergeable sack, making equality symmetric and consistent with `hashCode` | medium; not executed | Traversers.EqualsAsymmetric | Traversers.FoldEquals, Traversers.FoldEqualsSymmetric, Traversers.FoldEqualsHashConsistent |
