/** The concrete path scenarios of PathTest, replayed against the path model.
    Values are the Java objects the scenarios use: integers, strings and null. */
module PathVectors {
  import opened Wrappers
  import opened Paths

  datatype Obj = Null | I(n: int) | S(s: string)

  /** Replays a sequence of `extend(value, labels)` calls on a fresh path. */
  function Build(es: seq<Entry<Obj>>): (p: Path<Obj>)
    ensures |p| == |es|
  {
    if |es| == 0 then Empty()
    else Extend(Build(es[..|es| - 1]), es[|es| - 1].value, es[|es| - 1].labels)
  }

  /** Extending with duplicate-free labels rebuilds exactly the entries given. */
  lemma {:induction false} BuildExact(es: seq<Entry<Obj>>)
    requires WellFormed(es)
    ensures Build(es) == es
    decreases |es|
  {
    if |es| > 0 {
      var init := es[..|es| - 1];
      assert WellFormed(init) by {
        assert forall i | 0 <= i < |init| :: init[i] == es[i];
      }
      BuildExact(init);
      ExtendDistinct(init, es[|es| - 1].value, es[|es| - 1].labels);
      assert init + [es[|es| - 1]] == es;
    }
  }

  /** Two entries with duplicate-free labels rebuild themselves. */
  lemma BuildPair(a: Entry<Obj>, b: Entry<Obj>)
    requires Distinct(a.labels) && Distinct(b.labels)
    ensures Build([a, b]) == [a, b]
  {
    BuildExact([a, b]);
  }

  /** Three entries with duplicate-free labels rebuild themselves. */
  lemma BuildTriple(a: Entry<Obj>, b: Entry<Obj>, c: Entry<Obj>)
    requires Distinct(a.labels) && Distinct(b.labels) && Distinct(c.labels)
    ensures Build([a, b, c]) == [a, b, c]
  {
    BuildExact([a, b, c]);
  }

  /** Extending with an entry's own duplicate-free labels appends that entry. */
  lemma ExtendEntry(p: Path<Obj>, e: Entry<Obj>)
    requires Distinct(e.labels)
    ensures Extend(p, e.value, e.labels) == p + [e]
  {
    ExtendDistinct(p, e.value, e.labels);
  }

  /** The contribution of one entry to the selection of `l`. */
  function Sel(e: Entry<Obj>, l: string): seq<Obj> {
    if l in e.labels then [e.value] else []
  }

  lemma Values2(a: Entry<Obj>, b: Entry<Obj>, l: string)
    ensures ValuesOf([a, b], l) == Sel(a, l) + Sel(b, l)
  {
    assert [a, b][1..] == [b];
    assert [b][1..] == [];
  }

  lemma Values3(a: Entry<Obj>, b: Entry<Obj>, c: Entry<Obj>, l: string)
    ensures ValuesOf([a, b, c], l) == Sel(a, l) + (Sel(b, l) + Sel(c, l))
  {
    assert [a, b, c][1..] == [b, c];
    Values2(b, c, l);
  }

  lemma Values4(a: Entry<Obj>, b: Entry<Obj>, c: Entry<Obj>, d: Entry<Obj>, l: string)
    ensures ValuesOf([a, b, c, d], l) == Sel(a, l) + (Sel(b, l) + (Sel(c, l) + Sel(d, l)))
  {
    assert [a, b, c, d][1..] == [b, c, d];
    Values3(b, c, d, l);
  }

  lemma RetractCons(a: Entry<Obj>, rest: Path<Obj>, s: set<string>)
    ensures Retract([a] + rest, s) == Retracted(a, s) + Retract(rest, s)
  {
    assert ([a] + rest)[0] == a;
    assert ([a] + rest)[1..] == rest;
  }

  lemma Retract1(a: Entry<Obj>, s: set<string>)
    ensures Retract([a], s) == Retracted(a, s)
  {
    RetractCons(a, [], s);
    assert [a] + [] == [a];
  }

  lemma Retract2(a: Entry<Obj>, b: Entry<Obj>, s: set<string>)
    ensures Retract([a, b], s) == Retracted(a, s) + Retracted(b, s)
  {
    RetractCons(a, [b], s);
    assert [a] + [b] == [a, b];
    Retract1(b, s);
  }

  lemma Retract3(a: Entry<Obj>, b: Entry<Obj>, c: Entry<Obj>, s: set<string>)
    ensures Retract([a, b, c], s) == Retracted(a, s) + (Retracted(b, s) + Retracted(c, s))
  {
    RetractCons(a, [b, c], s);
    assert [a] + [b, c] == [a, b, c];
    Retract2(b, c, s);
  }

  lemma Retract4(a: Entry<Obj>, b: Entry<Obj>, c: Entry<Obj>, d: Entry<Obj>, s: set<string>)
    ensures Retract([a, b, c, d], s) == Retracted(a, s) + (Retracted(b, s) + (Retracted(c, s) + Retracted(d, s)))
  {
    RetractCons(a, [b, c, d], s);
    assert [a] + [b, c, d] == [a, b, c, d];
    Retract3(b, c, d, s);
  }

  // ---------------------------------------------------------------------------
  // Standard semantics: extend, get, hasLabel, isSimple, retract
  // ---------------------------------------------------------------------------

  const one := Entry(I(1), ["a"])
  const two := Entry(I(2), ["b"])
  const three := Entry(I(3), ["c"])
  const threeD := Entry(I(3), ["c", "d"])
  const threeE := Entry(I(3), ["e"])

  const abc: Path<Obj> := [one, two, three]
  const abcd: Path<Obj> := [one, two, threeD]
  const abcde: Path<Obj> := [one, two, threeD, threeE]

  /** extend(1,a), extend(2,b), extend(3,c). */
  lemma StandardConstruction()
    ensures Build([one, two, three]) == abc
  {
    BuildTriple(one, two, three);
  }

  /** Then extend(d) on the last entry ... */
  lemma StandardAddLabel()
    ensures ExtendLabels(abc, ["d"]) == abcd
  {
    assert AddAll(["c"], ["d"]) == ["c", "d"] by {
      assert AddAll(["c", "d"], []) == ["c", "d"];
    }
    assert abc[..2] == [one, two];
  }

  /** ... then extend(3,e). */
  lemma StandardExtendE()
    ensures Extend(abcd, I(3), ["e"]) == abcde
  {
    ExtendEntry(abcd, threeE);
    assert abcd + [threeE] == abcde;
  }

  lemma StandardExtend()
    ensures Simple<Obj>(Empty()) && Size<Obj>(Empty()) == 0
    ensures Size(abc) == 3
    ensures GetLabel(abc, "a") == Ok(Single(I(1)))
    ensures GetLabel(abc, "b") == Ok(Single(I(2)))
    ensures GetLabel(abc, "c") == Ok(Single(I(3)))
  {
    Values3(one, two, three, "a");
    assert ValuesOf(abc, "a") == [I(1)] by { assert Sel(two, "a") == [] && Sel(three, "a") == []; }
    Values3(one, two, three, "b");
    assert ValuesOf(abc, "b") == [I(2)] by { assert Sel(one, "b") == [] && Sel(three, "b") == []; }
    Values3(one, two, three, "c");
    assert ValuesOf(abc, "c") == [I(3)] by { assert Sel(one, "c") == [] && Sel(two, "c") == []; }
  }

  lemma StandardExtendLabels()
    ensures Size(abcd) == 3
    ensures GetLabel(abcd, "a") == Ok(Single(I(1)))
    ensures GetLabel(abcd, "b") == Ok(Single(I(2)))
    ensures GetLabel(abcd, "c") == Ok(Single(I(3)))
    ensures GetLabel(abcd, "d") == Ok(Single(I(3)))
  {
    Values3(one, two, threeD, "a");
    assert ValuesOf(abcd, "a") == [I(1)] by { assert Sel(two, "a") == [] && Sel(threeD, "a") == []; }
    Values3(one, two, threeD, "b");
    assert ValuesOf(abcd, "b") == [I(2)] by { assert Sel(one, "b") == [] && Sel(threeD, "b") == []; }
    Values3(one, two, threeD, "c");
    assert ValuesOf(abcd, "c") == [I(3)] by { assert Sel(one, "c") == [] && Sel(two, "c") == []; }
    Values3(one, two, threeD, "d");
    assert ValuesOf(abcd, "d") == [I(3)] by { assert Sel(one, "d") == [] && Sel(two, "d") == []; }
  }

  lemma StandardHasLabel()
    ensures HasLabel(abcd, "a") && HasLabel(abcd, "b") && HasLabel(abcd, "c") && HasLabel(abcd, "d")
    ensures !HasLabel(abcd, "e")
    ensures Simple(abcd)
  {
    assert "a" in abcd[0].labels && "b" in abcd[1].labels;
    assert "c" in abcd[2].labels && "d" in abcd[2].labels;
  }

  lemma StandardNonSimple()
    ensures !Simple(abcde) && HasLabel(abcde, "e") && Size(abcde) == 4
    ensures Get(abcde, 0) == Ok(I(1)) && Get(abcde, 1) == Ok(I(2))
    ensures Get(abcde, 2) == Ok(I(3)) && Get(abcde, 3) == Ok(I(3))
  {
    assert "e" in abcde[3].labels;
    assert Objects(abcde)[2] == Objects(abcde)[3];
  }

  const oneThreeDE: Path<Obj> := [one, threeD, threeE]
  const threeDE: Path<Obj> := [threeD, threeE]

  lemma StandardRetractionKeep()
    ensures Retract(abcde, {"f"}) == abcde
  {
    assert !HasLabel(abcde, "f");
    RetractAbsentIsIdentity(abcde, {"f"});
  }

  lemma StandardRetractionB()
    ensures Retract(abcde, {"b"}) == oneThreeDE
  {
    Retract4(one, two, threeD, threeE, {"b"});
    RetractedWithoutB();
  }

  lemma RetractedWithoutB()
    ensures Retracted(one, {"b"}) == [one] && Retracted(two, {"b"}) == []
    ensures Retracted(threeD, {"b"}) == [threeD] && Retracted(threeE, {"b"}) == [threeE]
  {
    assert "a" in one.labels && "a" !in {"b"};
    assert "c" in threeD.labels && "c" !in {"b"} && "d" !in {"b"};
    assert "e" in threeE.labels && "e" !in {"b"};
  }

  lemma StandardRetractionA()
    ensures Retract(oneThreeDE, {"a"}) == threeDE
  {
    Retract3(one, threeD, threeE, {"a"});
    RetractedWithoutA();
  }

  lemma RetractedWithoutA()
    ensures Retracted(one, {"a"}) == []
    ensures Retracted(threeD, {"a"}) == [threeD] && Retracted(threeE, {"a"}) == [threeE]
  {
    assert "c" in threeD.labels && "c" !in {"a"} && "d" !in {"a"};
    assert "e" in threeE.labels && "e" !in {"a"};
  }

  lemma StandardRetractionCDE()
    ensures Retract(threeDE, {"c", "d"}) == [threeE]
    ensures Retract([threeE], {"e"}) == []
  {
    Retract2(threeD, threeE, {"c", "d"});
    assert Retracted(threeD, {"c", "d"}) == [];
    assert Retracted(threeE, {"c", "d"}) == [threeE] by { assert "e" in threeE.labels && "e" !in {"c", "d"}; }
    Retract1(threeE, {"e"});
  }

  lemma StandardRetractionQueries()
    ensures !HasLabel(oneThreeDE, "b") && Size(oneThreeDE) == 3
    ensures !HasLabel(threeDE, "a") && HasLabel(threeDE, "d")
    ensures !PathEquals(abcde, [])
  {
    assert "d" in threeDE[0].labels;
  }

  // ---------------------------------------------------------------------------
  // Multi-label paths and label order
  // ---------------------------------------------------------------------------

  const markoA := Entry(S("marko"), ["a"])
  const stephenB := Entry(S("stephen"), ["b"])
  const matthiasA := Entry(S("matthias"), ["a"])

  lemma MultiLabelConstruction()
    ensures Build([markoA, stephenB, matthiasA]) == [markoA, stephenB, matthiasA]
  {
    BuildTriple(markoA, stephenB, matthiasA);
  }

  lemma MultiLabelPaths()
    ensures GetLabel([markoA, stephenB, matthiasA], "a") == Ok(Many([S("marko"), S("matthias")]))
    ensures GetLabel([markoA, stephenB, matthiasA], "b") == Ok(Single(S("stephen")))
  {
    Values3(markoA, stephenB, matthiasA, "a");
    assert Sel(stephenB, "a") == [];
    assert ValuesOf([markoA, stephenB, matthiasA], "a") == [S("marko"), S("matthias")];
    Values3(markoA, stephenB, matthiasA, "b");
    assert Sel(markoA, "b") == [] && Sel(matthiasA, "b") == [];
  }

  const markoAB := Entry(S("marko"), ["a", "b"])
  const stephenCA := Entry(S("stephen"), ["c", "a"])
  const matthiasAB := Entry(S("matthias"), ["a", "b"])

  /** Labels keep the order they were given in. */
  lemma OrderedConstruction()
    ensures Build([markoAB, stephenCA, matthiasAB]) == [markoAB, stephenCA, matthiasAB]
  {
    DistinctPair("a", "b");
    DistinctPair("c", "a");
    BuildTriple(markoAB, stephenCA, matthiasAB);
  }

  lemma OrderedPathLabels()
    ensures GetLabel([markoAB, stephenCA, matthiasAB], "a")
         == Ok(Many([S("marko"), S("stephen"), S("matthias")]))
    ensures GetLabel([markoAB, stephenCA, matthiasAB], "b") == Ok(Many([S("marko"), S("matthias")]))
    ensures GetLabel([markoAB, stephenCA, matthiasAB], "c") == Ok(Single(S("stephen")))
  {
    Values3(markoAB, stephenCA, matthiasAB, "a");
    assert ValuesOf([markoAB, stephenCA, matthiasAB], "a") == [S("marko"), S("stephen"), S("matthias")];
    Values3(markoAB, stephenCA, matthiasAB, "b");
    assert Sel(stephenCA, "b") == [];
    assert ValuesOf([markoAB, stephenCA, matthiasAB], "b") == [S("marko"), S("matthias")];
    Values3(markoAB, stephenCA, matthiasAB, "c");
    assert Sel(markoAB, "c") == [] && Sel(matthiasAB, "c") == [];
  }

  // ---------------------------------------------------------------------------
  // Pop selections
  // ---------------------------------------------------------------------------

  const stephenAC := Entry(S("stephen"), ["a", "c"])
  const nullX := Entry(Null, ["x"])
  const matthiasCD := Entry(S("matthias"), ["c", "d"])
  const withNull: Path<Obj> := [markoAB, stephenAC, nullX, matthiasCD]

  /** A label list naming `x` twice yields a single `x`. */
  lemma ExtendCollapsesLabels(p: Path<Obj>)
    ensures Extend(p, Null, ["x", "x"]) == p + [nullX]
  {
    assert AddAll(["x"], ["x"]) == AddAll(["x"], []);
  }

  lemma WithNullPrefix()
    ensures Build([markoAB, stephenAC]) == [markoAB, stephenAC]
  {
    DistinctPair("a", "b");
    DistinctPair("a", "c");
    BuildPair(markoAB, stephenAC);
  }

  lemma WithNullSuffix()
    ensures Extend([markoAB, stephenAC, nullX], S("matthias"), ["c", "d"]) == withNull
  {
    DistinctPair("c", "d");
    ExtendEntry([markoAB, stephenAC, nullX], matthiasCD);
    assert [markoAB, stephenAC, nullX] + [matthiasCD] == withNull;
  }

  lemma DistinctPair(a: string, b: string)
    requires a != b
    ensures Distinct([a, b])
  {
  }

  /** extend(marko,{a,b}), extend(stephen,{a,c}), extend(null,{x,x}),
      extend(matthias,{c,d}). */
  lemma WithNullConstruction(start: Path<Obj>)
    requires start == Build([markoAB, stephenAC])
    ensures Extend(Extend(start, Null, ["x", "x"]), S("matthias"), ["c", "d"]) == withNull
  {
    WithNullPrefix();
    ExtendCollapsesLabels(start);
    assert start + [nullX] == [markoAB, stephenAC, nullX];
    WithNullSuffix();
  }

  lemma WithNullValuesAB()
    ensures ValuesOf(withNull, "a") == [S("marko"), S("stephen")]
    ensures ValuesOf(withNull, "b") == [S("marko")]
  {
    Values4(markoAB, stephenAC, nullX, matthiasCD, "a");
    assert Sel(nullX, "a") == [] && Sel(matthiasCD, "a") == [];
    Values4(markoAB, stephenAC, nullX, matthiasCD, "b");
    assert Sel(stephenAC, "b") == [] && Sel(nullX, "b") == [] && Sel(matthiasCD, "b") == [];
  }

  lemma WithNullValuesC()
    ensures ValuesOf(withNull, "c") == [S("stephen"), S("matthias")]
  {
    Values4(markoAB, stephenAC, nullX, matthiasCD, "c");
    assert Sel(markoAB, "c") == [] && Sel(nullX, "c") == [];
  }

  lemma WithNullValuesXD()
    ensures ValuesOf(withNull, "x") == [Null]
    ensures ValuesOf(withNull, "d") == [S("matthias")]
  {
    Values4(markoAB, stephenAC, nullX, matthiasCD, "x");
    assert Sel(markoAB, "x") == [] && Sel(stephenAC, "x") == [] && Sel(matthiasCD, "x") == [];
    Values4(markoAB, stephenAC, nullX, matthiasCD, "d");
    assert Sel(markoAB, "d") == [] && Sel(stephenAC, "d") == [] && Sel(nullX, "d") == [];
  }

  /** `First` and `Last` pick the ends of each label's selection; a null value is
      selected like any other. */
  lemma SelectSingle()
    ensures GetPop(First, withNull, "a") == Ok(Single(S("marko")))
    ensures GetPop(First, withNull, "b") == Ok(Single(S("marko")))
    ensures GetPop(First, withNull, "c") == Ok(Single(S("stephen")))
    ensures GetPop(First, withNull, "x") == Ok(Single(Null))
    ensures GetPop(First, withNull, "d") == Ok(Single(S("matthias")))
    ensures GetPop(Last, withNull, "a") == Ok(Single(S("stephen")))
    ensures GetPop(Last, withNull, "b") == Ok(Single(S("marko")))
    ensures GetPop(Last, withNull, "c") == Ok(Single(S("matthias")))
    ensures GetPop(Last, withNull, "x") == Ok(Single(Null))
    ensures GetPop(Last, withNull, "d") == Ok(Single(S("matthias")))
  {
    WithNullValuesAB();
    WithNullValuesC();
    WithNullValuesXD();
  }

  /** The history of shouldSelectListCorrectly: extend(marko,{a,b}),
      extend(stephen,{a,c}), extend(matthias,{c,d}). */
  const listPath: Path<Obj> := [markoAB, stephenAC, matthiasCD]

  lemma ListConstruction()
    ensures Extend(Extend(Extend(Empty(), S("marko"), ["a", "b"]), S("stephen"), ["a", "c"]),
                   S("matthias"), ["c", "d"]) == listPath
  {
    assert Extend(Empty(), S("marko"), ["a", "b"]) == [markoAB] by {
      DistinctPair("a", "b");
      ExtendEntry(Empty(), markoAB);
    }
    assert Extend([markoAB], S("stephen"), ["a", "c"]) == [markoAB, stephenAC] by {
      DistinctPair("a", "c");
      ExtendEntry([markoAB], stephenAC);
    }
    assert Extend([markoAB, stephenAC], S("matthias"), ["c", "d"]) == listPath by {
      DistinctPair("c", "d");
      ExtendEntry([markoAB, stephenAC], matthiasCD);
    }
  }

  lemma ListValues()
    ensures ValuesOf(listPath, "a") == [S("marko"), S("stephen")]
    ensures ValuesOf(listPath, "b") == [S("marko")]
    ensures ValuesOf(listPath, "c") == [S("stephen"), S("matthias")]
    ensures ValuesOf(listPath, "d") == [S("matthias")]
  {
    Values3(markoAB, stephenAC, matthiasCD, "a");
    assert Sel(matthiasCD, "a") == [];
    Values3(markoAB, stephenAC, matthiasCD, "b");
    assert Sel(stephenAC, "b") == [] && Sel(matthiasCD, "b") == [];
    Values3(markoAB, stephenAC, matthiasCD, "c");
    assert Sel(markoAB, "c") == [];
    Values3(markoAB, stephenAC, matthiasCD, "d");
    assert Sel(markoAB, "d") == [] && Sel(stephenAC, "d") == [];
  }

  lemma ListSelections()
    ensures GetPop(All, listPath, "a") == Ok(Many([S("marko"), S("stephen")]))
    ensures GetPop(All, listPath, "b") == Ok(Many([S("marko")]))
    ensures GetPop(All, listPath, "c") == Ok(Many([S("stephen"), S("matthias")]))
    ensures GetPop(All, listPath, "d") == Ok(Many([S("matthias")]))
    ensures GetPop(All, listPath, "noExist") == Ok(Many([]))
    ensures GetPop(First, listPath, "noExist") == Err(LabelNotFound("noExist"))
  {
    ListValues();
    assert !HasLabel(listPath, "noExist");
  }

  /** Every `get(all, _)` of shouldSelectListCorrectly on its own three-entry
      path; an absent label gives the empty list under `all` and an error under
      `first`. */
  lemma SelectList()
    ensures Extend(Extend(Extend(Empty(), S("marko"), ["a", "b"]), S("stephen"), ["a", "c"]),
                   S("matthias"), ["c", "d"]) == listPath
    ensures |listPath| == 3
    ensures GetPop(All, listPath, "a") == Ok(Many([S("marko"), S("stephen")]))
    ensures GetPop(All, listPath, "b") == Ok(Many([S("marko")]))
    ensures GetPop(All, listPath, "c") == Ok(Many([S("stephen"), S("matthias")]))
    ensures GetPop(All, listPath, "d") == Ok(Many([S("matthias")]))
    ensures GetPop(All, listPath, "noExist") == Ok(Many([]))
    ensures GetPop(First, listPath, "noExist") == Err(LabelNotFound("noExist"))
  {
    ListConstruction();
    ListSelections();
  }

  // ---------------------------------------------------------------------------
  // Equality
  // ---------------------------------------------------------------------------

  lemma Equality()
    ensures PathEquals<Obj>(Empty(), Empty())
    ensures PathEquals([markoA], [markoA])
    ensures !PathEquals([markoA], [Entry(S("marko"), ["b"])])
    ensures !PathEquals([Entry(S("marko"), ["b"]), Entry(S("stephen"), ["bb", "bbb"])],
                        [Entry(S("marko"), ["b"]), Entry(S("stephen"), ["bb"])])
    ensures !PathEquals([Entry(S("matthias"), ["aaaa", "aaaaa"])], [Entry(S("bob"), ["aaaa", "aaaaa"])])
  {
    var p1, q1 := [markoA], [Entry(S("marko"), ["b"])];
    assert !SameLabels(p1[0].labels, q1[0].labels) by { assert "a" in p1[0].labels && "a" !in q1[0].labels; }
    var p2 := [Entry(S("marko"), ["b"]), Entry(S("stephen"), ["bb", "bbb"])];
    var q2 := [Entry(S("marko"), ["b"]), Entry(S("stephen"), ["bb"])];
    assert !SameLabels(p2[1].labels, q2[1].labels) by { assert "bbb" in p2[1].labels && "bbb" !in q2[1].labels; }
    var p3, q3 := [Entry(S("matthias"), ["aaaa", "aaaaa"])], [Entry(S("bob"), ["aaaa", "aaaaa"])];
    assert p3[0].value != q3[0].value by { assert |"matthias"| != |"bob"|; }
  }

  /** Paths with the same values and the same label sets, filled in a different
      order, are equal and so hash alike. */
  lemma CrossTypeEquality(hash: Obj -> int)
    ensures var p := [Entry(S("marko"), ["a", "aa"]), Entry(S("daniel"), ["b"])];
            var q := [Entry(S("marko"), ["aa", "a"]), Entry(S("daniel"), ["b"])];
            PathEquals(p, q) && HashCode(p, hash) == HashCode(q, hash)
  {
    var p := [Entry(S("marko"), ["a", "aa"]), Entry(S("daniel"), ["b"])];
    var q := [Entry(S("marko"), ["aa", "a"]), Entry(S("daniel"), ["b"])];
    PathEqualsSameHash(p, q, hash);
  }

  // ---------------------------------------------------------------------------
  // Pop equality
  // ---------------------------------------------------------------------------

  const bobA := Entry(S("bob"), ["a"])

  /** Histories that differ but end on the same value per label are equal under
      `Last` ... */
  lemma PopEqualityConvergentLast()
    ensures PopEquals(Last, [markoA, matthiasA, bobA], [matthiasA, markoA, bobA])
  {
    var p := [markoA, matthiasA, bobA];
    var q := [matthiasA, markoA, bobA];
    forall l ensures GetPop(Last, p, l) == GetPop(Last, q, l) {
      Values3(markoA, matthiasA, bobA, l);
      Values3(matthiasA, markoA, bobA, l);
    }
    PopEqualsEverywhere(Last, p, q);
  }

  /** ... but not under `First` or `All`. */
  lemma PopEqualityDivergentFirst()
    ensures !PopEquals(First, [markoA, matthiasA, bobA], [matthiasA, markoA, bobA])
    ensures !PopEquals(All, [markoA, matthiasA, bobA], [matthiasA, markoA, bobA])
  {
    var p := [markoA, matthiasA, bobA];
    var q := [matthiasA, markoA, bobA];
    Values3(markoA, matthiasA, bobA, "a");
    Values3(matthiasA, markoA, bobA, "a");
    assert "a" in p[0].labels;
    assert "a" in LabelsOf(p) + LabelsOf(q);
    assert ValuesOf(p, "a") == [S("marko"), S("matthias"), S("bob")];
    assert ValuesOf(q, "a") == [S("matthias"), S("marko"), S("bob")];
    assert S("marko") != S("matthias") by { assert |"marko"| != |"matthias"|; }
    assert GetPop(First, p, "a") != GetPop(First, q, "a");
  }

  const stephenC := Entry(S("stephen"), ["c"])
  const stephenD := Entry(S("stephen"), ["d"])

  /** A label present on one side only breaks pop equality under every pop. */
  lemma PopEqualityMissingLabel()
    ensures !PopEquals(All, [markoA, matthiasA, bobA, stephenC], [markoA, matthiasA, bobA, stephenD])
    ensures !PopEquals(First, [markoA, matthiasA, bobA, stephenC], [markoA, matthiasA, bobA, stephenD])
    ensures !PopEquals(Last, [markoA, matthiasA, bobA, stephenC], [markoA, matthiasA, bobA, stephenD])
  {
    var p := [markoA, matthiasA, bobA, stephenC];
    var q := [markoA, matthiasA, bobA, stephenD];
    MissingLabelValues();
    assert "c" in p[3].labels;
    assert "c" in LabelsOf(p) + LabelsOf(q);
  }

  lemma MissingLabelValues()
    ensures ValuesOf([markoA, matthiasA, bobA, stephenC], "c") == [S("stephen")]
    ensures ValuesOf([markoA, matthiasA, bobA, stephenD], "c") == []
  {
    Values4(markoA, matthiasA, bobA, stephenC, "c");
    Values4(markoA, matthiasA, bobA, stephenD, "c");
    assert Sel(stephenD, "c") == [];
  }

  // ---------------------------------------------------------------------------
  // Sub-paths
  // ---------------------------------------------------------------------------

  const markoSub := Entry(S("marko"), ["a"])
  const stephenSub := Entry(S("stephen"), ["b"])
  const matthiasSub := Entry(S("matthias"), ["c", "x"])
  const bobSub := Entry(S("bob"), ["d"])
  const abcxd: Path<Obj> := [markoSub, stephenSub, matthiasSub, bobSub]

  lemma SubPathsFound()
    ensures SubPath(abcxd, Some("b"), Some("c")) == Ok([stephenSub, matthiasSub])
    ensures SubPath(abcxd, Some("b"), Some("b")) == Ok([stephenSub])
  {
    LastIndexOfIs(abcxd, "b", 1);
    LastIndexOfIs(abcxd, "c", 2);
    assert abcxd[1..3] == [stephenSub, matthiasSub];
    assert abcxd[1..2] == [stephenSub];
  }

  lemma SubPathsToEnd()
    ensures SubPath(abcxd, Some("c"), Some("d")) == Ok([matthiasSub, bobSub])
    ensures SubPath(abcxd, Some("c"), None) == Ok([matthiasSub, bobSub])
  {
    LastIndexOfIs(abcxd, "c", 2);
    LastIndexOfIs(abcxd, "d", 3);
    assert abcxd[2..4] == [matthiasSub, bobSub];
  }

  lemma SubPathsWhole()
    ensures SubPath(abcxd, Some("a"), Some("d")) == Ok(abcxd)
    ensures SubPath(abcxd, None, Some("d")) == Ok(abcxd)
  {
    LastIndexOfIs(abcxd, "a", 0);
    LastIndexOfIs(abcxd, "d", 3);
    assert abcxd[0..4] == abcxd;
  }

  lemma SubPathsFailing()
    ensures SubPath(abcxd, Some("d"), Some("a")) == Err(SubPathOutOfOrder(Some("d"), Some("a")))
    ensures SubPath(abcxd, Some("a"), Some("e")) == Err(SubPathToLabelNotFound("e"))
    ensures SubPath(abcxd, Some("e"), Some("b")) == Err(SubPathFromLabelNotFound("e"))
  {
    LastIndexOfIs(abcxd, "a", 0);
    LastIndexOfIs(abcxd, "d", 3);
    assert "a" in abcxd[0].labels;
    assert !HasLabel(abcxd, "e");
  }

  const stephenSubA := Entry(S("stephen"), ["a"])
  const bobSubC := Entry(S("bob"), ["c"])

  /** A repeated label resolves to its last occurrence. */
  lemma SubPathLastOccurrence()
    ensures SubPath([markoSub, stephenSubA, matthiasSub, bobSubC], Some("a"), Some("c"))
         == Ok([stephenSubA, matthiasSub, bobSubC])
  {
    var p := [markoSub, stephenSubA, matthiasSub, bobSubC];
    LastIndexOfIs(p, "a", 1);
    LastIndexOfIs(p, "c", 3);
    assert p[1..4] == [stephenSubA, matthiasSub, bobSubC];
  }

  // ---------------------------------------------------------------------------
  // Null semantics
  // ---------------------------------------------------------------------------

  /** Null is a value like any other: two null entries make a path non-simple. */
  lemma NullSemantics()
    ensures Simple([Entry(Null, [])])
    ensures Simple([Entry(Null, []), Entry(I(1), [])])
    ensures !Simple([Entry(Null, []), Entry(I(1), []), Entry(Null, [])])
  {
    var p := [Entry(Null, []), Entry(I(1), []), Entry(Null, [])];
    assert Objects(p)[0] == Objects(p)[2];
  }
}
