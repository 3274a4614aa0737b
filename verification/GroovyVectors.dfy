/** The translations GroovyTranslatorTests expects, computed with the printer
    model for a translator rooted at `g`.

    Each step's text is established by a lemma of its own, and a whole
    traversal is assembled from those pieces: asking the verifier for a long
    traversal in one go makes it evaluate every nested call at once. */
module GroovyVectors {
  import opened Numerals
  import opened Groovy
  import opened Wrappers

  // ---------------------------------------------------------------------------
  // Unfolding helpers for short displays
  // ---------------------------------------------------------------------------

  lemma Args1(a: Arg)
    ensures TranslateArguments("g", [a]) == TranslateArgument("g", a)
  {
  }

  lemma Args2(a: Arg, b: Arg)
    ensures TranslateArguments("g", [a, b]) == TranslateArgument("g", a) + ", " + TranslateArgument("g", b)
  {
    var parts := ArgStrings("g", [a, b]);
    assert parts[1..] == [parts[1]];
  }

  lemma Args3(a: Arg, b: Arg, c: Arg)
    ensures TranslateArguments("g", [a, b, c])
         == TranslateArgument("g", a) + ", " + (TranslateArgument("g", b) + ", " + TranslateArgument("g", c))
  {
    var parts := ArgStrings("g", [a, b, c]);
    assert [a, b, c][1..] == [b, c];
    assert parts[1..] == ArgStrings("g", [b, c]);
    Args2(b, c);
  }

  lemma Args4(a: Arg, b: Arg, c: Arg, d: Arg)
    ensures TranslateArguments("g", [a, b, c, d])
         == TranslateArgument("g", a) + ", " + TranslateArguments("g", [b, c, d])
  {
    var parts := ArgStrings("g", [a, b, c, d]);
    assert [a, b, c, d][1..] == [b, c, d];
    assert parts[1..] == ArgStrings("g", [b, c, d]);
  }

  lemma Steps1(a: Instruction)
    ensures TranslateSteps("g", [a]) == TranslateStep("g", a)
  {
    assert [a][1..] == [];
  }

  lemma Steps2(a: Instruction, b: Instruction)
    ensures TranslateSteps("g", [a, b]) == TranslateStep("g", a) + TranslateStep("g", b)
  {
    assert [a, b][1..] == [b];
    Steps1(b);
  }

  lemma Steps3(a: Instruction, b: Instruction, c: Instruction)
    ensures TranslateSteps("g", [a, b, c]) == TranslateStep("g", a) + TranslateStep("g", b) + TranslateStep("g", c)
  {
    assert [a, b, c][1..] == [b, c];
    Steps2(b, c);
  }

  lemma Steps4(a: Instruction, b: Instruction, c: Instruction, d: Instruction)
    ensures TranslateSteps("g", [a, b, c, d])
         == TranslateStep("g", a) + TranslateStep("g", b) + TranslateStep("g", c) + TranslateStep("g", d)
  {
    assert [a, b, c, d][1..] == [b, c, d];
    Steps3(b, c, d);
  }

  lemma Steps5(a: Instruction, b: Instruction, c: Instruction, d: Instruction, e: Instruction)
    ensures TranslateSteps("g", [a, b, c, d, e])
         == TranslateStep("g", a) + TranslateStep("g", b) + TranslateStep("g", c)
            + TranslateStep("g", d) + TranslateStep("g", e)
  {
    assert [a, b, c, d, e][1..] == [b, c, d, e];
    var sa, sb, sc, sd, se := TranslateStep("g", a), TranslateStep("g", b), TranslateStep("g", c),
                              TranslateStep("g", d), TranslateStep("g", e);
    assert TranslateSteps("g", [a, b, c, d, e]) == sa + TranslateSteps("g", [b, c, d, e]);
    Steps4(b, c, d, e);
    ConcatAssoc(sa, sb + sc + sd, se);
    ConcatAssoc(sa, sb + sc, sd);
    ConcatAssoc(sa, sb, sc);
  }

  /** A root traversal made of step instructions only. */
  function Root(steps: seq<Instruction>): Bytecode {
    Bytecode([], steps)
  }

  lemma RootShape(steps: seq<Instruction>)
    ensures Translate("g", Root(steps), false) == "g" + TranslateSteps("g", steps)
  {
    assert TranslateSteps("g", []) == "";
  }

  lemma Root4(a: Instruction, b: Instruction, c: Instruction, d: Instruction)
    ensures Translate("g", Root([a, b, c, d]), false)
         == "g" + TranslateStep("g", a) + TranslateStep("g", b) + TranslateStep("g", c) + TranslateStep("g", d)
  {
    RootShape([a, b, c, d]);
    Steps4(a, b, c, d);
    var sa, sb, sc, sd := TranslateStep("g", a), TranslateStep("g", b), TranslateStep("g", c), TranslateStep("g", d);
    ConcatAssoc("g", sa + sb + sc, sd);
    ConcatAssoc("g", sa + sb, sc);
    ConcatAssoc("g", sa, sb);
  }

  lemma Root5(a: Instruction, b: Instruction, c: Instruction, d: Instruction, e: Instruction)
    ensures Translate("g", Root([a, b, c, d, e]), false)
         == "g" + TranslateStep("g", a) + TranslateStep("g", b) + TranslateStep("g", c)
            + TranslateStep("g", d) + TranslateStep("g", e)
  {
    RootShape([a, b, c, d, e]);
    Steps5(a, b, c, d, e);
    var sa, sb, sc, sd, se := TranslateStep("g", a), TranslateStep("g", b), TranslateStep("g", c),
                              TranslateStep("g", d), TranslateStep("g", e);
    ConcatAssoc("g", sa + sb + sc + sd, se);
    ConcatAssoc("g", sa + sb + sc, sd);
    ConcatAssoc("g", sa + sb, sc);
    ConcatAssoc("g", sa, sb);
  }

  /** `g.inject(objs)`: how the tests check the printing of single arguments. */
  function Inject(args: seq<Arg>): Bytecode {
    Root([Instruction("inject", args)])
  }

  /** The tests' `AssertTranslation(expected, objs)` compares with `g.inject(expected)`. */
  lemma InjectShape(args: seq<Arg>)
    ensures Translate("g", Inject(args), false) == "g.inject(" + TranslateArguments("g", args) + ")"
  {
    Steps1(Instruction("inject", args));
  }

  lemma InjectOne(a: Arg)
    ensures Translate("g", Inject([a]), false) == "g.inject(" + TranslateArgument("g", a) + ")"
  {
    InjectShape([a]);
    Args1(a);
  }

  lemma InjectText(a: Arg, text: string)
    requires TranslateArgument("g", a) == text
    ensures Translate("g", Inject([a]), false) == "g.inject(" + text + ")"
  {
    InjectOne(a);
  }

  // ---------------------------------------------------------------------------
  // Steps and their arguments
  // ---------------------------------------------------------------------------

  const V0 := Instruction("V", [])
  const V3 := Instruction("V", [Str("3")])

  lemma V0Text()
    ensures TranslateStep("g", V0) == ".V()"
  {
  }

  lemma V3Text()
    ensures TranslateStep("g", V3) == ".V('3')"
  {
  }

  lemma ValuesNameText()
    ensures TranslateStep("g", Instruction("values", [Str("name")])) == ".values('name')"
  {
  }

  lemma ValuesNameAgeText()
    ensures TranslateStep("g", Instruction("values", [Str("name"), Str("age")])) == ".values('name', 'age')"
  {
    Args2(Str("name"), Str("age"));
  }

  lemma SingleArgument()
    ensures Translate("g", Root([V0, Instruction("values", [Str("name")])]), false) == "g.V().values('name')"
  {
    Steps2(V0, Instruction("values", [Str("name")]));
    V0Text();
    ValuesNameText();
  }

  lemma MultipleArguments()
    ensures Translate("g", Root([V0, Instruction("values", [Str("name"), Str("age")])]), false)
         == "g.V().values('name', 'age')"
  {
    Steps2(V0, Instruction("values", [Str("name"), Str("age")]));
    V0Text();
    ValuesNameAgeText();
  }

  lemma NullArgument()
    ensures TranslateArgument("g", Null) == "null"
    ensures Translate("g", Inject([Null]), false) == "g.inject(" + "null" + ")"
  {
    InjectOne(Null);
  }

  lemma SimpleTypes()
    ensures TranslateArguments("g", [Int(3), Int(5)]) == "3, 5"
    ensures Translate("g", Inject([Int(3), Int(5)]), false) == "g.inject(" + "3, 5" + ")"
    ensures Translate("g", Inject([Chr('c')]), false) == "g.inject(" + "'c'" + ")"
  {
    InjectShape([Int(3), Int(5)]);
    Args2(Int(3), Int(5));
    assert IntToString(3) == "3" && IntToString(5) == "5";
    InjectOne(Chr('c'));
  }

  /** 2022-12-30T12:00:01Z. */
  const Dec30 := DateTime(2022, 12, 30, 12, 0, 1)

  lemma DateFieldsVector()
    ensures DateFields(Dec30) == ["122", "11", "30", "12", "0", "1"]
  {
    assert NatToString(12) == "12" by {
      assert NatToString(1) == "1";
    }
    assert NatToString(122) == "122" by {
      assert NatToString(12) == "12";
    }
    assert NatToString(11) == "11" by {
      assert NatToString(1) == "1";
    }
    assert NatToString(30) == "30" by {
      assert NatToString(3) == "3";
    }
  }

  lemma DateJoinVector()
    ensures Join(", ", ["122", "11", "30", "12", "0", "1"]) == "122, 11, 30, 12, 0, 1"
  {
    var fields := ["122", "11", "30", "12", "0", "1"];
    assert Join(", ", fields[5..]) == "1";
    assert Join(", ", fields[4..]) == "0, 1" by { assert fields[4..][1..] == fields[5..]; }
    assert Join(", ", fields[3..]) == "12, 0, 1" by { assert fields[3..][1..] == fields[4..]; }
    assert Join(", ", fields[2..]) == "30, 12, 0, 1" by { assert fields[2..][1..] == fields[3..]; }
    assert Join(", ", fields[1..]) == "11, 30, 12, 0, 1" by { assert fields[1..][1..] == fields[2..]; }
    assert fields[0..] == fields;
  }

  lemma DateArgumentParts()
    ensures TranslateArgument("g", Date(Dec30)) == "new Date(" + "122, 11, 30, 12, 0, 1" + ")"
  {
    DateFieldsVector();
    DateJoinVector();
  }

  lemma DateText()
    ensures "new Date(" + "122, 11, 30, 12, 0, 1" + ")" == "new Date(122, 11, 30, 12, 0, 1)"
  {
  }

  lemma DateArgument()
    ensures TranslateArgument("g", Date(Dec30)) == "new Date(122, 11, 30, 12, 0, 1)"
  {
    DateArgumentParts();
    DateText();
  }

  lemma DateInjected()
    ensures Translate("g", Inject([Date(Dec30)]), false) == "g.inject(" + "new Date(122, 11, 30, 12, 0, 1)" + ")"
  {
    DateArgument();
    InjectOne(Date(Dec30));
  }

  const GuidText := "ffffffff-fd49-1e4b-0000-00000d4b8a1d"

  lemma GuidTextLower()
    ensures |GuidText| == 36
    ensures forall i | 0 <= i < |GuidText| && !IsDashPosition(i) :: IsLowerHex(GuidText[i])
  {
  }

  lemma GuidTextShaped()
    ensures GuidShaped(GuidText)
    ensures forall i | 0 <= i < |GuidText| && !IsDashPosition(i) :: IsLowerHex(GuidText[i])
  {
    GuidTextLower();
    forall k | 0 <= k < 32 ensures HexValue(GuidText[DigitPosition(k)]).Some? {
      assert IsLowerHex(GuidText[DigitPosition(k)]);
    }
  }

  lemma GuidParses()
    ensures ParseGuid(GuidText).Some?
    ensures GuidString(ParseGuid(GuidText).value) == GuidText
  {
    GuidTextShaped();
    GuidStringParse(GuidText, ParseGuid(GuidText).value);
  }

  /** The test's text names exactly one GUID: the one `Guid.Parse` returns. */
  lemma GuidTextNames(g: Guid)
    ensures GuidString(g) == GuidText <==> ParseGuid(GuidText) == Some(g)
  {
    GuidParses();
    ParseGuidString(g);
  }

  lemma GuidCall(g: Guid)
    requires GuidString(g) == GuidText
    ensures TranslateArgument("g", Uuid(g)) == "UUID.fromString('" + GuidText + "')"
  {
  }

  /** That GUID is printed back inside `UUID.fromString`. */
  lemma GuidInjected(g: Guid)
    requires GuidString(g) == GuidText
    ensures Translate("g", Inject([Uuid(g)]), false) == "g.inject(" + "UUID.fromString('" + GuidText + "')" + ")"
  {
    GuidCall(g);
    InjectText(Uuid(g), "UUID.fromString('" + GuidText + "')");
  }

  lemma Collection()
    ensures TranslateArgument("g", Coll([Str("test1"), Str("test2")])) == "['test1', 'test2']"
  {
    Args2(Str("test1"), Str("test2"));
  }

  lemma CollectionInjected()
    ensures Translate("g", Inject([Coll([Str("test1"), Str("test2")])]), false)
         == "g.inject(" + "['test1', 'test2']" + ")"
  {
    Collection();
    InjectOne(Coll([Str("test1"), Str("test2")]));
  }

  const DictEntries := [KeyValue(Str("key1"), Str("value1")), KeyValue(Int(1), Str("value2"))]

  lemma DictionaryEntries()
    ensures KeyValueStrings("g", DictEntries) == ["'key1': 'value1'", "1: 'value2'"]
  {
    var parts := KeyValueStrings("g", DictEntries);
    assert parts[0] == "'key1': 'value1'";
    assert IntToString(1) == "1";
    assert parts[1..] == KeyValueStrings("g", DictEntries[1..]);
    assert parts[1] == "1: 'value2'";
  }

  lemma DictionaryText()
    ensures "[" + ("'key1': 'value1'" + ", " + "1: 'value2'") + "]" == "['key1': 'value1', 1: 'value2']"
  {
  }

  lemma Dictionary()
    ensures TranslateArgument("g", Dict(DictEntries)) == "['key1': 'value1', 1: 'value2']"
  {
    DictionaryEntries();
    DictionaryJoin();
    DictionaryText();
  }

  lemma DictionaryJoin()
    ensures Join(", ", ["'key1': 'value1'", "1: 'value2'"]) == "'key1': 'value1'" + ", " + "1: 'value2'"
  {
    var parts := ["'key1': 'value1'", "1: 'value2'"];
    assert parts[1..] == ["1: 'value2'"];
  }

  lemma DictionaryInjected()
    ensures Translate("g", Inject([Dict(DictEntries)]), false) == "g.inject(" + "['key1': 'value1', 1: 'value2']" + ")"
  {
    Dictionary();
    InjectOne(Dict(DictEntries));
  }

  lemma Twenty()
    ensures TranslateArgument("g", Int(20)) == "20"
  {
    assert NatToString(20) == "20" by { assert NatToString(2) == "2"; }
  }

  lemma Thirty()
    ensures TranslateArgument("g", Int(30)) == "30"
  {
    assert NatToString(30) == "30" by { assert NatToString(3) == "3"; }
  }

  lemma ComparisonPredicates()
    ensures TranslateArgument("g", Pred("gt", Int(20), Null)) == "P.gt(20)"
    ensures TranslateArgument("g", Pred("lt", Int(30), Null)) == "P.lt(30)"
  {
    Twenty();
    Thirty();
    assert TranslateArgument("g", Pred("gt", Int(20), Null)) == "P." + "gt" + "(" + "20" + ")";
    assert TranslateArgument("g", Pred("lt", Int(30), Null)) == "P." + "lt" + "(" + "30" + ")";
  }

  const GtAndLt := Pred("and", Pred("gt", Int(20), Null), Pred("lt", Int(30), Null))
  const Between := Pred("between", Coll([Int(20), Int(30)]), Null)

  lemma AndPredicateParts()
    ensures TranslateArgument("g", GtAndLt) == "P." + "and" + "(" + "P.gt(20)" + ", " + "P.lt(30)" + ")"
  {
    ComparisonPredicates();
  }

  lemma AndText()
    ensures "P." + "and" + "(" + "P.gt(20)" + ", " + "P.lt(30)" + ")" == "P.and(P.gt(20), P.lt(30))"
  {
  }

  lemma AndPredicate()
    ensures TranslateArgument("g", GtAndLt) == "P.and(P.gt(20), P.lt(30))"
  {
    AndPredicateParts();
    AndText();
  }

  lemma AndPredicateInjected()
    ensures Translate("g", Inject([GtAndLt]), false) == "g.inject(" + "P.and(P.gt(20), P.lt(30))" + ")"
  {
    AndPredicate();
    InjectOne(GtAndLt);
  }

  lemma TwentyThirty()
    ensures TranslateArguments("g", [Int(20), Int(30)]) == "20, 30"
  {
    Twenty();
    Thirty();
    Args2(Int(20), Int(30));
  }

  lemma BetweenPredicate()
    ensures TranslateArgument("g", Between) == "P.between([20, 30])"
  {
    BetweenList();
    assert TranslateArgument("g", Between) == "P." + "between" + "(" + "[20, 30]" + ")";
    BetweenText();
  }

  lemma BetweenList()
    ensures TranslateArgument("g", Coll([Int(20), Int(30)])) == "[20, 30]"
  {
    TwentyThirty();
    assert TranslateArgument("g", Coll([Int(20), Int(30)])) == "[" + "20, 30" + "]";
  }

  lemma BetweenText()
    ensures "P." + "between" + "(" + "[20, 30]" + ")" == "P.between([20, 30])"
  {
  }

  lemma BetweenPredicateInjected()
    ensures Translate("g", Inject([Between]), false) == "g.inject(" + "P.between([20, 30])" + ")"
  {
    BetweenPredicate();
    InjectOne(Between);
  }

  /** A string is printed as a string, not as the collection of its characters. */
  lemma StringBeforeCollection()
    ensures TranslateArgument("g", Str("ab")) == "'ab'"
    ensures TranslateArgument("g", Coll([Chr('a'), Chr('b')])) == "['a', 'b']"
  {
    Args2(Chr('a'), Chr('b'));
  }

  lemma ThreeFourFive()
    ensures TranslateArguments("g", [Int(3), Int(4), Int(5)]) == "3, 4, 5"
  {
    assert IntToString(3) == "3" && IntToString(4) == "4" && IntToString(5) == "5";
    Args3(Int(3), Int(4), Int(5));
  }

  lemma InjectValues()
    ensures Translate("g", Inject([Int(3), Int(4), Int(5)]), false) == "g.inject(" + "3, 4, 5" + ")"
  {
    ThreeFourFive();
    InjectShape([Int(3), Int(4), Int(5)]);
  }

  lemma InjectList()
    ensures Translate("g", Inject([Coll([Int(3), Int(4), Int(5)])]), false) == "g.inject(" + "[3, 4, 5]" + ")"
  {
    ThreeFourFive();
    InjectOne(Coll([Int(3), Int(4), Int(5)]));
  }

  // ---------------------------------------------------------------------------
  // Whole traversals
  // ---------------------------------------------------------------------------

  lemma VWithIdsArguments()
    ensures TranslateArguments("g", [Str("1"), Str("2"), Str("3"), Str("4")])
         == "'1'" + ", " + ("'2'" + ", " + "'3'" + ", " + "'4'")
  {
    Args4(Str("1"), Str("2"), Str("3"), Str("4"));
    Args3(Str("2"), Str("3"), Str("4"));
  }

  lemma VWithIdsJoin()
    ensures "'1'" + ", " + ("'2'" + ", " + "'3'" + ", " + "'4'") == "'1', '2', '3', '4'"
    ensures "." + "V" + "(" + "'1', '2', '3', '4'" + ")" == ".V('1', '2', '3', '4')"
  {
  }

  lemma VWithIdsText()
    ensures TranslateStep("g", Instruction("V", [Str("1"), Str("2"), Str("3"), Str("4")])) == ".V('1', '2', '3', '4')"
  {
    VWithIdsArguments();
    VWithIdsJoin();
  }

  lemma VWithIdsParts()
    ensures Translate("g", Root([Instruction("V", [Str("1"), Str("2"), Str("3"), Str("4")])]), false)
         == "g" + ".V('1', '2', '3', '4')"
  {
    Steps1(Instruction("V", [Str("1"), Str("2"), Str("3"), Str("4")]));
    VWithIdsText();
  }

  lemma VWithIdsWhole()
    ensures "g" + ".V('1', '2', '3', '4')" == "g.V('1', '2', '3', '4')"
  {
  }

  lemma VWithIds()
    ensures Translate("g", Root([Instruction("V", [Str("1"), Str("2"), Str("3"), Str("4")])]), false)
         == "g.V('1', '2', '3', '4')"
  {
    VWithIdsParts();
    VWithIdsWhole();
  }

  lemma ValueMapText()
    ensures TranslateStep("g", Instruction("valueMap", [Bool(true)])) == ".valueMap(True)"
  {
  }

  lemma ValueMapTrue()
    ensures Translate("g", Root([V3, Instruction("valueMap", [Bool(true)])]), false) == "g.V('3').valueMap(True)"
  {
    Steps2(V3, Instruction("valueMap", [Bool(true)]));
    V3Text();
    ValueMapText();
  }

  /** `__.out('route').simplePath()`, as the nested argument of `repeat`. */
  const OutRouteSimple := Bytecode([], [Instruction("out", [Str("route")]), Instruction("simplePath", [])])

  const RepeatSteps := [V3, Instruction("repeat", [Trav(OutRouteSimple)]), Instruction("times", [Int(2)]),
                        Instruction("path", []), Instruction("by", [Str("code")])]

  lemma OutRouteText()
    ensures TranslateStep("g", Instruction("out", [Str("route")])) == ".out('route')"
  {
  }

  lemma SimplePathText()
    ensures TranslateStep("g", Instruction("simplePath", [])) == ".simplePath()"
  {
  }

  /** A nested traversal prints with the anonymous prefix `__`. */
  lemma RepeatChild()
    ensures TranslateArguments("g", [Trav(OutRouteSimple)]) == "__" + ".out('route')" + ".simplePath()"
  {
    Steps2(Instruction("out", [Str("route")]), Instruction("simplePath", []));
    OutRouteText();
    SimplePathText();
    Args1(Trav(OutRouteSimple));
  }

  lemma RepeatOpen()
    ensures "." + "repeat" + "(" == ".repeat("
  {
  }

  lemma RepeatPiecesText()
    ensures TranslateStep("g", RepeatSteps[1]) == ".repeat(" + "__" + ".out('route')" + ".simplePath()" + ")"
  {
    RepeatChild();
    RepeatOpen();
  }

  lemma RepeatTextJoin()
    ensures ".repeat(" + "__" + ".out('route')" + ".simplePath()" + ")"
         == ".repeat(__.out('route')" + ".simplePath())"
  {
  }

  lemma RepeatText()
    ensures TranslateStep("g", RepeatSteps[1]) == ".repeat(__.out('route')" + ".simplePath())"
  {
    RepeatPiecesText();
    RepeatTextJoin();
  }

  lemma TimesText()
    ensures TranslateStep("g", RepeatSteps[2]) == ".times(2)"
  {
    assert IntToString(2) == "2";
  }

  lemma PathText()
    ensures TranslateStep("g", RepeatSteps[3]) == ".path()"
  {
  }

  lemma ByCodeText()
    ensures TranslateStep("g", RepeatSteps[4]) == ".by('code')"
  {
  }

  lemma RepeatStepTexts()
    ensures Translate("g", Root(RepeatSteps), false)
         == "g" + TranslateStep("g", RepeatSteps[0]) + TranslateStep("g", RepeatSteps[1])
            + TranslateStep("g", RepeatSteps[2]) + TranslateStep("g", RepeatSteps[3]) + TranslateStep("g", RepeatSteps[4])
  {
    Root5(RepeatSteps[0], RepeatSteps[1], RepeatSteps[2], RepeatSteps[3], RepeatSteps[4]);
  }

  lemma RepeatPieces()
    ensures Translate("g", Root(RepeatSteps), false)
         == "g" + ".V('3')" + ".repeat(__.out('route')" + ".simplePath())" + ".times(2)" + ".path()" + ".by('code')"
  {
    RepeatStepTexts();
    V3Text();
    RepeatText();
    TimesText();
    PathText();
    ByCodeText();
  }

  lemma RepeatJoin1()
    ensures "g" + ".V('3')" + ".repeat(__.out('route')" == "g.V('3').repeat(__.out('route')"
  {
  }

  lemma RepeatJoin2()
    ensures "g.V('3').repeat(__.out('route')" + ".simplePath())" + ".times(2)"
         == "g.V('3').repeat(__.out('route').simplePath()).times(2)"
  {
  }

  lemma RepeatJoin3()
    ensures "g.V('3').repeat(__.out('route').simplePath()).times(2)" + ".path()" + ".by('code')"
         == "g.V('3').repeat(__.out('route').simplePath()).times(2).path().by('code')"
  {
  }

  lemma RepeatTraversal()
    ensures Translate("g", Root(RepeatSteps), false)
         == "g.V('3').repeat(__.out('route').simplePath()).times(2).path().by('code')"
  {
    RepeatPieces();
    RepeatJoin1();
    RepeatJoin2();
    RepeatJoin3();
  }

  const Within := Pred("within", Coll([Str("a"), Str("b"), Str("c")]), Null)

  lemma WithinArgument()
    ensures TranslateArgument("g", Within) == "P." + "within" + "(" + "[" + "'a'" + ", " + "'b'" + ", " + "'c'" + "]" + ")"
  {
    Args3(Str("a"), Str("b"), Str("c"));
  }

  lemma WithinText()
    ensures TranslateStep("g", Instruction("hasLabel", [Within])) == ".hasLabel(" + "P.within(['a', 'b', 'c'])" + ")"
  {
    calc {
      TranslateStep("g", Instruction("hasLabel", [Within]));
    == { Args1(Within); }
      "." + "hasLabel" + "(" + TranslateArgument("g", Within) + ")";
    == { WithinArgument(); }
      "." + "hasLabel" + "(" + ("P." + "within" + "(" + "[" + "'a'" + ", " + "'b'" + ", " + "'c'" + "]" + ")") + ")";
    ==
      "." + "hasLabel" + "(" + "P.within(['a', 'b', 'c'])" + ")";
    ==
      ".hasLabel(" + "P.within(['a', 'b', 'c'])" + ")";
    }
  }

  lemma HasLabelWithinSteps()
    ensures Translate("g", Root([V0, Instruction("hasLabel", [Within])]), false)
         == "g" + TranslateStep("g", V0) + TranslateStep("g", Instruction("hasLabel", [Within]))
  {
    Steps2(V0, Instruction("hasLabel", [Within]));
  }

  lemma HasLabelWithinParts()
    ensures Translate("g", Root([V0, Instruction("hasLabel", [Within])]), false)
         == "g" + ".V()" + ".hasLabel(" + "P.within(['a', 'b', 'c'])" + ")"
  {
    HasLabelWithinSteps();
    V0Text();
    WithinText();
  }

  lemma WithinJoin1()
    ensures "g" + ".V()" + ".hasLabel(" == "g.V().hasLabel("
  {
  }

  lemma WithinJoin2()
    ensures "g.V().hasLabel(" + "P.within(['a', 'b', 'c'])" + ")" == "g.V().hasLabel(P.within(['a', 'b', 'c']))"
  {
  }

  lemma HasLabelWithin()
    ensures Translate("g", Root([V0, Instruction("hasLabel", [Within])]), false)
         == "g.V().hasLabel(P.within(['a', 'b', 'c']))"
  {
    HasLabelWithinParts();
    WithinJoin1();
    WithinJoin2();
  }

  const CityChild := Trav(Root([Instruction("values", [Str("city")])]))
  const RegionChild := Trav(Root([Instruction("values", [Str("region")])]))
  const UnionSteps := [V0, Instruction("hasLabel", [Str("airport")]), Instruction("union", [CityChild, RegionChild]),
                       Instruction("limit", [Int(5)])]

  lemma CityText()
    ensures TranslateArgument("g", CityChild) == "__.values('city')"
  {
    Steps1(Instruction("values", [Str("city")]));
  }

  lemma RegionText()
    ensures TranslateArgument("g", RegionChild) == "__.values('region')"
  {
    Steps1(Instruction("values", [Str("region")]));
  }

  lemma UnionArguments()
    ensures TranslateArguments("g", [CityChild, RegionChild]) == "__.values('city')" + ", " + "__.values('region')"
  {
    CityText();
    RegionText();
    Args2(CityChild, RegionChild);
  }

  lemma UnionOpen()
    ensures "." + "union" + "(" == ".union("
  {
  }

  lemma UnionPiecesText()
    ensures TranslateStep("g", UnionSteps[2]) == ".union(" + "__.values('city')" + ", " + "__.values('region')" + ")"
  {
    UnionArguments();
    UnionOpen();
  }

  lemma UnionTextJoin()
    ensures ".union(" + "__.values('city')" + ", " + "__.values('region')" + ")"
         == ".union(__.values('city')" + ", __.values('region'))"
  {
  }

  lemma UnionText()
    ensures TranslateStep("g", UnionSteps[2]) == ".union(__.values('city')" + ", __.values('region'))"
  {
    UnionPiecesText();
    UnionTextJoin();
  }

  lemma HasLabelAirportText()
    ensures TranslateStep("g", UnionSteps[1]) == ".hasLabel('airport')"
  {
  }

  lemma LimitText()
    ensures TranslateStep("g", UnionSteps[3]) == ".limit(5)"
  {
    assert IntToString(5) == "5";
  }

  lemma UnionStepTexts()
    ensures Translate("g", Root(UnionSteps), false)
         == "g" + TranslateStep("g", UnionSteps[0]) + TranslateStep("g", UnionSteps[1])
            + TranslateStep("g", UnionSteps[2]) + TranslateStep("g", UnionSteps[3])
  {
    Root4(UnionSteps[0], UnionSteps[1], UnionSteps[2], UnionSteps[3]);
  }

  lemma UnionPieces()
    ensures Translate("g", Root(UnionSteps), false)
         == "g" + ".V()" + ".hasLabel('airport')" + ".union(__.values('city')" + ", __.values('region'))" + ".limit(5)"
  {
    UnionStepTexts();
    V0Text();
    HasLabelAirportText();
    UnionText();
    LimitText();
  }

  lemma UnionJoin1()
    ensures "g" + ".V()" + ".hasLabel('airport')" == "g.V().hasLabel('airport')"
  {
  }

  lemma UnionJoin2()
    ensures "g.V().hasLabel('airport')" + ".union(__.values('city')" == "g.V().hasLabel('airport').union(__.values('city')"
  {
  }

  lemma UnionJoin3()
    ensures "g.V().hasLabel('airport').union(__.values('city')" + ", __.values('region'))" + ".limit(5)"
         == "g.V().hasLabel('airport').union(__.values('city'), __.values('region')).limit(5)"
  {
  }

  lemma UnionOfChildren()
    ensures Translate("g", Root(UnionSteps), false)
         == "g.V().hasLabel('airport').union(__.values('city'), __.values('region')).limit(5)"
  {
    UnionPieces();
    UnionJoin1();
    UnionJoin2();
    UnionJoin3();
  }
}
