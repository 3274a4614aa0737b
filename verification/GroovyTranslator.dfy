/** The bytecode-to-Groovy printer of the .NET driver (`GroovyTranslator`):
    a traversal's instructions become `source.op(args)...`, and each argument is
    printed by a fixed sequence of type tests. */
module Groovy {
  import opened Wrappers
  import opened Numerals

  // ---------------------------------------------------------------------------
  // Arguments and bytecode
  // ---------------------------------------------------------------------------

  /** The calendar fields of a `DateTimeOffset` as its offset sees them. */
  datatype DateTime = DateTime(year: int, month: int, day: int, hour: int, minute: int, second: int)

  type Nibble = x: int | 0 <= x < 16

  /** A GUID as the 32 hexadecimal digits of its textual form, in order. */
  type Guid = s: seq<Nibble> | |s| == 32 witness seq(32, i => 0)

  /** An instruction argument, one constructor per type test of the printer, in
      the order the tests are made. Floating-point numbers and enumeration tokens
      are not modelled. */
  datatype Arg =
    | Null
    | Str(s: string)
    | Chr(c: char)
    | Date(d: DateTime)
    | Uuid(g: Guid)
      /** A predicate `P`; `other` is `Null` when the predicate has no second operand. */
    | Pred(op: string, value: Arg, other: Arg)
    | Dict(entries: seq<KeyValue>)
    | Coll(items: seq<Arg>)
    | Trav(bytecode: Bytecode)
    | Int(n: int)
    | Bool(b: bool)

  datatype KeyValue = KeyValue(key: Arg, value: Arg)

  datatype Instruction = Instruction(op: string, args: seq<Arg>)

  datatype Bytecode = Bytecode(sourceInstructions: seq<Instruction>, stepInstructions: seq<Instruction>)

  // ---------------------------------------------------------------------------
  // Joining
  // ---------------------------------------------------------------------------

  /** `string.Join(sep, parts)`. */
  function Join(sep: string, parts: seq<string>): (r: string)
    ensures |parts| == 0 ==> r == ""
    ensures |parts| == 1 ==> r == parts[0]
  {
    if |parts| == 0 then ""
    else if |parts| == 1 then parts[0]
    else parts[0] + sep + Join(sep, parts[1..])
  }

  /** Joining one more part adds the separator and the part at the end. */
  lemma {:induction false} JoinSnoc(sep: string, parts: seq<string>, last: string)
    requires |parts| > 0
    ensures Join(sep, parts + [last]) == Join(sep, parts) + sep + last
    decreases |parts|
  {
    if |parts| > 1 {
      assert (parts + [last])[1..] == parts[1..] + [last];
      JoinSnoc(sep, parts[1..], last);
    } else {
      assert (parts + [last])[1..] == [last];
    }
  }

  /** The joined text is the parts and the separators between them, nothing else. */
  lemma {:induction false} JoinLength(sep: string, parts: seq<string>)
    requires |parts| > 0
    ensures |Join(sep, parts)| == SumLengths(parts) + (|parts| - 1) * |sep|
    decreases |parts|
  {
    if |parts| > 1 {
      JoinLength(sep, parts[1..]);
    }
  }

  function SumLengths(parts: seq<string>): nat {
    if |parts| == 0 then 0 else |parts[0]| + SumLengths(parts[1..])
  }

  // ---------------------------------------------------------------------------
  // Leaf arguments
  // ---------------------------------------------------------------------------

  /** A digit of a GUID's text, lower case as .NET prints it. */
  function HexDigit(d: Nibble): (c: char)
    ensures IsLowerHex(c)
  {
    if d < 10 then (48 + d) as char else (87 + d) as char
  }

  function Hex(ds: seq<Nibble>): (r: string)
    ensures |r| == |ds|
    ensures forall i | 0 <= i < |ds| :: r[i] == HexDigit(ds[i])
  {
    if |ds| == 0 then "" else [HexDigit(ds[0])] + Hex(ds[1..])
  }

  /** The default text of a GUID: groups of 8, 4, 4, 4 and 12 lower-case digits. */
  function GuidString(g: Guid): (r: string)
    ensures |r| == 36 && r[8] == '-' && r[13] == '-' && r[18] == '-' && r[23] == '-'
  {
    Hex(g[..8]) + "-" + Hex(g[8..12]) + "-" + Hex(g[12..16]) + "-" + Hex(g[16..20]) + "-" + Hex(g[20..])
  }

  /** The value of a hexadecimal digit of either case. */
  function HexValue(c: char): Option<Nibble> {
    if '0' <= c <= '9' then Some(c as int - '0' as int)
    else if 'a' <= c <= 'f' then Some(c as int - 'a' as int + 10)
    else if 'A' <= c <= 'F' then Some(c as int - 'A' as int + 10)
    else None
  }

  /** The positions of the four dashes in a GUID's text. */
  predicate IsDashPosition(i: int) {
    i == 8 || i == 13 || i == 18 || i == 23
  }

  /** The index into a GUID's text of its `k`-th digit. */
  function DigitPosition(k: int): (i: int)
    requires 0 <= k < 32
    ensures 0 <= i < 36 && !IsDashPosition(i)
  {
    if k < 8 then k else if k < 12 then k + 1 else if k < 16 then k + 2 else if k < 20 then k + 3 else k + 4
  }

  /** The dashed form of a GUID: 36 characters, dashes at 8, 13, 18 and 23,
      hexadecimal digits elsewhere. */
  predicate GuidShaped(s: string) {
    |s| == 36 && (forall i | 0 <= i < 36 && IsDashPosition(i) :: s[i] == '-')
    && (forall k | 0 <= k < 32 :: HexValue(s[DigitPosition(k)]).Some?)
  }

  /** The digits of a well-shaped GUID text. */
  function GuidDigits(s: string): (g: Guid)
    requires GuidShaped(s)
    ensures forall k | 0 <= k < 32 :: HexValue(s[DigitPosition(k)]) == Some(g[k])
  {
    seq(32, k requires 0 <= k < 32 => HexValue(s[DigitPosition(k)]).value)
  }

  /** A reader of the dashed `D` form of a GUID; any other text is `None`. */
  function ParseGuid(s: string): (r: Option<Guid>)
    ensures r.Some? <==> GuidShaped(s)
    ensures r.Some? ==> forall k | 0 <= k < 32 :: HexValue(s[DigitPosition(k)]) == Some(r.value[k])
  {
    if GuidShaped(s) then Some(GuidDigits(s)) else None
  }

  /** Reading a printed digit gives the digit back, and a lower-case digit is the
      printing of what it reads as. */
  lemma HexRoundTrip(d: Nibble, c: char)
    ensures HexValue(HexDigit(d)) == Some(d)
    ensures IsLowerHex(c) ==> HexValue(c).Some? && HexDigit(HexValue(c).value) == c
  {
  }

  /** Where a GUID's digits land in its text. */
  lemma GuidStringDigits(g: Guid)
    ensures forall k | 0 <= k < 32 :: GuidString(g)[DigitPosition(k)] == HexDigit(g[k])
  {
    var r := GuidString(g);
    assert r == Hex(g[..8]) + "-" + Hex(g[8..12]) + "-" + Hex(g[12..16]) + "-" + Hex(g[16..20]) + "-" + Hex(g[20..]);
    forall k | 0 <= k < 32 ensures r[DigitPosition(k)] == HexDigit(g[k]) {
      if k < 8 {
        assert r[k] == Hex(g[..8])[k];
      } else if k < 12 {
        assert r[k + 1] == Hex(g[8..12])[k - 8];
      } else if k < 16 {
        assert r[k + 2] == Hex(g[12..16])[k - 12];
      } else if k < 20 {
        assert r[k + 3] == Hex(g[16..20])[k - 16];
      } else {
        assert r[k + 4] == Hex(g[20..])[k - 20];
      }
    }
  }

  /** Parsing the printed text of a GUID gives the GUID back. */
  lemma ParseGuidString(g: Guid)
    ensures ParseGuid(GuidString(g)) == Some(g)
  {
    var r := GuidString(g);
    GuidStringDigits(g);
    forall k | 0 <= k < 32 ensures HexValue(r[DigitPosition(k)]) == Some(g[k]) {
      HexRoundTrip(g[k], r[DigitPosition(k)]);
    }
    assert GuidShaped(r);
    var parsed := GuidDigits(r);
    assert forall k | 0 <= k < 32 :: parsed[k] == g[k];
    assert parsed == g;
  }

  predicate IsLowerHex(c: char) {
    '0' <= c <= '9' || 'a' <= c <= 'f'
  }

  /** Text in the printed form is exactly the printing of what it parses to. */
  lemma GuidStringParse(s: string, g: Guid)
    requires ParseGuid(s) == Some(g)
    requires forall i | 0 <= i < |s| && !IsDashPosition(i) :: IsLowerHex(s[i])
    ensures GuidString(g) == s
  {
    var r := GuidString(g);
    GuidStringDigits(g);
    forall i | 0 <= i < 36 ensures r[i] == s[i] {
      if !IsDashPosition(i) {
        var k := if i < 8 then i else if i < 13 then i - 1 else if i < 18 then i - 2 else if i < 23 then i - 3 else i - 4;
        assert DigitPosition(k) == i;
        assert HexValue(s[i]) == Some(g[k]);
        HexRoundTrip(g[k], s[i]);
      }
    }
  }

  /** `new Date(year-1900, month-1, day, hour, minute, second)`: the fields of
      `java.util.Date`'s deprecated constructor. */
  function TranslateDateTime(d: DateTime): (r: string)
    ensures |r| >= 10 && r[..9] == "new Date(" && r[|r| - 1] == ')'
    ensures ParseList(r[9..|r| - 1], ParseInt)
            == Some([d.year - 1900, d.month - 1, d.day, d.hour, d.minute, d.second])
  {
    var inner := Join(", ", DateFields(d));
    DateFieldsReadable(d);
    DateCall(inner);
    "new Date(" + inner + ")"
  }

  lemma DateFieldsReadable(d: DateTime)
    ensures ParseList(Join(", ", DateFields(d)), ParseInt)
            == Some([d.year - 1900, d.month - 1, d.day, d.hour, d.minute, d.second])
  {
    var fields := DateFields(d);
    var xs := [d.year - 1900, d.month - 1, d.day, d.hour, d.minute, d.second];
    forall k | 0 <= k < 6 ensures ',' !in fields[k] && fields[k] != "" && ParseInt(fields[k]) == Some(xs[k]) {
      IntTextPunctuationFree(xs[k]);
    }
    ParseListJoin(fields, xs, ParseInt);
  }

  lemma DateCall(inner: string)
    ensures var r := "new Date(" + inner + ")";
            |r| >= 10 && r[..9] == "new Date(" && r[|r| - 1] == ')' && r[9..|r| - 1] == inner
  {
    var r := "new Date(" + inner + ")";
    assert r[9..|r| - 1] == inner;
  }

  /** The six numbers a date prints as, in order. */
  function DateFields(d: DateTime): (r: seq<string>)
    ensures |r| == 6
    ensures ParseInt(r[0]) == Some(d.year - 1900) && ParseInt(r[1]) == Some(d.month - 1)
    ensures ParseInt(r[2]) == Some(d.day) && ParseInt(r[3]) == Some(d.hour)
    ensures ParseInt(r[4]) == Some(d.minute) && ParseInt(r[5]) == Some(d.second)
  {
    ParseIntToString(d.year - 1900);
    ParseIntToString(d.month - 1);
    ParseIntToString(d.day);
    ParseIntToString(d.hour);
    ParseIntToString(d.minute);
    ParseIntToString(d.second);
    [IntToString(d.year - 1900), IntToString(d.month - 1), IntToString(d.day),
     IntToString(d.hour), IntToString(d.minute), IntToString(d.second)]
  }

  /** Strings and characters print between single quotes, unchanged. */
  lemma QuotedArgument(traversalSource: string, a: Arg)
    requires a.Str? || a.Chr?
    ensures var r := TranslateArgument(traversalSource, a);
      |r| >= 2 && r[0] == '\'' && r[|r| - 1] == '\''
      && r[1..|r| - 1] == (if a.Str? then a.s else [a.c])
  {
    var body := if a.Str? then a.s else [a.c];
    var r := TranslateArgument(traversalSource, a);
    assert r == "'" + body + "'";
    assert r[1..|r| - 1] == body;
  }

  /** Predicates print as `P.` calls; dictionaries and collections between brackets. */
  lemma BracketedArgument(traversalSource: string, a: Arg)
    requires a.Pred? || a.Dict? || a.Coll?
    ensures var r := TranslateArgument(traversalSource, a);
      |r| >= 2 && (if a.Pred? then r[..2] == "P." && r[|r| - 1] == ')' else r[0] == '[' && r[|r| - 1] == ']')
  {
  }

  /** `Convert.ToString` of a boolean. */
  function BoolString(b: bool): (r: string)
    ensures r == "True" || r == "False"
    ensures r == "True" <==> b
  {
    if b then "True" else "False"
  }

  // ---------------------------------------------------------------------------
  // The printer
  // ---------------------------------------------------------------------------

  /** `Translate(bytecode, isChildTraversal)` of a translator rooted at
      `traversalSource`. */
  function Translate(traversalSource: string, bc: Bytecode, isChild: bool): (r: string)
    decreases bc, 2
  {
    (if isChild then "__" else traversalSource)
    + TranslateSteps(traversalSource, bc.sourceInstructions)
    + TranslateSteps(traversalSource, bc.stepInstructions)
  }

  /** The instructions printed one after another. */
  function TranslateSteps(traversalSource: string, steps: seq<Instruction>): (r: string)
    ensures r == "" <==> |steps| == 0
    ensures |steps| > 0 ==> r[0] == '.'
    decreases steps, 1
  {
    if |steps| == 0 then ""
    else TranslateStep(traversalSource, steps[0]) + TranslateSteps(traversalSource, steps[1..])
  }

  /** `.op(args)`. */
  function TranslateStep(traversalSource: string, step: Instruction): (r: string)
    ensures |r| >= |step.op| + 3 && r[0] == '.' && r[|r| - 1] == ')'
    decreases step, 2
  {
    "." + step.op + "(" + TranslateArguments(traversalSource, step.args) + ")"
  }

  /** A step prints as its operator name, then its arguments in parentheses. */
  lemma StepShape(traversalSource: string, step: Instruction)
    ensures var r := TranslateStep(traversalSource, step);
      r[1..|step.op| + 1] == step.op && r[|step.op| + 1] == '('
      && r[|step.op| + 2..|r| - 1] == TranslateArguments(traversalSource, step.args)
  {
    var r := TranslateStep(traversalSource, step);
    var args := TranslateArguments(traversalSource, step.args);
    assert r == "." + step.op + "(" + args + ")";
    assert r[1..|step.op| + 1] == step.op;
    assert r[|step.op| + 2..|r| - 1] == args;
  }

  /** The arguments printed and joined with `", "`. */
  function TranslateArguments(traversalSource: string, args: seq<Arg>): (r: string)
    ensures r == "" <==> |args| == 0
    ensures |args| == 1 ==> r == TranslateArgument(traversalSource, args[0])
    decreases args, 2
  {
    Join(", ", ArgStrings(traversalSource, args))
  }

  /** Each argument printed on its own. */
  function ArgStrings(traversalSource: string, args: seq<Arg>): (r: seq<string>)
    ensures |r| == |args|
    ensures forall i | 0 <= i < |args| :: r[i] == TranslateArgument(traversalSource, args[i])
    decreases args, 1
  {
    if |args| == 0 then []
    else [TranslateArgument(traversalSource, args[0])] + ArgStrings(traversalSource, args[1..])
  }

  /** One argument, by the first type test it passes. */
  function TranslateArgument(traversalSource: string, a: Arg): (r: string)
    ensures |r| >= 1
    ensures a.Null? ==> r == "null"
    ensures a.Date? ==> r == TranslateDateTime(a.d)
    ensures a.Trav? ==> r == Translate(traversalSource, a.bytecode, true)
    ensures a.Int? ==> ParseInt(r) == Some(a.n)
    ensures a.Bool? ==> r == BoolString(a.b)
    decreases a, 0
  {
    match a
    case Null => "null"
    case Str(s) => "'" + s + "'"
    case Chr(c) => "'" + [c] + "'"
    case Date(d) => TranslateDateTime(d)
    case Uuid(g) => "UUID.fromString('" + GuidString(g) + "')"
    case Pred(op, value, other) =>
      if other.Null? then "P." + op + "(" + TranslateArgument(traversalSource, value) + ")"
      else "P." + op + "(" + TranslateArgument(traversalSource, value) + ", "
           + TranslateArgument(traversalSource, other) + ")"
    case Dict(entries) => "[" + Join(", ", KeyValueStrings(traversalSource, entries)) + "]"
    case Coll(items) => "[" + TranslateArguments(traversalSource, items) + "]"
    case Trav(bc) => Translate(traversalSource, bc, true)
    case Int(n) => ParseIntToString(n); IntToString(n)
    case Bool(b) => BoolString(b)
  }

  /** `key: value` for each entry. */
  function KeyValueStrings(traversalSource: string, entries: seq<KeyValue>): (r: seq<string>)
    ensures |r| == |entries|
    decreases entries, 1
  {
    if |entries| == 0 then []
    else [TranslateKeyValue(traversalSource, entries[0])] + KeyValueStrings(traversalSource, entries[1..])
  }

  function TranslateKeyValue(traversalSource: string, kv: KeyValue): (r: string)
    ensures kv.key.Int? && kv.value.Int? ==> ',' !in r && ParsePair(r) == Some((kv.key.n, kv.value.n))
    decreases kv, 0
  {
    var key, value := TranslateArgument(traversalSource, kv.key), TranslateArgument(traversalSource, kv.value);
    if kv.key.Int? && kv.value.Int? then
      assert key == IntToString(kv.key.n) && value == IntToString(kv.value.n);
      PairRoundTrip(kv.key.n, kv.value.n);
      key + ": " + value
    else key + ": " + value
  }

  // ---------------------------------------------------------------------------
  // Reading printed lists back
  // ---------------------------------------------------------------------------

  /** The index of the first `c` in `s`, or `|s|` when there is none. */
  function IndexOf(s: string, c: char): (i: nat)
    ensures i <= |s| && (i < |s| ==> s[i] == c)
    ensures forall j | 0 <= j < i :: s[j] != c
    ensures c !in s ==> i == |s|
  {
    if |s| == 0 then 0
    else if s[0] == c then 0
    else
      var i := 1 + IndexOf(s[1..], c);
      assert forall j | 1 <= j < i :: s[j] == s[1..][j - 1];
      i
  }

  /** Reads `item, item, ...` (at least one item) with the separator `", "`. */
  function ParseItems<T>(s: string, item: string -> Option<T>): (r: Option<seq<T>>)
    ensures r.Some? ==> |r.value| >= 1
    decreases |s|
  {
    var i := IndexOf(s, ',');
    if i == |s| then
      match item(s)
      case None => None
      case Some(x) => Some([x])
    else if i + 1 < |s| && s[i + 1] == ' ' then
      match item(s[..i])
      case None => None
      case Some(x) =>
        match ParseItems(s[i + 2..], item)
        case None => None
        case Some(xs) => Some([x] + xs)
    else None
  }

  /** Reads the inside of a printed list: nothing, or items separated by `", "`. */
  function ParseList<T>(s: string, item: string -> Option<T>): (r: Option<seq<T>>)
    ensures r.Some? && |r.value| == 0 ==> s == ""
  {
    if s == "" then Some([]) else ParseItems(s, item)
  }

  /** Parts without commas, each read back by `item`, are read back from their join. */
  lemma {:induction false} ParseItemsJoin<T>(parts: seq<string>, xs: seq<T>, item: string -> Option<T>)
    requires |parts| == |xs| >= 1
    requires forall k | 0 <= k < |parts| :: ',' !in parts[k] && item(parts[k]) == Some(xs[k])
    ensures ParseItems(Join(", ", parts), item) == Some(xs)
    decreases |parts|
  {
    if |parts| > 1 {
      assert Join(", ", parts) == parts[0] + ", " + Join(", ", parts[1..]);
      ParseItemsJoin(parts[1..], xs[1..], item);
      ParseItemsCons(parts[0], Join(", ", parts[1..]), xs[0], xs[1..], item);
      assert [xs[0]] + xs[1..] == xs;
    } else {
      assert xs == [xs[0]];
    }
  }

  /** One more item, without commas, in front of a readable list. */
  lemma ParseItemsCons<T>(head: string, rest: string, x: T, xs: seq<T>, item: string -> Option<T>)
    requires ',' !in head && item(head) == Some(x)
    requires ParseItems(rest, item) == Some(xs)
    ensures ParseItems(head + ", " + rest, item) == Some([x] + xs)
  {
    var s := head + ", " + rest;
    assert s == head + [',', ' '] + rest;
    SplitAt(head, ',', ' ', rest);
  }

  /** Text that does not contain `c` is found again before `c` and the character after it. */
  lemma SplitAt(head: string, c: char, d: char, rest: string)
    requires c !in head
    ensures var s := head + [c, d] + rest;
            IndexOf(s, c) == |head| && |head| + 1 < |s| && s[|head| + 1] == d
            && s[..|head|] == head && s[|head| + 2..] == rest
  {
    var s := head + [c, d] + rest;
    assert s[|head|] == c;
    assert forall j | 0 <= j < |head| :: s[j] == head[j];
    assert s[..|head|] == head;
    assert s[|head| + 2..] == rest;
  }

  /** The same for lists that may be empty. */
  lemma ParseListJoin<T>(parts: seq<string>, xs: seq<T>, item: string -> Option<T>)
    requires |parts| == |xs|
    requires forall k | 0 <= k < |parts| :: ',' !in parts[k] && parts[k] != "" && item(parts[k]) == Some(xs[k])
    ensures ParseList(Join(", ", parts), item) == Some(xs)
  {
    if |parts| > 0 {
      ParseItemsJoin(parts, xs, item);
      assert |Join(", ", parts)| > 0 by {
        JoinLength(", ", parts);
        assert SumLengths(parts) >= |parts[0]|;
      }
    }
  }

  /** Integer text holds only digits and a sign: no comma, colon or space. */
  lemma IntTextPunctuationFree(n: int)
    ensures ',' !in IntToString(n) && ':' !in IntToString(n) && ' ' !in IntToString(n)
  {
    var s := IntToString(n);
    if n < 0 {
      assert forall i | 1 <= i < |s| :: s[i] == NatToString(-n)[i - 1];
    }
  }

  /** Reads one `key: value` entry of integers. */
  function ParsePair(s: string): (r: Option<(int, int)>)
  {
    var i := IndexOf(s, ':');
    if i + 1 < |s| && s[i + 1] == ' ' then
      match (ParseInt(s[..i]), ParseInt(s[i + 2..]))
      case (Some(k), Some(v)) => Some((k, v))
      case _ => None
    else None
  }

  /** A printed entry of integers reads back as itself. */
  lemma PairRoundTrip(k: int, v: int)
    ensures ',' !in IntToString(k) + ": " + IntToString(v)
    ensures ParsePair(IntToString(k) + ": " + IntToString(v)) == Some((k, v))
  {
    var a, b := IntToString(k), IntToString(v);
    IntTextPunctuationFree(k);
    IntTextPunctuationFree(v);
    assert a + ": " + b == a + [':', ' '] + b;
    SplitAt(a, ':', ' ', b);
    ParseIntToString(k);
    ParseIntToString(v);
  }

  // ---------------------------------------------------------------------------
  // Properties of the printer
  // ---------------------------------------------------------------------------

  /** Printing a list of instructions distributes over concatenation. */
  lemma {:induction false} TranslateStepsConcat(traversalSource: string, xs: seq<Instruction>, ys: seq<Instruction>)
    ensures TranslateSteps(traversalSource, xs + ys)
         == TranslateSteps(traversalSource, xs) + TranslateSteps(traversalSource, ys)
    decreases |xs|
  {
    if |xs| > 0 {
      assert (xs + ys)[0] == xs[0];
      assert (xs + ys)[1..] == xs[1..] + ys;
      TranslateStepsConcat(traversalSource, xs[1..], ys);
    } else {
      assert xs + ys == ys;
    }
  }

  /** The text is the prefix followed by every source instruction and then every
      step instruction, each as `.op(args)`, in order. */
  lemma TranslateIsPrefixAndSteps(traversalSource: string, bc: Bytecode, isChild: bool)
    ensures Translate(traversalSource, bc, isChild)
         == (if isChild then "__" else traversalSource)
            + TranslateSteps(traversalSource, bc.sourceInstructions + bc.stepInstructions)
  {
    TranslateStepsConcat(traversalSource, bc.sourceInstructions, bc.stepInstructions);
  }

  /** Adding a step to a traversal appends its `.op(args)` and changes nothing before it. */
  lemma TranslateAppendStep(traversalSource: string, bc: Bytecode, isChild: bool, step: Instruction)
    ensures Translate(traversalSource, bc.(stepInstructions := bc.stepInstructions + [step]), isChild)
         == Translate(traversalSource, bc, isChild) + TranslateStep(traversalSource, step)
  {
    var longer := bc.(stepInstructions := bc.stepInstructions + [step]);
    AppendedSteps(traversalSource, bc.stepInstructions, step);
    var front := (if isChild then "__" else traversalSource) + TranslateSteps(traversalSource, bc.sourceInstructions);
    var steps := TranslateSteps(traversalSource, bc.stepInstructions);
    var x := TranslateStep(traversalSource, step);
    assert Translate(traversalSource, longer, isChild) == front + (steps + x);
    assert Translate(traversalSource, bc, isChild) == front + steps;
    ConcatAssoc(front, steps, x);
  }

  lemma ConcatAssoc(a: string, b: string, c: string)
    ensures a + (b + c) == (a + b) + c
  {
  }

  lemma AppendedSteps(traversalSource: string, steps: seq<Instruction>, step: Instruction)
    ensures TranslateSteps(traversalSource, steps + [step])
         == TranslateSteps(traversalSource, steps) + TranslateStep(traversalSource, step)
  {
    TranslateStepsConcat(traversalSource, steps, [step]);
    assert [step][1..] == [];
  }

  /** A child traversal starts with `__` and its text does not depend on the
      translator's traversal source; a root traversal starts with that source. */
  lemma TranslatePrefix(traversalSource: string, other: string, bc: Bytecode)
    ensures Translate(traversalSource, bc, false)[..|traversalSource|] == traversalSource
    ensures Translate(traversalSource, bc, true)[..2] == "__"
    ensures TranslateArgument(traversalSource, Trav(bc)) == TranslateArgument(other, Trav(bc))
  {
    TranslateSourceIrrelevant(traversalSource, other, bc);
  }

  /** Only the outermost prefix uses the traversal source. */
  lemma {:induction false} TranslateSourceIrrelevant(s1: string, s2: string, bc: Bytecode)
    ensures Translate(s1, bc, true) == Translate(s2, bc, true)
    decreases bc, 2
  {
    StepsSourceIrrelevant(s1, s2, bc.sourceInstructions);
    StepsSourceIrrelevant(s1, s2, bc.stepInstructions);
  }

  lemma {:induction false} StepsSourceIrrelevant(s1: string, s2: string, steps: seq<Instruction>)
    ensures TranslateSteps(s1, steps) == TranslateSteps(s2, steps)
    decreases steps, 1
  {
    if |steps| > 0 {
      ArgsSourceIrrelevant(s1, s2, steps[0].args);
      StepsSourceIrrelevant(s1, s2, steps[1..]);
    }
  }

  lemma {:induction false} ArgsSourceIrrelevant(s1: string, s2: string, args: seq<Arg>)
    ensures ArgStrings(s1, args) == ArgStrings(s2, args)
    ensures TranslateArguments(s1, args) == TranslateArguments(s2, args)
    decreases args, 1
  {
    if |args| > 0 {
      ArgSourceIrrelevant(s1, s2, args[0]);
      ArgsSourceIrrelevant(s1, s2, args[1..]);
    }
  }

  lemma {:induction false} KeyValuesSourceIrrelevant(s1: string, s2: string, entries: seq<KeyValue>)
    ensures KeyValueStrings(s1, entries) == KeyValueStrings(s2, entries)
    decreases entries, 1
  {
    if |entries| > 0 {
      KeyValueSourceIrrelevant(s1, s2, entries[0]);
      KeyValuesSourceIrrelevant(s1, s2, entries[1..]);
    }
  }

  lemma {:induction false} KeyValueSourceIrrelevant(s1: string, s2: string, kv: KeyValue)
    ensures TranslateKeyValue(s1, kv) == TranslateKeyValue(s2, kv)
    decreases kv, 0
  {
    ArgSourceIrrelevant(s1, s2, kv.key);
    ArgSourceIrrelevant(s1, s2, kv.value);
  }

  lemma {:induction false} ArgSourceIrrelevant(s1: string, s2: string, a: Arg)
    ensures TranslateArgument(s1, a) == TranslateArgument(s2, a)
    decreases a, 0
  {
    match a
    case Pred(op, value, other) =>
      ArgSourceIrrelevant(s1, s2, value);
      ArgSourceIrrelevant(s1, s2, other);
    case Dict(entries) => KeyValuesSourceIrrelevant(s1, s2, entries);
    case Coll(items) => ArgsSourceIrrelevant(s1, s2, items);
    case Trav(bc) => TranslateSourceIrrelevant(s1, s2, bc);
    case _ =>
  }

  /** An integer argument prints as text that parses back to it. */
  lemma IntArgumentRoundTrip(traversalSource: string, n: int)
    ensures ParseInt(TranslateArgument(traversalSource, Int(n))) == Some(n)
  {
    ParseIntToString(n);
  }

  /** A GUID argument prints its text, which parses back to it, inside `UUID.fromString('...')`. */
  lemma GuidArgumentRoundTrip(traversalSource: string, g: Guid)
    ensures var r := TranslateArgument(traversalSource, Uuid(g));
            |r| == 55 && r[..17] == "UUID.fromString('" && r[53..] == "')"
            && ParseGuid(r[17..53]) == Some(g)
  {
    var r := TranslateArgument(traversalSource, Uuid(g));
    var prefix := "UUID.fromString('";
    assert |prefix| == 17;
    assert r == prefix + GuidString(g) + "')";
    assert r[..17] == prefix;
    assert r[17..53] == GuidString(g);
    assert r[53..] == "')";
    assert |r| == 55;
    ParseGuidString(g);
  }

  /** Distinct strings print differently: the text between the quotes is the string. */
  lemma StringArgumentInjective(traversalSource: string, s: string, s': string)
    ensures TranslateArgument(traversalSource, Str(s)) == TranslateArgument(traversalSource, Str(s')) ==> s == s'
  {
    QuotedArgument(traversalSource, Str(s));
    QuotedArgument(traversalSource, Str(s'));
  }

  /** A character prints as the one-character string. */
  lemma CharPrintsAsString(traversalSource: string, c: char)
    ensures TranslateArgument(traversalSource, Chr(c)) == TranslateArgument(traversalSource, Str([c]))
  {
    QuotedArgument(traversalSource, Chr(c));
    QuotedArgument(traversalSource, Str([c]));
  }

  /** `null`, the two booleans and every integer print as four kinds of text that
      cannot be confused. */
  lemma LeafArgumentsDistinct(traversalSource: string, n: int)
    ensures TranslateArgument(traversalSource, Bool(true)) != TranslateArgument(traversalSource, Bool(false))
    ensures forall b: bool :: TranslateArgument(traversalSource, Null) != TranslateArgument(traversalSource, Bool(b))
    ensures TranslateArgument(traversalSource, Null) != TranslateArgument(traversalSource, Int(n))
    ensures forall b: bool :: TranslateArgument(traversalSource, Int(n)) != TranslateArgument(traversalSource, Bool(b))
  {
    assert ParseInt("null") == None by {
      assert !AllDigits("null") by { assert !IsDigit("null"[0]); }
    }
    assert ParseInt("True") == None by {
      assert !AllDigits("True") by { assert !IsDigit("True"[0]); }
    }
    assert ParseInt("False") == None by {
      assert !AllDigits("False") by { assert !IsDigit("False"[0]); }
    }
  }

  /** A predicate prints like a step called on `P`: `P.op(value)`, or
      `P.op(value, other)` when it has a second operand. */
  lemma PredicateIsCall(traversalSource: string, op: string, value: Arg, other: Arg)
    ensures TranslateArgument(traversalSource, Pred(op, value, other))
         == "P" + TranslateStep(traversalSource, Instruction(op, if other.Null? then [value] else [value, other]))
  {
    var args := if other.Null? then [value] else [value, other];
    var inner := TranslateArguments(traversalSource, args);
    var v := TranslateArgument(traversalSource, value);
    PredicateArguments(traversalSource, value, other);
    if other.Null? {
      assert inner == v;
      assert TranslateArgument(traversalSource, Pred(op, value, other)) == "P." + op + "(" + v + ")";
    } else {
      var o := TranslateArgument(traversalSource, other);
      assert inner == v + ", " + o;
      assert TranslateArgument(traversalSource, Pred(op, value, other)) == "P." + op + "(" + v + ", " + o + ")";
      CallOnArguments(op, v, o);
    }
    assert TranslateStep(traversalSource, Instruction(op, args)) == "." + op + "(" + inner + ")";
    CallOnP(op, inner);
  }

  lemma CallOnArguments(op: string, v: string, o: string)
    ensures "P." + op + "(" + v + ", " + o + ")" == "P." + op + "(" + (v + ", " + o) + ")"
  {
  }

  /** The operands of a predicate, printed as an argument list. */
  lemma PredicateArguments(traversalSource: string, value: Arg, other: Arg)
    ensures !other.Null? ==>
              TranslateArguments(traversalSource, [value, other])
              == TranslateArgument(traversalSource, value) + ", " + TranslateArgument(traversalSource, other)
    ensures TranslateArguments(traversalSource, [value]) == TranslateArgument(traversalSource, value)
  {
    var parts := ArgStrings(traversalSource, [value, other]);
    assert parts[1..] == [parts[1]];
  }

  lemma CallOnP(op: string, inner: string)
    ensures "P." + op + "(" + inner + ")" == "P" + ("." + op + "(" + inner + ")")
  {
  }

  /** Integer items as arguments. */
  function Ints(xs: seq<int>): (args: seq<Arg>)
    ensures |args| == |xs| && forall k | 0 <= k < |xs| :: args[k] == Int(xs[k])
  {
    seq(|xs|, k requires 0 <= k < |xs| => Int(xs[k]))
  }

  /** A collection of integers prints as `[...]` around text that reads back as
      exactly those integers, in order. */
  lemma CollectionOfIntsRoundTrip(traversalSource: string, xs: seq<int>)
    ensures var r := TranslateArgument(traversalSource, Coll(Ints(xs)));
            |r| >= 2 && r[0] == '[' && r[|r| - 1] == ']' && ParseList(r[1..|r| - 1], ParseInt) == Some(xs)
  {
    var items := Ints(xs);
    IntsReadable(traversalSource, xs);
    CollectionPrints(traversalSource, items);
    Bracketed(Join(", ", ArgStrings(traversalSource, items)));
  }

  lemma CollectionPrints(traversalSource: string, items: seq<Arg>)
    ensures TranslateArgument(traversalSource, Coll(items)) == "[" + Join(", ", ArgStrings(traversalSource, items)) + "]"
  {
  }

  lemma IntsReadable(traversalSource: string, xs: seq<int>)
    ensures ParseList(Join(", ", ArgStrings(traversalSource, Ints(xs))), ParseInt) == Some(xs)
  {
    var parts := ArgStrings(traversalSource, Ints(xs));
    forall k | 0 <= k < |parts| ensures ',' !in parts[k] && parts[k] != "" && ParseInt(parts[k]) == Some(xs[k]) {
      IntTextPunctuationFree(xs[k]);
    }
    ParseListJoin(parts, xs, ParseInt);
  }

  lemma Bracketed(inner: string)
    ensures var r := "[" + inner + "]";
            |r| >= 2 && r[0] == '[' && r[|r| - 1] == ']' && r[1..|r| - 1] == inner
  {
    var r := "[" + inner + "]";
    assert r[1..|r| - 1] == inner;
  }

  /** Integer entries as dictionary entries. */
  function IntEntries(es: seq<(int, int)>): (kvs: seq<KeyValue>)
    ensures |kvs| == |es| && forall k | 0 <= k < |es| :: kvs[k] == KeyValue(Int(es[k].0), Int(es[k].1))
  {
    seq(|es|, k requires 0 <= k < |es| => KeyValue(Int(es[k].0), Int(es[k].1)))
  }

  lemma {:induction false} KeyValueStringsAt(traversalSource: string, entries: seq<KeyValue>)
    ensures forall k | 0 <= k < |entries| ::
      KeyValueStrings(traversalSource, entries)[k] == TranslateKeyValue(traversalSource, entries[k])
    decreases |entries|
  {
    if |entries| > 0 {
      KeyValueStringsAt(traversalSource, entries[1..]);
      var r := KeyValueStrings(traversalSource, entries);
      assert forall k | 1 <= k < |entries| :: r[k] == KeyValueStrings(traversalSource, entries[1..])[k - 1];
    }
  }

  /** A dictionary of integers prints as `[...]` around text that reads back as
      exactly those entries, in order. */
  lemma DictionaryOfIntsRoundTrip(traversalSource: string, es: seq<(int, int)>)
    ensures var r := TranslateArgument(traversalSource, Dict(IntEntries(es)));
            |r| >= 2 && r[0] == '[' && r[|r| - 1] == ']' && ParseList(r[1..|r| - 1], ParsePair) == Some(es)
  {
    var entries := IntEntries(es);
    IntEntriesReadable(traversalSource, es);
    DictionaryPrints(traversalSource, entries);
    Bracketed(Join(", ", KeyValueStrings(traversalSource, entries)));
  }

  lemma DictionaryPrints(traversalSource: string, entries: seq<KeyValue>)
    ensures TranslateArgument(traversalSource, Dict(entries)) == "[" + Join(", ", KeyValueStrings(traversalSource, entries)) + "]"
  {
  }

  lemma IntEntriesReadable(traversalSource: string, es: seq<(int, int)>)
    ensures ParseList(Join(", ", KeyValueStrings(traversalSource, IntEntries(es))), ParsePair) == Some(es)
  {
    var entries := IntEntries(es);
    var parts := KeyValueStrings(traversalSource, entries);
    KeyValueStringsAt(traversalSource, entries);
    forall k | 0 <= k < |parts| ensures ',' !in parts[k] && parts[k] != "" && ParsePair(parts[k]) == Some(es[k]) {
      assert parts[k] == TranslateKeyValue(traversalSource, entries[k]);
    }
    ParseListJoin(parts, es, ParsePair);
  }

  /** Reads `'s', 's', ...` back, each string running to the next single quote. */
  function ParseQuoted(s: string): (r: Option<seq<string>>)
    ensures r.Some? ==> |r.value| >= 1
    decreases |s|
  {
    if |s| == 0 || s[0] != '\'' then None
    else
      var t := s[1..];
      var i := IndexOf(t, '\'');
      if i == |t| then None
      else if i + 1 == |t| then Some([t[..i]])
      else if i + 2 < |t| && t[i + 1] == ',' && t[i + 2] == ' ' then
        match ParseQuoted(t[i + 3..])
        case None => None
        case Some(xs) => Some([t[..i]] + xs)
      else None
  }

  /** String arguments. */
  function Strs(ss: seq<string>): (args: seq<Arg>)
    ensures |args| == |ss| && forall k | 0 <= k < |ss| :: args[k] == Str(ss[k])
  {
    seq(|ss|, k requires 0 <= k < |ss| => Str(ss[k]))
  }

  lemma QuotedLast(x: string)
    requires '\'' !in x
    ensures ParseQuoted("'" + x + "'") == Some([x])
  {
    var s := "'" + x + "'";
    var t := s[1..];
    assert t == x + "'";
    assert t[|x|] == '\'';
    assert forall j | 0 <= j < |x| :: t[j] == x[j];
    var i := IndexOf(t, '\'');
    assert i == |x|;
    assert t[..i] == x;
  }

  lemma QuotedCons(x: string, rest: string, xs: seq<string>)
    requires '\'' !in x && ParseQuoted(rest) == Some(xs)
    ensures ParseQuoted("'" + x + "'" + ", " + rest) == Some([x] + xs)
  {
    var s := "'" + x + "'" + ", " + rest;
    var t := x + ['\'', ','] + (" " + rest);
    assert s[0] == '\'' && s[1..] == t by {
      assert s == "'" + t;
    }
    var i := |x|;
    assert IndexOf(t, '\'') == i && i + 1 < |t| && t[i + 1] == ',' && t[..i] == x
           && t[i + 2..] == " " + rest by {
      SplitAt(x, '\'', ',', " " + rest);
    }
    assert i + 2 < |t| && t[i + 2] == ' ' && t[i + 3..] == rest by {
      assert t[i + 2..] == " " + rest;
    }
  }

  /** Strings without single quotes are read back from their printed list. */
  lemma {:induction false} QuotedListRoundTrip(traversalSource: string, ss: seq<string>)
    requires |ss| >= 1 && forall k | 0 <= k < |ss| :: '\'' !in ss[k]
    ensures ParseQuoted(TranslateArguments(traversalSource, Strs(ss))) == Some(ss)
    decreases |ss|
  {
    var parts := ArgStrings(traversalSource, Strs(ss));
    assert TranslateArguments(traversalSource, Strs(ss)) == Join(", ", parts);
    assert parts[0] == TranslateArgument(traversalSource, Str(ss[0])) == "'" + ss[0] + "'";
    if |ss| == 1 {
      assert Join(", ", parts) == parts[0];
      QuotedLast(ss[0]);
      assert ss == [ss[0]];
    } else {
      var rest := ss[1..];
      assert Strs(ss)[1..] == Strs(rest);
      assert parts[1..] == ArgStrings(traversalSource, Strs(rest));
      assert Join(", ", parts) == parts[0] + ", " + Join(", ", parts[1..]);
      QuotedListRoundTrip(traversalSource, rest);
      QuotedCons(ss[0], TranslateArguments(traversalSource, Strs(rest)), rest);
      assert [ss[0]] + rest == ss;
    }
  }

  /** Lists of strings without single quotes print differently when they differ. */
  lemma StringListsInjective(traversalSource: string, ss: seq<string>, tt: seq<string>)
    requires forall k | 0 <= k < |ss| :: '\'' !in ss[k]
    requires forall k | 0 <= k < |tt| :: '\'' !in tt[k]
    ensures TranslateArguments(traversalSource, Strs(ss)) == TranslateArguments(traversalSource, Strs(tt)) ==> ss == tt
  {
    if |ss| > 0 && |tt| > 0 {
      QuotedListRoundTrip(traversalSource, ss);
      QuotedListRoundTrip(traversalSource, tt);
    }
  }

  /** Strings are quoted without escaping, so a string holding `', '` prints
      exactly like two strings: the printing of arguments is not injective. */
  lemma QuotesAreNotEscaped(traversalSource: string)
    ensures TranslateArguments(traversalSource, [Str("a', 'b")])
         == TranslateArguments(traversalSource, [Str("a"), Str("b")])
  {
    var two := ArgStrings(traversalSource, [Str("a"), Str("b")]);
    assert two[0] == "'" + "a" + "'" && two[1] == "'" + "b" + "'";
    assert Join(", ", two) == two[0] + ", " + Join(", ", two[1..]);
    assert two[1..] == [two[1]];
    var one := ArgStrings(traversalSource, [Str("a', 'b")]);
    assert one[0] == "'" + "a', 'b" + "'";
  }
}
