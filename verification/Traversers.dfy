/** The traverser that carries a bulk, an object, a sack, side-effects and one
    named loop counter (`B_O_S_SE_SL_Traverser`): its sack life cycle, its loop
    counter, `split`/`merge`, and the equality and hash that decide folding. */
module Traversers {
  import opened Wrappers

  /** The part of the traversal's side-effects a traverser consults: the optional
      sack supplier, splitter and merger. A function result of `None` is a `null`
      returned by the configured function. */
  datatype SideEffects<!S> = SideEffects(
    sackInitialValue: Option<() -> Option<S>>,
    sackSplitter: Option<S -> Option<S>>,
    sackMerger: Option<(S, Option<S>) -> Option<S>>)

  /** `t` and `bulk` belong to the base traverser; `sideEffects` is `None` once the
      transient reference has been lost, for instance by serialisation. */
  datatype Traverser<T, !S> = Traverser(
    t: T,
    bulk: int,
    sack: Option<S>,
    loops: int,
    loopName: Option<string>,
    sideEffects: Option<SideEffects<S>>)

  datatype TraverserError =
    | LoopNameNotDefined(name: string)
      /** The traverser has a sack but no side-effects to look the splitter or
          merger up in; the source fails with a null dereference. */
    | SideEffectsDetached

  // ---------------------------------------------------------------------------
  // The loop counter is a Java short
  // ---------------------------------------------------------------------------

  const SHORT_MIN: int := -32768
  const SHORT_MAX: int := 32767

  predicate IsShort(x: int) {
    SHORT_MIN <= x <= SHORT_MAX
  }

  /** Narrowing an int to a short: keeps the low 16 bits, read as two's complement. */
  function ToShort(x: int): (r: int)
    ensures IsShort(r)
    ensures (r - x) % 65536 == 0
    ensures IsShort(x) ==> r == x
  {
    (x - SHORT_MIN) % 65536 + SHORT_MIN
  }

  predicate Valid<T, S>(tr: Traverser<T, S>) {
    IsShort(tr.loops)
  }

  // ---------------------------------------------------------------------------
  // Construction and the sack
  // ---------------------------------------------------------------------------

  /** A new traverser for `t` at a step whose traversal has `sideEffects`. */
  function New<T, S>(t: T, sideEffects: SideEffects<S>, initialBulk: int): (r: Traverser<T, S>)
    ensures Valid(r) && r.t == t && r.bulk == initialBulk
    ensures r.loops == 0 && r.loopName == None && r.sideEffects == Some(sideEffects)
    ensures sideEffects.sackInitialValue.None? ==> r.sack == None
    ensures sideEffects.sackInitialValue.Some? ==> r.sack == sideEffects.sackInitialValue.value()
  {
    var sack := match sideEffects.sackInitialValue
                case Some(supplier) => supplier()
                case None => None;
    Traverser(t, initialBulk, sack, 0, None, Some(sideEffects))
  }

  function Sack<T, S>(tr: Traverser<T, S>): Option<S> {
    tr.sack
  }

  /** `sack(object)`: replaces the sack and nothing else. */
  function SetSack<T, S>(tr: Traverser<T, S>, sack: Option<S>): (r: Traverser<T, S>)
    ensures r.t == tr.t && r.bulk == tr.bulk && r.loops == tr.loops
    ensures r.loopName == tr.loopName && r.sideEffects == tr.sideEffects
  {
    tr.(sack := sack)
  }

  /** Reading the sack returns what was last written, whatever was there before. */
  lemma SackRoundTrip<T, S>(tr: Traverser<T, S>, v: Option<S>, w: Option<S>)
    ensures Sack(SetSack(tr, v)) == v
    ensures SetSack(SetSack(tr, w), v) == SetSack(tr, v)
    ensures SetSack(tr, Sack(tr)) == tr
  {
  }

  // ---------------------------------------------------------------------------
  // Loops
  // ---------------------------------------------------------------------------

  function Loops<T, S>(tr: Traverser<T, S>): int {
    tr.loops
  }

  /** `loops(name)`: the counter when no name is asked for or the name is the
      registered one; any other name, also when none is registered, is an error. */
  function LoopsNamed<T, S>(tr: Traverser<T, S>, name: Option<string>): (r: Result<int, TraverserError>)
    ensures r.Ok? <==> name.None? || tr.loopName == name
    ensures r.Ok? ==> r.value == tr.loops
    ensures r.Err? ==> r.error == LoopNameNotDefined(name.value)
  {
    if name.None? || (tr.loopName.Some? && tr.loopName.value == name.value) then Ok(tr.loops)
    else Err(LoopNameNotDefined(name.value))
  }

  /** The registered loop names: always a one-element set, possibly holding `null`. */
  function GetLoopNames<T, S>(tr: Traverser<T, S>): (r: set<Option<string>>)
    ensures |r| == 1 && tr.loopName in r
  {
    {tr.loopName}
  }

  /** `initialiseLoops(stepLabel, loopName)`: registers the name; the step label
      plays no part and the counter is kept. */
  function InitialiseLoops<T, S>(tr: Traverser<T, S>, stepLabel: Option<string>, loopName: Option<string>)
    : (r: Traverser<T, S>)
    ensures r.loopName == loopName && GetLoopNames(r) == {loopName}
    ensures r.loops == tr.loops && r.t == tr.t && r.bulk == tr.bulk
    ensures r.sack == tr.sack && r.sideEffects == tr.sideEffects
  {
    tr.(loopName := loopName)
  }

  /** `incrLoops()`: `loops++` on a short, so the maximum wraps to the minimum. */
  function IncrLoops<T, S>(tr: Traverser<T, S>): (r: Traverser<T, S>)
    requires Valid(tr)
    ensures Valid(r)
    ensures tr.loops < SHORT_MAX ==> r.loops == tr.loops + 1
    ensures tr.loops == SHORT_MAX ==> r.loops == SHORT_MIN
    ensures r.loopName == tr.loopName && r.t == tr.t && r.bulk == tr.bulk
    ensures r.sack == tr.sack && r.sideEffects == tr.sideEffects
  {
    tr.(loops := ToShort(tr.loops + 1))
  }

  /** `resetLoops()`: the counter goes back to zero; the name is kept. */
  function ResetLoops<T, S>(tr: Traverser<T, S>): (r: Traverser<T, S>)
    ensures Valid(r) && r.loops == 0
    ensures r.loopName == tr.loopName && r.t == tr.t && r.bulk == tr.bulk
    ensures r.sack == tr.sack && r.sideEffects == tr.sideEffects
  {
    tr.(loops := 0)
  }

  /** `k` consecutive `incrLoops()`. */
  function IncrLoopsTimes<T, S>(tr: Traverser<T, S>, k: nat): (r: Traverser<T, S>)
    requires Valid(tr)
    ensures Valid(r)
  {
    if k == 0 then tr else IncrLoops(IncrLoopsTimes(tr, k - 1))
  }

  /** `k` increments add `k` to the counter, modulo the short range. */
  lemma {:induction false} IncrLoopsTimesWraps<T, S>(tr: Traverser<T, S>, k: nat)
    requires Valid(tr)
    ensures IncrLoopsTimes(tr, k).loops == ToShort(tr.loops + k)
    ensures IncrLoopsTimes(tr, k).loopName == tr.loopName
  {
    if k > 0 {
      IncrLoopsTimesWraps(tr, k - 1);
      ToShortSucc(tr.loops + k - 1);
    }
  }

  /** Incrementing the short form of `x` gives the short form of `x + 1`. */
  lemma ToShortSucc(x: int)
    ensures ToShort(ToShort(x) + 1) == ToShort(x + 1)
  {
    var y := ToShort(x);
    var z := ToShort(y + 1);
    assert (z - (x + 1)) % 65536 == 0;
    ShortUnique(z, ToShort(x + 1));
  }

  /** Two shorts congruent modulo 2^16 are the same short. */
  lemma ShortUnique(a: int, b: int)
    requires IsShort(a) && IsShort(b) && (a - b) % 65536 == 0
    ensures a == b
  {
  }

  /** After a reset, `k` increments within the short range count exactly `k`. */
  lemma LoopsCountFromReset<T, S>(tr: Traverser<T, S>, k: nat)
    requires k <= SHORT_MAX
    ensures Loops(IncrLoopsTimes(ResetLoops(tr), k)) == k
  {
    IncrLoopsTimesWraps(ResetLoops(tr), k);
  }

  /** The counter is a 16-bit value: 2^16 increments bring it back where it was. */
  lemma LoopsCycle<T, S>(tr: Traverser<T, S>)
    requires Valid(tr)
    ensures Loops(IncrLoopsTimes(tr, 65536)) == Loops(tr)
  {
    WholeTurns(tr, 65536);
  }

  lemma WholeTurns<T, S>(tr: Traverser<T, S>, k: nat)
    requires Valid(tr) && k % 65536 == 0
    ensures Loops(IncrLoopsTimes(tr, k)) == Loops(tr)
  {
    IncrLoopsTimesWraps(tr, k);
    var r := ToShort(tr.loops + k);
    assert (r - tr.loops) % 65536 == 0 by {
      assert r - tr.loops == (r - (tr.loops + k)) + k;
    }
    ShortUnique(r, tr.loops);
  }

  /** Registering a name makes `loops(name)` answer with the current counter. */
  lemma InitialiseThenAsk<T, S>(tr: Traverser<T, S>, stepLabel: Option<string>, name: string, other: string)
    requires other != name
    ensures LoopsNamed(InitialiseLoops(tr, stepLabel, Some(name)), Some(name)) == Ok(tr.loops)
    ensures LoopsNamed(InitialiseLoops(tr, stepLabel, Some(name)), None) == Ok(tr.loops)
    ensures LoopsNamed(InitialiseLoops(tr, stepLabel, Some(name)), Some(other)) == Err(LoopNameNotDefined(other))
    ensures LoopsNamed(InitialiseLoops(tr, stepLabel, None), Some(other)) == Err(LoopNameNotDefined(other))
  {
  }

  // ---------------------------------------------------------------------------
  // Split and merge
  // ---------------------------------------------------------------------------

  /** The child's sack: null stays null; otherwise the splitter's result, or the
      same sack when no splitter is configured. */
  function SplitSack<S>(sack: Option<S>, sideEffects: Option<SideEffects<S>>): (r: Result<Option<S>, TraverserError>)
    ensures r.Err? <==> sack.Some? && sideEffects.None?
    ensures r.Err? ==> r.error == SideEffectsDetached
    ensures sack.None? ==> r == Ok(None)
    ensures sack.Some? && sideEffects.Some? && sideEffects.value.sackSplitter.None? ==> r == Ok(sack)
    ensures sack.Some? && sideEffects.Some? && sideEffects.value.sackSplitter.Some?
            ==> r == Ok(sideEffects.value.sackSplitter.value(sack.value))
  {
    if sack.None? then Ok(None)
    else if sideEffects.None? then Err(SideEffectsDetached)
    else match sideEffects.value.sackSplitter
         case None => Ok(sack)
         case Some(splitter) => Ok(splitter(sack.value))
  }

  /** `split(r, step)`: a copy holding `r`, with bulk, loops and side-effects
      unchanged and the sack split. */
  function SplitTo<T, R, S>(tr: Traverser<T, S>, r: R): (c: Result<Traverser<R, S>, TraverserError>)
    ensures c.Err? <==> tr.sack.Some? && tr.sideEffects.None?
    ensures c.Ok? ==> c.value.t == r && Ok(c.value.sack) == SplitSack(tr.sack, tr.sideEffects)
    ensures c.Ok? ==> c.value.bulk == tr.bulk && c.value.loops == tr.loops
                      && c.value.loopName == tr.loopName && c.value.sideEffects == tr.sideEffects
  {
    var sack :- SplitSack(tr.sack, tr.sideEffects);
    Ok(Traverser(r, tr.bulk, sack, tr.loops, tr.loopName, tr.sideEffects))
  }

  /** `split()`: a copy of the traverser with its sack split. */
  function Split<T, S>(tr: Traverser<T, S>): (c: Result<Traverser<T, S>, TraverserError>)
    ensures c.Err? <==> tr.sack.Some? && tr.sideEffects.None?
    ensures c.Ok? ==> c.value == tr.(sack := c.value.sack)
    ensures c.Ok? ==> Ok(c.value.sack) == SplitSack(tr.sack, tr.sideEffects)
  {
    SplitTo(tr, tr.t)
  }

  /** What `merge` leaves behind: the receiver's new state, and the exception it
      threw, if any. */
  datatype Merged<T, !S> = Merged(receiver: Traverser<T, S>, thrown: Option<TraverserError>)

  /** `merge(other)`: bulks add up; the sack becomes `merger(sack, other.sack)`
      when the receiver has a sack and a merger is configured, and is kept
      otherwise. The base class adds the bulks in place before the merger is
      looked up, so a receiver whose side-effects are detached throws with its
      bulk already summed. */
  function Merge<T, U, S>(tr: Traverser<T, S>, other: Traverser<U, S>): (r: Merged<T, S>)
    ensures r.thrown.Some? <==> tr.sack.Some? && tr.sideEffects.None?
    ensures r.thrown.Some? ==> r.thrown.value == SideEffectsDetached
    ensures r.receiver.bulk == tr.bulk + other.bulk
    ensures r.receiver == tr.(bulk := r.receiver.bulk, sack := r.receiver.sack)
    ensures tr.sack.None? || tr.sideEffects.None? || tr.sideEffects.value.sackMerger.None?
            ==> r.receiver.sack == tr.sack
    ensures tr.sack.Some? && tr.sideEffects.Some? && tr.sideEffects.value.sackMerger.Some?
            ==> r.receiver.sack == tr.sideEffects.value.sackMerger.value(tr.sack.value, other.sack)
  {
    var merged := tr.(bulk := tr.bulk + other.bulk);
    if tr.sack.None? then Merged(merged, None)
    else if tr.sideEffects.None? then Merged(merged, Some(SideEffectsDetached))
    else match tr.sideEffects.value.sackMerger
         case None => Merged(merged, None)
         case Some(merger) => Merged(merged.(sack := merger(tr.sack.value, other.sack)), None)
  }

  /** Splitting and merging the fork back doubles the bulk; without a splitter
      and a merger the sack survives the round trip. */
  lemma SplitMergeRoundTrip<T, S>(tr: Traverser<T, S>)
    requires tr.sack.None? || tr.sideEffects.Some?
    ensures Split(tr).Ok? && Merge(tr, Split(tr).value).thrown.None?
    ensures Merge(tr, Split(tr).value).receiver.bulk == 2 * tr.bulk
    ensures tr.sack.None? || (tr.sideEffects.value.sackSplitter.None? && tr.sideEffects.value.sackMerger.None?)
            ==> Merge(tr, Split(tr).value).receiver == tr.(bulk := 2 * tr.bulk)
  {
  }

  // ---------------------------------------------------------------------------
  // Equality and hash
  // ---------------------------------------------------------------------------

  /** A sack that nothing could merge: present, with no side-effects or no merger. */
  predicate CarriesUnmergeableSack<T, S>(tr: Traverser<T, S>) {
    tr.sack.Some? && (tr.sideEffects.None? || tr.sideEffects.value.sackMerger.None?)
  }

  /** A present sack is mergeable exactly when `merge` can apply a merger to it:
      otherwise `merge` keeps the sack as it is, throwing when side-effects are missing. */
  lemma MergeUsesMergerIffMergeable<T, U, S>(tr: Traverser<T, S>, other: Traverser<U, S>)
    requires tr.sack.Some?
    ensures !CarriesUnmergeableSack(tr) ==> Merge(tr, other).thrown.None?
    ensures !CarriesUnmergeableSack(tr)
            ==> Merge(tr, other).receiver.sack == tr.sideEffects.value.sackMerger.value(tr.sack.value, other.sack)
    ensures CarriesUnmergeableSack(tr) ==> Merge(tr, other).receiver.sack == tr.sack
  {
  }

  /** `equals(other)`, given the base traverser's verdict `superEquals`. Seen from
      the outside: the other traverser reports the same loop names and answers the
      receiver's loop query with the receiver's counter, and the receiver carries no
      unmergeable sack. Only the receiver's sack is examined. */
  function Equals<T, S>(tr: Traverser<T, S>, other: Traverser<T, S>, superEquals: bool): (r: bool)
    ensures r <==> superEquals && !CarriesUnmergeableSack(tr) && GetLoopNames(other) == GetLoopNames(tr)
                   && LoopsNamed(other, tr.loopName) == Ok(Loops(tr))
  {
    superEquals && other.loops == tr.loops && other.loopName == tr.loopName
    && !CarriesUnmergeableSack(tr)
  }

  /** A traverser with an unmergeable sack equals nothing, not even itself. */
  lemma UnmergeableEqualsNothing<T, S>(tr: Traverser<T, S>, other: Traverser<T, S>, superEquals: bool)
    requires CarriesUnmergeableSack(tr)
    ensures !Equals(tr, other, superEquals) && !Equals(tr, tr, superEquals)
  {
  }

  /** Between traversers whose sacks are both mergeable, equality is symmetric
      (given a symmetric base verdict). */
  lemma EqualsSymmetricWhenMergeable<T, S>(a: Traverser<T, S>, b: Traverser<T, S>, superEquals: bool)
    requires !CarriesUnmergeableSack(a) && !CarriesUnmergeableSack(b)
    ensures Equals(a, b, superEquals) <==> Equals(b, a, superEquals)
  {
  }

  /** The UTF-16 code units of a string, as Java stores it: a character above
      U+FFFF becomes a surrogate pair. */
  function Utf16(s: string): (units: seq<int>)
    ensures |units| >= |s|
    ensures forall i | 0 <= i < |units| :: 0 <= units[i] < 0x1_0000
    ensures (forall i | 0 <= i < |s| :: s[i] as int < 0x1_0000) ==> |units| == |s|
  {
    if |s| == 0 then []
    else
      var c := s[|s| - 1] as int;
      Utf16(s[..|s| - 1]) + (if c < 0x1_0000 then [c]
                               else [0xD800 + (c - 0x1_0000) / 0x400, 0xDC00 + (c - 0x1_0000) % 0x400])
  }

  /** A string without characters above U+FFFF is its own code units. */
  lemma {:induction false} Utf16Basic(s: string)
    requires forall i | 0 <= i < |s| :: s[i] as int < 0x1_0000
    ensures |Utf16(s)| == |s| && forall i | 0 <= i < |s| :: Utf16(s)[i] == s[i] as int
    decreases |s|
  {
    if |s| > 0 {
      Utf16Basic(s[..|s| - 1]);
    }
  }

  /** Java's `String.hashCode` over code units: `u[0]*31^(n-1) + ... + u[n-1]`
      modulo 2^32, as an unsigned value. */
  function UnitsHash(units: seq<int>): (h: int)
    ensures 0 <= h < 0x1_0000_0000
    decreases |units|
  {
    if |units| == 0 then 0
    else (UnitsHash(units[..|units| - 1]) * 31 + units[|units| - 1]) % 0x1_0000_0000
  }

  /** `String.hashCode`: the hash of the string's UTF-16 code units. */
  function StringHash(s: string): (h: int)
    ensures 0 <= h < 0x1_0000_0000
  {
    UnitsHash(Utf16(s))
  }

  /** Values of `String.hashCode` that Java programs rely on, read unsigned; the
      last is a character outside the Basic Multilingual Plane, hashed as its
      surrogate pair `0xD83D 0xDE00`. */
  lemma StringHashVectors()
    ensures StringHash("") == 0
    ensures StringHash("a") == 97
    ensures StringHash("ab") == 3105
    ensures StringHash("\U{1F600}") == 1772899
  {
    assert "ab"[..1] == "a";
    assert "a"[..0] == "";
    assert Utf16("ab") == [97, 98];
    assert Utf16("\U{1F600}") == [0xD83D, 0xDE00];
    assert UnitsHash([0xD83D, 0xDE00]) == 1772899 by {
      assert [0xD83D, 0xDE00][..1] == [0xD83D];
      assert [0xD83D][..0] == [];
    }
  }

  /** `Objects.hashCode(loopName)`: 0 for null. */
  function NameHash(name: Option<string>): (h: bv32)
    ensures name.None? ==> h == 0
  {
    match name
    case None => 0
    case Some(s) => StringHash(s) as bv32
  }

  /** An int as the 32 bits Java's `^` works on. */
  function IntBits(x: int): bv32 {
    (x % 0x1_0000_0000) as bv32
  }

  /** `hashCode()`, given the base traverser's hash and this instance's identity
      hash: identity-based for an unmergeable sack, otherwise the base hash mixed
      with the loop counter and the loop name's hash. */
  function HashCode<T, S>(tr: Traverser<T, S>, superHash: bv32, identityHash: bv32): (h: bv32)
  {
    if CarriesUnmergeableSack(tr) then identityHash
    else superHash ^ IntBits(tr.loops) ^ NameHash(tr.loopName)
  }

  /** The identity hash decides the hash exactly when the sack is unmergeable;
      otherwise the hash depends only on the base hash, the counter and the name. */
  lemma HashCodeIdentity<T, S>(tr: Traverser<T, S>, superHash: bv32, ia: bv32, ib: bv32)
    ensures CarriesUnmergeableSack(tr) ==> HashCode(tr, superHash, ia) == ia
    ensures HashCode(tr, superHash, ia) == HashCode(tr, superHash, ib) <==> !CarriesUnmergeableSack(tr) || ia == ib
  {
  }

  /** When neither side carries an unmergeable sack, equal traversers whose base
      hashes agree hash alike, whatever their identity hashes. */
  lemma EqualsHashConsistentWhenMergeable<T, S>(a: Traverser<T, S>, b: Traverser<T, S>, superHash: bv32, ia: bv32, ib: bv32)
    requires Equals(a, b, true) && !CarriesUnmergeableSack(b)
    ensures HashCode(a, superHash, ia) == HashCode(b, superHash, ib)
  {
  }

  // ---------------------------------------------------------------------------
  // Folding equality as the receiver-only check leaves it, and as intended
  // ---------------------------------------------------------------------------

  /** Side-effects whose merger keeps the receiver's sack. */
  function KeepMerger(): SideEffects<int> {
    SideEffects(None, None, Some((s: int, o: Option<int>) => Some(s)))
  }

  /** Equality examines only the receiver's sack, so a traverser whose side-effects
      were lost still equals its live twin, while the twin hashes by identity. */
  lemma EqualsAsymmetric()
    ensures var live := Traverser(0, 1, Some(5), 0, None, Some(KeepMerger()));
            var detached := live.(sideEffects := None);
            Equals(live, detached, true) && !Equals(detached, live, true)
            && HashCode(live, 0, 0) != HashCode(detached, 0, 1)
  {
  }

  /** The intended equality: neither side may carry an unmergeable sack, so
      `equals` is symmetric and agrees with `hashCode`. It is `Equals` made in
      both directions. */
  function FoldEquals<T, S>(tr: Traverser<T, S>, other: Traverser<T, S>, superEquals: bool): (r: bool)
    ensures r <==> Equals(tr, other, superEquals) && Equals(other, tr, superEquals)
  {
    Equals(tr, other, superEquals) && !CarriesUnmergeableSack(other)
  }

  /** With a symmetric base verdict, folding equality is symmetric. */
  lemma FoldEqualsSymmetric<T, S>(a: Traverser<T, S>, b: Traverser<T, S>, superEquals: bool)
    ensures FoldEquals(a, b, superEquals) <==> FoldEquals(b, a, superEquals)
  {
  }

  /** Traversers that fold together hash alike when their base hashes agree,
      whatever their identity hashes: the hash contract holds. */
  lemma FoldEqualsHashConsistent<T, S>(a: Traverser<T, S>, b: Traverser<T, S>, superHash: bv32, ia: bv32, ib: bv32)
    requires FoldEquals(a, b, true)
    ensures HashCode(a, superHash, ia) == HashCode(b, superHash, ib)
  {
  }

  /** Only traversers whose sacks can be merged ever fold, even with themselves. */
  lemma FoldEqualsReflexiveIffMergeable<T, S>(a: Traverser<T, S>)
    ensures FoldEquals(a, a, true) <==> !CarriesUnmergeableSack(a)
  {
  }
}
