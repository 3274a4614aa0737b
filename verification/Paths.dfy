/** The path carried by a traverser: an ordered visitation history whose entries
    each hold a value and an ordered, duplicate-free set of step labels.

    The four path implementations of the system (growable, persistent, detached
    and reference paths) are required to behave identically, so they are modelled
    here once, as an immutable sequence of entries with value semantics. */
module Paths {
  import opened Wrappers

  /** One visited value together with the labels of the step that produced it. */
  datatype Entry<V> = Entry(value: V, labels: seq<string>)

  type Path<V> = seq<Entry<V>>

  /** Disambiguation mode for a label carried by several entries. */
  datatype Pop = First | Last | All

  /** What a label lookup yields: one value, or a list of values in path order. */
  datatype Selected<V> = Single(value: V) | Many(values: seq<V>)

  datatype PathError =
    | IndexOutOfBounds(index: int)
    | LabelNotFound(name: string)
    | SubPathFromLabelNotFound(name: string)
    | SubPathToLabelNotFound(name: string)
    | SubPathOutOfOrder(fromLabel: Option<string>, toLabel: Option<string>)

  predicate Distinct<T(==)>(xs: seq<T>) {
    forall i, j | 0 <= i < j < |xs| :: xs[i] != xs[j]
  }

  /** Every entry's label set is duplicate-free. */
  predicate WellFormed<V>(p: Path<V>) {
    forall i | 0 <= i < |p| :: Distinct(p[i].labels)
  }

  // ---------------------------------------------------------------------------
  // Ordered label sets (insertion-ordered hash sets in the source)
  // ---------------------------------------------------------------------------

  /** Adds each label of `more` that is not yet present, at the end, in order. */
  function AddAll(ls: seq<string>, more: seq<string>): (r: seq<string>)
    ensures |ls| <= |r| && r[..|ls|] == ls
    ensures forall l :: l in r <==> l in ls || l in more
    ensures Distinct(ls) ==> Distinct(r)
    decreases |more|
  {
    if |more| == 0 then ls
    else AddAll(if more[0] in ls then ls else ls + [more[0]], more[1..])
  }

  /** The ordered label set built from a list of labels: first occurrences win. */
  function LabelSet(xs: seq<string>): (r: seq<string>)
    ensures Distinct(r)
    ensures forall l :: l in r <==> l in xs
  {
    AddAll([], xs)
  }

  lemma {:induction false} AddAllOfFresh(ls: seq<string>, more: seq<string>)
    requires Distinct(ls + more)
    ensures AddAll(ls, more) == ls + more
    decreases |more|
  {
    if |more| > 0 {
      assert (ls + more)[|ls|] == more[0];
      assert more[0] !in ls by {
        forall i | 0 <= i < |ls| ensures ls[i] != more[0] {
          assert (ls + more)[i] == ls[i];
        }
      }
      assert (ls + [more[0]]) + more[1..] == ls + more;
      AddAllOfFresh(ls + [more[0]], more[1..]);
    }
  }

  /** Building a label set from labels that are already distinct keeps them as given. */
  lemma LabelSetOfDistinct(xs: seq<string>)
    requires Distinct(xs)
    ensures LabelSet(xs) == xs
  {
    assert [] + xs == xs;
    AddAllOfFresh([], xs);
  }

  /** The labels of `ls` that are not in `s`, in their original order. */
  function Without(ls: seq<string>, s: set<string>): (r: seq<string>)
    ensures |r| <= |ls|
    ensures forall l :: l in r <==> l in ls && l !in s
    ensures Distinct(ls) ==> Distinct(r)
    ensures (forall l | l in ls :: l !in s) ==> r == ls
  {
    if |ls| == 0 then []
    else (if ls[0] in s then [] else [ls[0]]) + Without(ls[1..], s)
  }

  /** Two label sets are equal as sets, whatever their order. */
  predicate SameLabels(a: seq<string>, b: seq<string>) {
    (forall l | l in a :: l in b) && (forall l | l in b :: l in a)
  }

  // ---------------------------------------------------------------------------
  // Construction and positional access
  // ---------------------------------------------------------------------------

  function Empty<V>(): (r: Path<V>)
    ensures |r| == 0 && WellFormed(r)
  {
    []
  }

  function Size<V>(p: Path<V>): nat {
    |p|
  }

  /** All values in path order. */
  function Objects<V>(p: Path<V>): (r: seq<V>)
    ensures |r| == |p|
    ensures forall i | 0 <= i < |p| :: r[i] == p[i].value
  {
    seq(|p|, i requires 0 <= i < |p| => p[i].value)
  }

  /** Appends one entry holding `v` and the label set built from `labels`. */
  function Extend<V>(p: Path<V>, v: V, labels: seq<string>): (r: Path<V>)
    ensures |r| == |p| + 1 && r[..|p|] == p
    ensures r[|p|].value == v && SameLabels(r[|p|].labels, labels)
    ensures WellFormed(p) ==> WellFormed(r)
  {
    p + [Entry(v, LabelSet(labels))]
  }

  /** Extending with labels that are already distinct stores them exactly as given. */
  lemma ExtendDistinct<V>(p: Path<V>, v: V, labels: seq<string>)
    requires Distinct(labels)
    ensures Extend(p, v, labels) == p + [Entry(v, labels)]
  {
    LabelSetOfDistinct(labels);
  }

  /** Adds `labels` to the last entry; an empty path is left as it is. */
  function ExtendLabels<V>(p: Path<V>, labels: seq<string>): (r: Path<V>)
    ensures |r| == |p| && Objects(r) == Objects(p)
    ensures forall i | 0 <= i < |p| - 1 :: r[i] == p[i]
    ensures |p| > 0 ==> forall l :: l in r[|p| - 1].labels <==> l in p[|p| - 1].labels || l in labels
    ensures |p| > 0 ==> |p[|p| - 1].labels| <= |r[|p| - 1].labels|
                        && r[|p| - 1].labels[..|p[|p| - 1].labels|] == p[|p| - 1].labels
    ensures WellFormed(p) ==> WellFormed(r)
  {
    if |p| == 0 then p
    else
      var last := p[|p| - 1];
      p[..|p| - 1] + [Entry(last.value, AddAll(last.labels, labels))]
  }

  /** The value at position `i`, or an index error. */
  function Get<V>(p: Path<V>, i: int): (r: Result<V, PathError>)
    ensures r.Ok? <==> 0 <= i < |p|
    ensures r.Ok? ==> r.value == Objects(p)[i]
    ensures r.Err? ==> r.error == IndexOutOfBounds(i)
  {
    if 0 <= i < |p| then Ok(p[i].value) else Err(IndexOutOfBounds(i))
  }

  // ---------------------------------------------------------------------------
  // Label queries
  // ---------------------------------------------------------------------------

  predicate HasLabel<V>(p: Path<V>, l: string) {
    exists i | 0 <= i < |p| :: l in p[i].labels
  }

  /** Every label carried by some entry. */
  function LabelsOf<V>(p: Path<V>): (r: set<string>)
    ensures forall l :: l in r <==> HasLabel(p, l)
  {
    set i, l | 0 <= i < |p| && l in p[i].labels :: l
  }

  /** Index of the first entry carrying `l`, or -1. */
  function FirstIndexOf<V>(p: Path<V>, l: string): (r: int)
    ensures -1 <= r < |p|
    ensures r == -1 <==> !HasLabel(p, l)
    ensures r >= 0 ==> l in p[r].labels && forall j | 0 <= j < r :: l !in p[j].labels
  {
    if |p| == 0 then -1
    else if l in p[0].labels then 0
    else
      var k := FirstIndexOf(p[1..], l);
      assert forall j | 1 <= j < |p| :: p[j] == p[1..][j - 1];
      if k == -1 then -1 else k + 1
  }

  /** Index of the last entry carrying `l`, or -1. */
  function LastIndexOf<V>(p: Path<V>, l: string): (r: int)
    ensures -1 <= r < |p|
    ensures r == -1 <==> !HasLabel(p, l)
    ensures r >= 0 ==> l in p[r].labels && forall j | r < j < |p| :: l !in p[j].labels
  {
    if |p| == 0 then -1
    else if l in p[|p| - 1].labels then |p| - 1
    else LastIndexOf(p[..|p| - 1], l)
  }

  /** The last carrier of `l` is the one with no carrier after it. */
  lemma LastIndexOfIs<V>(p: Path<V>, l: string, i: int)
    requires 0 <= i < |p| && l in p[i].labels
    requires forall j | i < j < |p| :: l !in p[j].labels
    ensures LastIndexOf(p, l) == i
  {
  }

  /** The values of the entries carrying `l`, in path order. */
  function ValuesOf<V>(p: Path<V>, l: string): (r: seq<V>)
    ensures |r| <= |p|
    ensures |r| == 0 <==> !HasLabel(p, l)
  {
    if |p| == 0 then []
    else
      assert forall j | 1 <= j < |p| :: p[j] == p[1..][j - 1];
      (if l in p[0].labels then [p[0].value] else []) + ValuesOf(p[1..], l)
  }

  /** The selection of `l` holds exactly the values of the entries carrying `l`. */
  lemma {:induction false} ValuesOfMembers<V>(p: Path<V>, l: string)
    ensures forall i | 0 <= i < |p| && l in p[i].labels :: p[i].value in ValuesOf(p, l)
    ensures forall v | v in ValuesOf(p, l) :: exists i | 0 <= i < |p| :: l in p[i].labels && p[i].value == v
    decreases |p|
  {
    if |p| > 0 {
      ValuesOfMembers(p[1..], l);
      assert forall j | 1 <= j < |p| :: p[j] == p[1..][j - 1];
    }
  }

  /** Extending a path adds the new value to the selection of each of its labels only. */
  lemma {:induction false} ValuesOfAppend<V>(p: Path<V>, e: Entry<V>, l: string)
    ensures ValuesOf(p + [e], l) == ValuesOf(p, l) + (if l in e.labels then [e.value] else [])
    decreases |p|
  {
    var sel := if l in e.labels then [e.value] else [];
    if |p| == 0 {
      assert p + [e] == [e];
      assert [e][1..] == [];
    } else {
      var head := if l in p[0].labels then [p[0].value] else [];
      assert (p + [e])[0] == p[0];
      assert (p + [e])[1..] == p[1..] + [e];
      ValuesOfAppend(p[1..], e, l);
      assert ValuesOf(p + [e], l) == head + (ValuesOf(p[1..], l) + sel);
    }
  }

  /** The first selected value belongs to the first carrying entry. */
  lemma {:induction false} ValuesOfFirst<V>(p: Path<V>, l: string)
    requires HasLabel(p, l)
    ensures ValuesOf(p, l)[0] == p[FirstIndexOf(p, l)].value
    decreases |p|
  {
    if l !in p[0].labels {
      assert forall j | 1 <= j < |p| :: p[j] == p[1..][j - 1];
      assert HasLabel(p[1..], l);
      ValuesOfFirst(p[1..], l);
    }
  }

  /** The last selected value belongs to the last carrying entry. */
  lemma {:induction false} ValuesOfLast<V>(p: Path<V>, l: string)
    requires HasLabel(p, l)
    ensures ValuesOf(p, l)[|ValuesOf(p, l)| - 1] == p[LastIndexOf(p, l)].value
    decreases |p|
  {
    var init := p[..|p| - 1];
    var e := p[|p| - 1];
    assert p == init + [e];
    ValuesOfAppend(init, e, l);
    if l !in e.labels {
      assert HasLabel(init, l) by {
        var i :| 0 <= i < |p| && l in p[i].labels;
        assert init[i] == p[i];
      }
      ValuesOfLast(init, l);
    }
  }

  /** A label selects exactly one value iff its first and last carriers coincide. */
  lemma {:induction false} ValuesOfSingle<V>(p: Path<V>, l: string)
    requires HasLabel(p, l)
    ensures |ValuesOf(p, l)| == 1 <==> FirstIndexOf(p, l) == LastIndexOf(p, l)
    decreases |p|
  {
    var tail := p[1..];
    assert forall j | 1 <= j < |p| :: p[j] == tail[j - 1];
    if l in p[0].labels {
      if HasLabel(tail, l) {
        var k := LastIndexOf(tail, l);
        assert l in p[k + 1].labels;
      } else {
        assert forall j | 0 < j < |p| :: l !in p[j].labels;
      }
    } else {
      assert HasLabel(tail, l);
      ValuesOfSingle(tail, l);
      var f := FirstIndexOf(tail, l);
      var g := LastIndexOf(tail, l);
      assert FirstIndexOf(p, l) == f + 1;
      assert LastIndexOf(p, l) == g + 1 by {
        assert l in p[g + 1].labels;
        assert forall j | g + 1 < j < |p| :: l !in p[j].labels;
      }
    }
  }

  /** `get(label)`: the single value when one entry carries the label, otherwise
      every carried value in path order; an absent label is an error. */
  function GetLabel<V>(p: Path<V>, l: string): (r: Result<Selected<V>, PathError>)
    ensures r.Err? <==> !HasLabel(p, l)
    ensures r.Err? ==> r.error == LabelNotFound(l)
    ensures r.Ok? && r.value.Single? ==> FirstIndexOf(p, l) == LastIndexOf(p, l)
                                         && r.value.value == p[FirstIndexOf(p, l)].value
    ensures r.Ok? && r.value.Many? ==> FirstIndexOf(p, l) < LastIndexOf(p, l)
                                       && r.value.values == ValuesOf(p, l)
  {
    var vs := ValuesOf(p, l);
    if |vs| == 0 then Err(LabelNotFound(l))
    else
      ValuesOfSingle(p, l);
      ValuesOfFirst(p, l);
      if |vs| == 1 then Ok(Single(vs[0])) else Ok(Many(vs))
  }

  /** `get(pop, label)`: `First`/`Last` give the value of the first/last carrying
      entry and fail for an absent label; `All` gives every value, possibly none. */
  function GetPop<V>(pop: Pop, p: Path<V>, l: string): (r: Result<Selected<V>, PathError>)
    ensures pop == All ==> r == Ok(Many(ValuesOf(p, l)))
    ensures pop != All ==> (r.Err? <==> !HasLabel(p, l))
    ensures pop != All && r.Err? ==> r.error == LabelNotFound(l)
    ensures pop == First && r.Ok? ==> r.value == Single(p[FirstIndexOf(p, l)].value)
    ensures pop == Last && r.Ok? ==> r.value == Single(p[LastIndexOf(p, l)].value)
  {
    var vs := ValuesOf(p, l);
    match pop
    case All => Ok(Many(vs))
    case First =>
      if |vs| == 0 then Err(LabelNotFound(l))
      else ValuesOfFirst(p, l); Ok(Single(vs[0]))
    case Last =>
      if |vs| == 0 then Err(LabelNotFound(l))
      else ValuesOfLast(p, l); Ok(Single(vs[|vs| - 1]))
  }

  // ---------------------------------------------------------------------------
  // Simplicity
  // ---------------------------------------------------------------------------

  /** A simple path visits no value twice; labels play no part. */
  predicate Simple<V(==)>(p: Path<V>) {
    Distinct(Objects(p))
  }

  /** `isSimple()`, as a single scan that remembers the values seen so far. */
  method IsSimple<V(==)>(p: Path<V>) returns (b: bool)
    ensures b <==> Simple(p)
  {
    var seen: set<V> := {};
    var i := 0;
    while i < |p|
      invariant 0 <= i <= |p|
      invariant seen == set j | 0 <= j < i :: p[j].value
      invariant Distinct(Objects(p)[..i])
    {
      if p[i].value in seen {
        var j :| 0 <= j < i && p[j].value == p[i].value;
        assert Objects(p)[j] == Objects(p)[i];
        return false;
      }
      seen := seen + {p[i].value};
      i := i + 1;
    }
    assert Objects(p)[..i] == Objects(p);
    return true;
  }

  /** Extending keeps a path simple exactly when the new value is not already on
      it; the labels given play no part. */
  lemma SimpleExtend<V>(p: Path<V>, v: V, labels: seq<string>)
    ensures Simple(Extend(p, v, labels)) <==> Simple(p) && v !in Objects(p)
  {
    var r := Extend(p, v, labels);
    assert Objects(r) == Objects(p) + [v];
  }

  // ---------------------------------------------------------------------------
  // Retraction
  // ---------------------------------------------------------------------------

  /** An entry survives retraction of `s` unless it had labels and all were in `s`. */
  predicate Survives<V>(e: Entry<V>, s: set<string>) {
    |e.labels| == 0 || exists l | l in e.labels :: l !in s
  }

  /** What one entry becomes under retraction of `s`: the entry without those
      labels, or nothing when it does not survive. */
  function Retracted<V>(e: Entry<V>, s: set<string>): (r: Path<V>)
    ensures |r| == 1 <==> Survives(e, s)
    ensures |r| <= 1
    ensures |r| == 1 ==> r[0].value == e.value && forall l :: l in r[0].labels <==> l in e.labels && l !in s
  {
    if Survives(e, s) then [Entry(e.value, Without(e.labels, s))] else []
  }

  /** `retract(s)`: removes the labels of `s` from every entry and drops the
      entries left without labels by that removal. */
  function Retract<V>(p: Path<V>, s: set<string>): (r: Path<V>)
    ensures |r| <= |p|
    ensures WellFormed(p) ==> WellFormed(r)
  {
    if |p| == 0 then []
    else
      var e := p[0];
      var head := Retracted(e, s);
      var rest := Retract(p[1..], s);
      assert WellFormed(p) ==> WellFormed(p[1..]) by {
        assert forall j | 1 <= j < |p| :: p[j] == p[1..][j - 1];
      }
      assert forall j | |head| <= j < |head + rest| :: (head + rest)[j] == rest[j - |head|];
      head + rest
  }

  /** No retracted label is left anywhere on the path. */
  lemma {:induction false} RetractRemovesLabels<V>(p: Path<V>, s: set<string>, l: string)
    requires l in s
    ensures !HasLabel(Retract(p, s), l)
    decreases |p|
  {
    if |p| > 0 {
      RetractRemovesLabels(p[1..], s, l);
    }
  }

  /** The selection of every label outside `s` is unchanged by retraction. */
  lemma {:induction false} RetractKeepsOtherLabels<V>(p: Path<V>, s: set<string>, l: string)
    requires l !in s
    ensures ValuesOf(Retract(p, s), l) == ValuesOf(p, l)
    decreases |p|
  {
    if |p| > 0 {
      var e := p[0];
      var head := Retracted(e, s);
      var rest := Retract(p[1..], s);
      assert Retract(p, s) == head + rest;
      RetractKeepsOtherLabels(p[1..], s, l);
      ValuesOfPrepend(head, rest, l);
      if l in e.labels {
        assert Survives(e, s);
      }
    }
  }

  /** Selecting over a short prefix of entries followed by a path. */
  lemma ValuesOfPrepend<V>(head: Path<V>, rest: Path<V>, l: string)
    requires |head| <= 1
    ensures ValuesOf(head + rest, l)
         == (if |head| == 1 && l in head[0].labels then [head[0].value] else []) + ValuesOf(rest, l)
  {
    if |head| == 1 {
      assert (head + rest)[1..] == rest;
    } else {
      assert head + rest == rest;
    }
  }

  /** Retracting labels the path does not carry leaves it as it was. */
  lemma {:induction false} RetractAbsentIsIdentity<V>(p: Path<V>, s: set<string>)
    requires forall l | l in s :: !HasLabel(p, l)
    ensures Retract(p, s) == p
    decreases |p|
  {
    if |p| > 0 {
      var e := p[0];
      forall l | l in e.labels ensures l !in s {
        assert l in p[0].labels;
      }
      EntryUntouched(e, s);
      forall l | l in s ensures !HasLabel(p[1..], l) {
        forall j | 0 <= j < |p| - 1 ensures l !in p[1..][j].labels {
          assert p[1..][j] == p[j + 1];
        }
      }
      RetractAbsentIsIdentity(p[1..], s);
      assert [e] + p[1..] == p;
    }
  }

  /** An entry none of whose labels is retracted survives unchanged. */
  lemma EntryUntouched<V>(e: Entry<V>, s: set<string>)
    requires forall l | l in e.labels :: l !in s
    ensures Survives(e, s)
    ensures Without(e.labels, s) == e.labels
  {
    if |e.labels| > 0 {
      assert e.labels[0] in e.labels;
    }
  }

  /** Retraction works entry by entry: the retraction of two paths joined is the
      two retractions joined, so surviving entries keep their relative order and
      nothing is invented, moved or merged. */
  lemma {:induction false} RetractAppend<V>(p: Path<V>, q: Path<V>, s: set<string>)
    ensures Retract(p + q, s) == Retract(p, s) + Retract(q, s)
    decreases |p|
  {
    if |p| == 0 {
      assert p + q == q;
    } else {
      assert (p + q)[0] == p[0];
      assert (p + q)[1..] == p[1..] + q;
      RetractAppend(p[1..], q, s);
    }
  }

  /** Retracting a path extended by `e` is retracting the path, then `e`. */
  lemma RetractSnoc<V>(p: Path<V>, e: Entry<V>, s: set<string>)
    ensures Retract(p + [e], s) == Retract(p, s) + Retracted(e, s)
  {
    RetractAppend(p, [e], s);
    assert [e][1..] == [];
  }

  /** Where a surviving entry lands: entry `i` survives as itself without the
      retracted labels, moved forward by the number of entries dropped before it. */
  lemma RetractPosition<V>(p: Path<V>, s: set<string>, i: int)
    requires 0 <= i < |p| && Survives(p[i], s)
    ensures var k := i - CountDropped(p[..i], s);
            0 <= k < |Retract(p, s)| && Retract(p, s)[k] == Entry(p[i].value, Without(p[i].labels, s))
  {
    var front, back := p[..i], p[i + 1..];
    assert p == front + ([p[i]] + back);
    RetractAppend(front, [p[i]] + back, s);
    RetractAppend([p[i]], back, s);
    assert [p[i]][1..] == [];
    RetractSize(front, s);
    assert |front| == i;
  }

  /** The number of entries retraction keeps: all but the dropped ones. */
  lemma {:induction false} RetractSize<V>(p: Path<V>, s: set<string>)
    ensures |Retract(p, s)| == |p| - CountDropped(p, s)
    decreases |p|
  {
    if |p| > 0 {
      RetractSize(p[1..], s);
    }
  }

  /** The number of entries whose every label lies in `s`. */
  function CountDropped<V>(p: Path<V>, s: set<string>): (n: nat)
    ensures n <= |p|
  {
    if |p| == 0 then 0
    else (if Survives(p[0], s) then 0 else 1) + CountDropped(p[1..], s)
  }

  // ---------------------------------------------------------------------------
  // Sub-paths
  // ---------------------------------------------------------------------------

  /** `fi` is where a sub-path starts: 0 without a label, else the label's last carrier. */
  ghost predicate ResolvesFrom<V>(p: Path<V>, from: Option<string>, fi: int) {
    if from.None? then fi == 0
    else 0 <= fi < |p| && from.value in p[fi].labels
         && forall j | fi < j < |p| :: from.value !in p[j].labels
  }

  /** `ti` is where a sub-path ends: the last index without a label, else the label's last carrier. */
  ghost predicate ResolvesTo<V>(p: Path<V>, to: Option<string>, ti: int) {
    if to.None? then ti == |p| - 1
    else 0 <= ti < |p| && to.value in p[ti].labels
         && forall j | ti < j < |p| :: to.value !in p[j].labels
  }

  /** `subPath(from, to)`: the contiguous run of entries between the last carrier of
      `from` and the last carrier of `to`, both included, label sets intact. */
  function SubPath<V>(p: Path<V>, from: Option<string>, to: Option<string>): (r: Result<Path<V>, PathError>)
    ensures r.Ok? ==> exists fi, ti :: ResolvesFrom(p, from, fi) && ResolvesTo(p, to, ti)
                                       && 0 <= fi <= ti < |p| && r.value == p[fi..ti + 1]
    ensures (r.Err? && r.error.SubPathFromLabelNotFound?) <==> from.Some? && !HasLabel(p, from.value)
    ensures (r.Err? && r.error.SubPathToLabelNotFound?)
        <==> (from.None? || HasLabel(p, from.value)) && to.Some? && !HasLabel(p, to.value)
    ensures r.Err? && r.error.SubPathOutOfOrder? ==>
              exists fi, ti :: ResolvesFrom(p, from, fi) && ResolvesTo(p, to, ti) && fi > ti
    ensures r.Err? ==> r.error.SubPathFromLabelNotFound? || r.error.SubPathToLabelNotFound?
                       || r.error.SubPathOutOfOrder?
  {
    if from.Some? && !HasLabel(p, from.value) then Err(SubPathFromLabelNotFound(from.value))
    else if to.Some? && !HasLabel(p, to.value) then Err(SubPathToLabelNotFound(to.value))
    else
      var fi := if from.None? then 0 else LastIndexOf(p, from.value);
      var ti := if to.None? then |p| - 1 else LastIndexOf(p, to.value);
      assert ResolvesFrom(p, from, fi) && ResolvesTo(p, to, ti);
      if fi > ti then Err(SubPathOutOfOrder(from, to)) else Ok(p[fi..ti + 1])
  }

  /** A label resolves to at most one position, so a sub-path is determined by its labels. */
  lemma ResolvesUnique<V>(p: Path<V>, from: Option<string>, to: Option<string>, f1: int, f2: int, t1: int, t2: int)
    requires ResolvesFrom(p, from, f1) && ResolvesFrom(p, from, f2)
    requires ResolvesTo(p, to, t1) && ResolvesTo(p, to, t2)
    ensures f1 == f2 && t1 == t2
  {
  }

  /** The values of a sub-path are the matching slice of the path's values. */
  lemma SubPathObjects<V>(p: Path<V>, from: Option<string>, to: Option<string>)
    requires SubPath(p, from, to).Ok?
    ensures exists fi, ti :: ResolvesFrom(p, from, fi) && ResolvesTo(p, to, ti) && 0 <= fi <= ti < |p|
                             && Objects(SubPath(p, from, to).value) == Objects(p)[fi..ti + 1]
  {
    var fi, ti :| ResolvesFrom(p, from, fi) && ResolvesTo(p, to, ti)
                  && 0 <= fi <= ti < |p| && SubPath(p, from, to).value == p[fi..ti + 1];
    assert Objects(p[fi..ti + 1]) == Objects(p)[fi..ti + 1];
  }

  // ---------------------------------------------------------------------------
  // Equality
  // ---------------------------------------------------------------------------

  /** Path equality: the same values in order and, entry by entry, the same labels as sets. */
  function PathEquals<V(==)>(p: Path<V>, q: Path<V>): (r: bool)
    ensures r ==> Objects(p) == Objects(q) && LabelsOf(p) == LabelsOf(q)
  {
    |p| == |q| && forall i | 0 <= i < |p| :: p[i].value == q[i].value && SameLabels(p[i].labels, q[i].labels)
  }

  lemma PathEqualsIsEquivalence<V>(p: Path<V>, q: Path<V>, o: Path<V>)
    ensures PathEquals(p, p)
    ensures PathEquals(p, q) ==> PathEquals(q, p)
    ensures PathEquals(p, q) && PathEquals(q, o) ==> PathEquals(p, o)
  {
  }

  /** Equal paths select the same values under every label. */
  lemma {:induction false} PathEqualsSameValues<V>(p: Path<V>, q: Path<V>, l: string)
    requires PathEquals(p, q)
    ensures ValuesOf(p, l) == ValuesOf(q, l)
    decreases |p|
  {
    if |p| > 0 {
      assert PathEquals(p[1..], q[1..]) by {
        assert forall j | 0 <= j < |p| - 1 :: p[1..][j] == p[j + 1] && q[1..][j] == q[j + 1];
      }
      PathEqualsSameValues(p[1..], q[1..], l);
    }
  }

  /** Extending or retracting equal paths the same way gives equal paths, so paths
      whose label sets were filled in different orders cannot be told apart. */
  lemma PathEqualsCongruence<V>(p: Path<V>, q: Path<V>, v: V, labels: seq<string>)
    requires PathEquals(p, q)
    ensures PathEquals(Extend(p, v, labels), Extend(q, v, labels))
    ensures PathEquals(ExtendLabels(p, labels), ExtendLabels(q, labels))
  {
    var r, t := Extend(p, v, labels), Extend(q, v, labels);
    forall i | 0 <= i < |r| ensures r[i].value == t[i].value && SameLabels(r[i].labels, t[i].labels) {
      if i < |p| {
        assert r[i] == r[..|p|][i] && t[i] == t[..|q|][i];
      }
    }
    if |p| > 0 {
      var r', t' := ExtendLabels(p, labels), ExtendLabels(q, labels);
      forall i | 0 <= i < |r'| ensures r'[i].value == t'[i].value && SameLabels(r'[i].labels, t'[i].labels) {
        assert Objects(r')[i] == Objects(p)[i] && Objects(t')[i] == Objects(q)[i];
      }
    }
  }

  lemma SameLabelsSurvive<V>(a: Entry<V>, b: Entry<V>, s: set<string>)
    requires SameLabels(a.labels, b.labels)
    ensures Survives(a, s) <==> Survives(b, s)
  {
    if |a.labels| > 0 {
      assert a.labels[0] in b.labels;
    }
    if |b.labels| > 0 {
      assert b.labels[0] in a.labels;
    }
  }

  /** Retracting the same labels from equal paths gives equal paths. */
  lemma {:induction false} PathEqualsRetract<V>(p: Path<V>, q: Path<V>, s: set<string>)
    requires PathEquals(p, q)
    ensures PathEquals(Retract(p, s), Retract(q, s))
    decreases |p|
  {
    if |p| > 0 {
      assert PathEquals(p[1..], q[1..]) by {
        assert forall j | 0 <= j < |p| - 1 :: p[1..][j] == p[j + 1] && q[1..][j] == q[j + 1];
      }
      PathEqualsRetract(p[1..], q[1..], s);
      RetractedEquals(p[0], q[0], s);
      PathEqualsConcat(Retracted(p[0], s), Retract(p[1..], s), Retracted(q[0], s), Retract(q[1..], s));
    }
  }

  /** Entries with the same value and label set retract alike. */
  lemma RetractedEquals<V>(a: Entry<V>, b: Entry<V>, s: set<string>)
    requires a.value == b.value && SameLabels(a.labels, b.labels)
    ensures PathEquals(Retracted(a, s), Retracted(b, s))
  {
    SameLabelsSurvive(a, b, s);
  }

  /** Path equality is kept by joining equal paths. */
  lemma PathEqualsConcat<V>(p: Path<V>, p': Path<V>, q: Path<V>, q': Path<V>)
    requires PathEquals(p, q) && PathEquals(p', q')
    ensures PathEquals(p + p', q + q')
  {
    forall i | 0 <= i < |p + p'|
      ensures (p + p')[i].value == (q + q')[i].value && SameLabels((p + p')[i].labels, (q + q')[i].labels)
    {
      if i >= |p| {
        assert (p + p')[i] == p'[i - |p|] && (q + q')[i] == q'[i - |q|];
      }
    }
  }

  /** Java's list hash over 32-bit ints: h = 31 * h + hash(v), starting from 1. */
  function ListHash<V>(vs: seq<V>, hash: V -> int): (h: int)
    ensures -0x8000_0000 <= h < 0x8000_0000
  {
    if |vs| == 0 then 1
    else Wrap32(31 * ListHash(vs[..|vs| - 1], hash) + hash(vs[|vs| - 1]))
  }

  /** Two's-complement truncation to 32 bits. */
  function Wrap32(x: int): (r: int)
    ensures -0x8000_0000 <= r < 0x8000_0000
    ensures (r - x) % 0x1_0000_0000 == 0
  {
    (x + 0x8000_0000) % 0x1_0000_0000 - 0x8000_0000
  }

  /** A path hash computed from the values, so that it agrees with `PathEquals`. */
  function HashCode<V>(p: Path<V>, hash: V -> int): (h: int)
    ensures -0x8000_0000 <= h < 0x8000_0000
    ensures |p| == 0 ==> h == 1
  {
    ListHash(Objects(p), hash)
  }

  /** Equal paths have equal hashes. */
  lemma PathEqualsSameHash<V>(p: Path<V>, q: Path<V>, hash: V -> int)
    requires PathEquals(p, q)
    ensures HashCode(p, hash) == HashCode(q, hash)
  {
    assert Objects(p) == Objects(q);
  }

  // ---------------------------------------------------------------------------
  // Pop equality
  // ---------------------------------------------------------------------------

  /** `popEquals(pop, other)`: for every label of either path, both paths make
      the same `pop` selection (an absent label selecting as absent). */
  function PopEquals<V(==)>(pop: Pop, p: Path<V>, q: Path<V>): (r: bool)
    ensures r ==> LabelsOf(p) == LabelsOf(q)
  {
    var agree := forall l | l in LabelsOf(p) + LabelsOf(q) :: GetPop(pop, p, l) == GetPop(pop, q, l);
    if agree then AgreementKeepsLabels(pop, p, q); true else false
  }

  /** Selections that agree on every label of either path see the same labels. */
  lemma AgreementKeepsLabels<V>(pop: Pop, p: Path<V>, q: Path<V>)
    requires forall l | l in LabelsOf(p) + LabelsOf(q) :: GetPop(pop, p, l) == GetPop(pop, q, l)
    ensures LabelsOf(p) == LabelsOf(q)
  {
    forall l | l in LabelsOf(p) + LabelsOf(q) ensures HasLabel(p, l) == HasLabel(q, l) {
      var a, b := GetPop(pop, p, l), GetPop(pop, q, l);
      assert a == b;
      if pop == All {
        assert |ValuesOf(p, l)| == |ValuesOf(q, l)|;
      }
    }
  }

  /** Pop equality means agreement under every label whatsoever. */
  lemma PopEqualsEverywhere<V>(pop: Pop, p: Path<V>, q: Path<V>)
    ensures PopEquals(pop, p, q) <==> forall l :: GetPop(pop, p, l) == GetPop(pop, q, l)
  {
    if PopEquals(pop, p, q) {
      forall l ensures GetPop(pop, p, l) == GetPop(pop, q, l) {
        if l !in LabelsOf(p) + LabelsOf(q) {
          assert !HasLabel(p, l) && !HasLabel(q, l);
        }
      }
    }
  }

  /** Pop equality is reflexive and symmetric. */
  lemma PopEqualsReflexiveSymmetric<V>(pop: Pop, p: Path<V>, q: Path<V>)
    ensures PopEquals(pop, p, p)
    ensures PopEquals(pop, p, q) ==> PopEquals(pop, q, p)
  {
  }

  /** Agreeing on every full selection implies agreeing on first and last ones. */
  lemma PopAllImpliesFirstLast<V>(p: Path<V>, q: Path<V>)
    requires PopEquals(All, p, q)
    ensures PopEquals(First, p, q) && PopEquals(Last, p, q)
  {
    forall l | l in LabelsOf(p) + LabelsOf(q)
      ensures GetPop(First, p, l) == GetPop(First, q, l) && GetPop(Last, p, l) == GetPop(Last, q, l)
    {
      assert GetPop(All, p, l) == GetPop(All, q, l);
      assert ValuesOf(p, l) == ValuesOf(q, l);
    }
  }

  /** Equal paths are pop-equal under every pop. */
  lemma PathEqualsImpliesPopEquals<V>(pop: Pop, p: Path<V>, q: Path<V>)
    requires PathEquals(p, q)
    ensures PopEquals(pop, p, q)
  {
    forall l | l in LabelsOf(p) + LabelsOf(q) ensures GetPop(pop, p, l) == GetPop(pop, q, l) {
      PathEqualsSameValues(p, q, l);
    }
  }
}
