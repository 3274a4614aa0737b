/** The tree side-effect step: each traverser's path is inserted into a nested
    map (a trie) kept in the traversal's side effects, after passing the path's
    objects through a ring of branch functions. */
module TreeSteps {
  import opened Wrappers

  /** A tree node: each key maps to the subtree below it. */
  datatype Tree<K> = Tree(children: map<K, Tree<K>>)

  function EmptyTree<K>(): (t: Tree<K>)
    ensures |t.children| == 0
  {
    Tree(map[])
  }

  /** `keys` is a chain of nested keys starting at the root of `t`. */
  predicate Has<K>(t: Tree<K>, keys: seq<K>)
    decreases |keys|
  {
    |keys| == 0 || (keys[0] in t.children && Has(t.children[keys[0]], keys[1..]))
  }

  predicate IsPrefix<K(==)>(q: seq<K>, keys: seq<K>) {
    |q| <= |keys| && keys[..|q|] == q
  }

  // ---------------------------------------------------------------------------
  // Insertion of one chain of keys
  // ---------------------------------------------------------------------------

  /** Walks down `keys`, creating a child only where the key is absent. */
  function Insert<K>(t: Tree<K>, keys: seq<K>): (r: Tree<K>)
    ensures |keys| == 0 ==> r == t
    ensures |keys| > 0 ==> r.children.Keys == t.children.Keys + {keys[0]}
    ensures forall k | k in t.children && (|keys| == 0 || k != keys[0]) :: r.children[k] == t.children[k]
    decreases |keys|
  {
    if |keys| == 0 then t
    else
      var child := if keys[0] in t.children then t.children[keys[0]] else EmptyTree();
      Tree(t.children[keys[0] := Insert(child, keys[1..])])
  }

  /** After the insertion every prefix of `keys` is a chain of the tree. */
  lemma {:induction false} InsertHas<K>(t: Tree<K>, keys: seq<K>)
    ensures Has(Insert(t, keys), keys)
    decreases |keys|
  {
    if |keys| > 0 {
      var child := if keys[0] in t.children then t.children[keys[0]] else EmptyTree();
      InsertHas(child, keys[1..]);
      assert Insert(t, keys).children[keys[0]] == Insert(child, keys[1..]);
    }
  }

  /** Inserting a chain that is already there changes nothing: a present child is
      never replaced. */
  lemma {:induction false} InsertPresent<K>(t: Tree<K>, keys: seq<K>)
    requires Has(t, keys)
    ensures Insert(t, keys) == t
    decreases |keys|
  {
    if |keys| > 0 {
      var child := t.children[keys[0]];
      InsertPresent(child, keys[1..]);
      assert t.children[keys[0] := child] == t.children;
    }
  }

  /** So consuming the same chain twice is the same as consuming it once. */
  lemma InsertIdempotent<K>(t: Tree<K>, keys: seq<K>)
    ensures Insert(Insert(t, keys), keys) == Insert(t, keys)
  {
    InsertHas(t, keys);
    InsertPresent(Insert(t, keys), keys);
  }

  /** The chains of the new tree are exactly the old chains and the prefixes of
      `keys`: nothing is removed and nothing else is added. */
  lemma {:induction false} InsertChains<K>(t: Tree<K>, keys: seq<K>, q: seq<K>)
    ensures Has(Insert(t, keys), q) <==> Has(t, q) || IsPrefix(q, keys)
    decreases |keys|
  {
    if |keys| > 0 && |q| > 0 {
      PrefixCons(q, keys);
      if q[0] == keys[0] {
        var child := if keys[0] in t.children then t.children[keys[0]] else EmptyTree();
        InsertChains(child, keys[1..], q[1..]);
        InsertChainsAlong(t, keys, q);
      } else {
        InsertChainsBeside(t, keys, q);
      }
    } else if |keys| > 0 {
      assert IsPrefix(q, keys);
    }
  }

  /** A non-empty prefix starts with the same key and continues as a prefix. */
  lemma PrefixCons<K>(q: seq<K>, keys: seq<K>)
    requires |q| > 0 && |keys| > 0
    ensures IsPrefix(q, keys) <==> q[0] == keys[0] && IsPrefix(q[1..], keys[1..])
  {
    if q[0] == keys[0] && IsPrefix(q[1..], keys[1..]) {
      assert keys[..|q|] == [keys[0]] + keys[1..][..|q| - 1];
      assert q == [q[0]] + q[1..];
    }
    if IsPrefix(q, keys) {
      assert q[0] == keys[..|q|][0];
      assert keys[1..][..|q| - 1] == keys[..|q|][1..];
    }
  }

  /** The step of `InsertChains` for a chain that follows the inserted key. */
  lemma InsertChainsAlong<K>(t: Tree<K>, keys: seq<K>, q: seq<K>)
    requires |keys| > 0 && |q| > 0 && q[0] == keys[0]
    requires var child := if keys[0] in t.children then t.children[keys[0]] else EmptyTree();
             Has(Insert(child, keys[1..]), q[1..]) <==> Has(child, q[1..]) || IsPrefix(q[1..], keys[1..])
    ensures Has(Insert(t, keys), q) <==> Has(t, q) || IsPrefix(q[1..], keys[1..])
  {
    var child := if keys[0] in t.children then t.children[keys[0]] else EmptyTree();
    var r := Insert(t, keys);
    assert r.children[q[0]] == Insert(child, keys[1..]);
    assert Has(r, q) <==> Has(Insert(child, keys[1..]), q[1..]);
    if keys[0] !in t.children {
      EmptyHasOnlyRoot(q[1..]);
    }
  }

  /** The step of `InsertChains` for a chain that leaves the root by another key. */
  lemma InsertChainsBeside<K>(t: Tree<K>, keys: seq<K>, q: seq<K>)
    requires |keys| > 0 && |q| > 0 && q[0] != keys[0]
    ensures Has(Insert(t, keys), q) <==> Has(t, q)
  {
    var r := Insert(t, keys);
    assert q[0] in r.children <==> q[0] in t.children;
    if q[0] in t.children {
      assert r.children[q[0]] == t.children[q[0]];
    }
  }

  /** The empty tree holds no chain but the empty one. */
  lemma EmptyHasOnlyRoot<K>(q: seq<K>)
    ensures Has(EmptyTree(), q) <==> |q| == 0
  {
  }

  // ---------------------------------------------------------------------------
  // The ring of branch functions
  // ---------------------------------------------------------------------------

  /** Branch functions applied in turn, one per path position; `current` is the
      position of the next function to hand out. With no functions the ring
      hands out the identity. */
  datatype FunctionRing<!V> = FunctionRing(functions: seq<V -> V>, current: nat)

  predicate RingValid<V>(ring: FunctionRing<V>) {
    if |ring.functions| == 0 then ring.current == 0 else ring.current < |ring.functions|
  }

  /** The function at position `pos` applied to `x`; the identity when the ring
      is empty. */
  function Branch<V>(functions: seq<V -> V>, pos: nat, x: V): V {
    if pos < |functions| then functions[pos](x) else x
  }

  /** The position after `pos` in a ring of `size` functions. */
  function Succ(size: nat, pos: nat): nat {
    if pos + 1 < size then pos + 1 else 0
  }

  /** The position reached after `turns` calls of `next()` from `start`. */
  function TurnFrom(size: nat, start: nat, turns: nat): (pos: nat)
    ensures (size == 0 || start < size) ==> (size == 0 ==> pos == 0) && (size > 0 ==> pos < size)
  {
    if turns == 0 then (if size == 0 then 0 else start) else Succ(size, TurnFrom(size, start, turns - 1))
  }

  /** Started from the first function, the ring hands out function `i mod size`
      at turn `i`: it is a cycle through the functions in order. */
  lemma {:induction false} TurnFromFirst(size: nat, turns: nat)
    requires size > 0
    ensures TurnFrom(size, 0, turns) == turns % size
  {
    if turns > 0 {
      TurnFromFirst(size, turns - 1);
      ModSucc(turns - 1, size);
    }
  }

  /** One more turn moves the remainder on by one, wrapping at `m`. */
  lemma ModSucc(n: nat, m: nat)
    requires m > 0
    ensures Succ(m, n % m) == (n + 1) % m
  {
    var q := n / m;
    var r := n % m;
    assert n == q * m + r;
    if r + 1 < m {
      assert n + 1 == q * m + (r + 1);
      DivMod(n + 1, m, q, r + 1);
    } else {
      assert n + 1 == (q + 1) * m + 0;
      DivMod(n + 1, m, q + 1, 0);
    }
  }

  /** The remainder is determined by any quotient-remainder decomposition. */
  lemma DivMod(a: nat, m: nat, q: nat, r: nat)
    requires m > 0 && r < m && a == q * m + r
    ensures a % m == r
  {
    var q' := a / m;
    var r' := a % m;
    assert a == q' * m + r';
    if q' < q {
      MulMonotone(q', q, m);
    } else if q' > q {
      MulMonotone(q, q', m);
    }
  }

  lemma MulMonotone(x: nat, y: nat, m: nat)
    requires x < y
    ensures x * m + m <= y * m
  {
    var d := y - x;
    assert y * m == x * m + d * m;
    assert d * m == (d - 1) * m + m;
  }

  /** `next().apply(x)`: the current function applied to `x`, and the ring moved
      on by one. */
  function ApplyNext<V>(ring: FunctionRing<V>, x: V): (r: (V, FunctionRing<V>))
    requires RingValid(ring)
    ensures RingValid(r.1) && r.1.functions == ring.functions
    ensures r.0 == Branch(ring.functions, ring.current, x)
    ensures r.1.current == Succ(|ring.functions|, ring.current)
  {
    if |ring.functions| == 0 then (x, ring)
    else (ring.functions[ring.current](x), ring.(current := Succ(|ring.functions|, ring.current)))
  }

  /** `reset()`: the next function handed out is the first one. */
  function ResetRing<V>(ring: FunctionRing<V>): (r: FunctionRing<V>)
    ensures RingValid(r) && r.functions == ring.functions && r.current == 0
  {
    ring.(current := 0)
  }

  /** The keys a ring standing at `start` makes of `path`: the object at `i` goes
      through the function reached after `i` turns. */
  function RingKeys<V>(functions: seq<V -> V>, start: nat, path: seq<V>): (keys: seq<V>)
    ensures |keys| == |path|
    decreases |path|
  {
    if |path| == 0 then []
    else
      var n := |path| - 1;
      RingKeys(functions, start, path[..n]) + [Branch(functions, TurnFrom(|functions|, start, n), path[n])]
  }

  /** Each key is its object sent through the function of its turn. */
  lemma {:induction false} RingKeysAt<V>(functions: seq<V -> V>, start: nat, path: seq<V>, i: nat)
    requires i < |path|
    ensures RingKeys(functions, start, path)[i] == Branch(functions, TurnFrom(|functions|, start, i), path[i])
    decreases |path|
  {
    var n := |path| - 1;
    if i < n {
      RingKeysAt(functions, start, path[..n], i);
    }
  }

  /** From a reset ring, object `i` goes through function `i mod n` of the `n`
      branch functions: every path starts from the first function. */
  lemma FromFirstKeys<V>(functions: seq<V -> V>, path: seq<V>, i: nat)
    requires |functions| > 0 && i < |path|
    ensures RingKeys(functions, 0, path)[i] == functions[i % |functions|](path[i])
  {
    RingKeysAt(functions, 0, path, i);
    TurnFromFirst(|functions|, i);
  }

  /** With no branch functions the keys are the path's objects themselves. */
  lemma {:induction false} EmptyRingKeys<V>(start: nat, path: seq<V>)
    ensures RingKeys([], start, path) == path
    decreases |path|
  {
    if |path| > 0 {
      var n := |path| - 1;
      EmptyRingKeys(start, path[..n]);
      assert path[..n] + [path[n]] == path;
    }
  }

  /** Applies the ring's next function to each object of `path` in turn, as the
      consumer's loop does, returning the keys and the ring afterwards. */
  method ApplyRing<V>(ring: FunctionRing<V>, path: seq<V>) returns (keys: seq<V>, after: FunctionRing<V>)
    requires RingValid(ring)
    ensures keys == RingKeys(ring.functions, ring.current, path)
    ensures RingValid(after) && after.functions == ring.functions
    ensures after.current == TurnFrom(|ring.functions|, ring.current, |path|)
  {
    keys := [];
    after := ring;
    var i := 0;
    while i < |path|
      invariant 0 <= i <= |path|
      invariant RingValid(after) && after.functions == ring.functions
      invariant after.current == TurnFrom(|ring.functions|, ring.current, i)
      invariant keys == RingKeys(ring.functions, ring.current, path[..i])
    {
      var next := ApplyNext(after, path[i]);
      RingKeysSnoc(ring.functions, ring.current, path, i);
      keys := keys + [next.0];
      after := next.1;
      i := i + 1;
    }
    assert path[..|path|] == path;
  }

  /** One more object of the path adds its key at the end. */
  lemma RingKeysSnoc<V>(functions: seq<V -> V>, start: nat, path: seq<V>, i: nat)
    requires i < |path|
    ensures RingKeys(functions, start, path[..i + 1])
         == RingKeys(functions, start, path[..i]) + [Branch(functions, TurnFrom(|functions|, start, i), path[i])]
  {
    assert path[..i + 1][..i] == path[..i];
  }

  // ---------------------------------------------------------------------------
  // The step and its consumer
  // ---------------------------------------------------------------------------

  /** The traversal's side effects, as far as this step uses them: trees by key. */
  type SideEffects<V> = map<string, Tree<V>>

  datatype TreeStep<!V> = TreeStep(sideEffectKey: string, ring: FunctionRing<V>)

  /** The constructor: without a key of its own the step files its tree under
      its label. */
  function NewTreeStep<V>(sideEffectKey: Option<string>, stepLabel: string, branchFunctions: seq<V -> V>): (s: TreeStep<V>)
    ensures sideEffectKey.Some? ==> s.sideEffectKey == sideEffectKey.value
    ensures sideEffectKey.None? ==> s.sideEffectKey == stepLabel
    ensures RingValid(s.ring) && s.ring.current == 0 && s.ring.functions == branchFunctions
  {
    TreeStep(sideEffectKey.GetOr(stepLabel), FunctionRing(branchFunctions, 0))
  }

  /** `getOrCreate(key, Tree::new)`: the tree under `key`, or a new empty one
      registered there. */
  function GetOrCreate<V>(sideEffects: SideEffects<V>, key: string): (r: (Tree<V>, SideEffects<V>))
    ensures key in r.1 && r.1[key] == r.0
    ensures key in sideEffects ==> r.1 == sideEffects
    ensures key !in sideEffects ==> r.0 == EmptyTree() && r.1 == sideEffects[key := EmptyTree()]
  {
    if key in sideEffects then (sideEffects[key], sideEffects)
    else (EmptyTree(), sideEffects[key := EmptyTree()])
  }

  /** The side effects after the chain `keys` is inserted into the tree under
      `key`, created empty if it was missing. */
  function Record<V>(sideEffects: SideEffects<V>, key: string, keys: seq<V>): (r: SideEffects<V>)
    ensures key in r && r[key] == Insert(GetOrCreate(sideEffects, key).0, keys)
  {
    var created := GetOrCreate(sideEffects, key);
    created.1[key := Insert(created.0, keys)]
  }

  /** Recording adds `key` to the side effects and leaves every other entry as
      it was. */
  lemma RecordFrame<V>(sideEffects: SideEffects<V>, key: string, keys: seq<V>)
    ensures Record(sideEffects, key, keys).Keys == sideEffects.Keys + {key}
    ensures forall k | k in sideEffects && k != key :: Record(sideEffects, key, keys)[k] == sideEffects[k]
  {
  }

  /** The recorded tree holds the chain `keys`. */
  lemma RecordHas<V>(sideEffects: SideEffects<V>, key: string, keys: seq<V>)
    ensures Has(Record(sideEffects, key, keys)[key], keys)
  {
    InsertHas(GetOrCreate(sideEffects, key).0, keys);
  }

  /** An empty chain only creates the tree if it was missing. */
  lemma RecordEmpty<V>(sideEffects: SideEffects<V>, key: string)
    ensures Record(sideEffects, key, []) == GetOrCreate(sideEffects, key).1
  {
    var created := GetOrCreate(sideEffects, key);
    assert created.1[key := created.0] == created.1;
  }

  /** The consumer: insert the traverser's path, branch functions applied, into
      the step's tree; then reset the ring. */
  method Consume<V>(step: TreeStep<V>, sideEffects: SideEffects<V>, path: seq<V>)
    returns (step': TreeStep<V>, sideEffects': SideEffects<V>)
    requires RingValid(step.ring)
    ensures step'.sideEffectKey == step.sideEffectKey && step'.ring.functions == step.ring.functions
    ensures RingValid(step'.ring) && step'.ring.current == 0
    ensures sideEffects' == Record(sideEffects, step.sideEffectKey, RingKeys(step.ring.functions, step.ring.current, path))
    ensures sideEffects'.Keys == sideEffects.Keys + {step.sideEffectKey}
    ensures Has(sideEffects'[step.sideEffectKey], RingKeys(step.ring.functions, step.ring.current, path))
  {
    var keys, after := ApplyRing(step.ring, path);
    sideEffects' := Record(sideEffects, step.sideEffectKey, keys);
    RecordFrame(sideEffects, step.sideEffectKey, keys);
    RecordHas(sideEffects, step.sideEffectKey, keys);
    step' := step.(ring := ResetRing(after));
  }

  /** Recording the same chain twice is recording it once. */
  lemma RecordTwice<V>(sideEffects: SideEffects<V>, key: string, keys: seq<V>)
    ensures Record(Record(sideEffects, key, keys), key, keys) == Record(sideEffects, key, keys)
  {
    var once := Record(sideEffects, key, keys);
    InsertIdempotent(GetOrCreate(sideEffects, key).0, keys);
    assert once[key := once[key]] == once;
  }

  /** Because the ring is reset after each path, consuming the same path again
      leaves the side effects as the first consumption left them. */
  method ConsumeTwice<V>(step: TreeStep<V>, sideEffects: SideEffects<V>, path: seq<V>)
    returns (once: SideEffects<V>, twice: SideEffects<V>)
    requires RingValid(step.ring) && step.ring.current == 0
    ensures step.sideEffectKey in once && once.Keys == sideEffects.Keys + {step.sideEffectKey}
    ensures twice == once
  {
    var step1, step2;
    step1, once := Consume(step, sideEffects, path);
    step2, twice := Consume(step1, once, path);
    RecordTwice(sideEffects, step.sideEffectKey, RingKeys(step.ring.functions, 0, path));
  }

  /** `reset()` on the step: the ring starts again from its first function. */
  function Reset<V>(step: TreeStep<V>): (r: TreeStep<V>)
    ensures r.sideEffectKey == step.sideEffectKey && r.ring.functions == step.ring.functions
    ensures RingValid(r.ring) && r.ring.current == 0
  {
    step.(ring := ResetRing(step.ring))
  }
}
