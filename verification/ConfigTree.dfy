/** The configuration tree (`embloader/src/configfile`) as an ordered value, and what merging two trees
    means (`merge.c`). */
module ConfigTree {
  import opened Wrappers

  /** `Real` holds the representation of a floating-point number, which nothing here looks into. */
  datatype Value = Text(s: string) | Integer(i: int) | Real(bits: nat) | Boolean(b: bool)

  datatype Tree = Null | Leaf(value: Value) | Array(items: seq<Tree>) | Map(entries: seq<Entry>)

  datatype Entry = Entry(key: string, tree: Tree)

  // ------------------------------------------------------------- the entries of a map

  predicate UniqueKeys(es: seq<Entry>) {
    forall i, j :: 0 <= i < j < |es| ==> es[i].key != es[j].key
  }

  /** Keys are unique in every map. */
  predicate WellFormed(t: Tree) {
    match t
    case Null => true
    case Leaf(_) => true
    case Array(items) => forall k :: 0 <= k < |items| ==> WellFormed(items[k])
    case Map(entries) => UniqueKeys(entries) && forall k :: 0 <= k < |entries| ==> WellFormed(entries[k].tree)
  }

  function Keys(es: seq<Entry>): (ks: seq<string>)
    ensures |ks| == |es| && forall k :: 0 <= k < |es| ==> ks[k] == es[k].key
  {
    if es == [] then [] else [es[0].key] + Keys(es[1..])
  }

  /** The position of a key. */
  function Find(es: seq<Entry>, key: string): (r: Option<nat>)
    ensures r.Some? ==> r.value < |es| && es[r.value].key == key && forall k :: 0 <= k < r.value ==> es[k].key != key
    ensures r.None? ==> forall k :: 0 <= k < |es| ==> es[k].key != key
  {
    if es == [] then None
    else if es[0].key == key then Some(0)
    else
      match Find(es[1..], key)
      case None => None
      case Some(k) => assert forall j :: 0 < j <= k ==> es[j] == es[1..][j - 1]; Some(k + 1)
  }

  function Get(es: seq<Entry>, key: string): Option<Tree> {
    match Find(es, key)
    case None => None
    case Some(k) => Some(es[k].tree)
  }

  /** `confignode_map_set`: the entry of the key is replaced, or a new one comes last. */
  function Put(es: seq<Entry>, key: string, tree: Tree): (r: seq<Entry>)
    ensures UniqueKeys(es) ==> UniqueKeys(r)
  {
    match Find(es, key)
    case None => es + [Entry(key, tree)]
    case Some(k) => es[k := Entry(key, tree)]
  }

  lemma FindUnique(es: seq<Entry>, k: nat)
    requires UniqueKeys(es) && k < |es|
    ensures Find(es, es[k].key) == Some(k)
  {
  }

  lemma GetPut(es: seq<Entry>, key: string, tree: Tree, other: string)
    requires UniqueKeys(es)
    ensures Get(Put(es, key, tree), other) == if other == key then Some(tree) else Get(es, other)
  {
    hide Find;
    var r := Put(es, key, tree);
    if other == key {
      match Find(es, key) {
        case None => FindUnique(r, |es|);
        case Some(k) => FindUnique(r, k);
      }
    } else {
      match Find(es, other) {
        case None => assert forall k :: 0 <= k < |r| ==> r[k].key != other;
        case Some(k) => assert r[k].key == other; FindUnique(r, k);
      }
    }
  }

  lemma KeysPut(es: seq<Entry>, key: string, tree: Tree)
    ensures Keys(Put(es, key, tree)) == if Find(es, key).None? then Keys(es) + [key] else Keys(es)
  {
    hide Find, Keys;
    var r := Put(es, key, tree);
    assert |Keys(r)| == |r| && |Keys(es)| == |es|;
    forall k | 0 <= k < |es| ensures Keys(r)[k] == Keys(es)[k] {}
  }

  /** Entries are determined by the order of their keys and by what each key holds. */
  lemma SameEntries(a: seq<Entry>, b: seq<Entry>)
    requires UniqueKeys(a) && UniqueKeys(b) && Keys(a) == Keys(b)
    requires forall k :: 0 <= k < |a| ==> Get(a, a[k].key) == Get(b, a[k].key)
    ensures a == b
  {
    assert |a| == |Keys(a)| == |b|;
    forall k | 0 <= k < |a| ensures a[k] == b[k] {
      assert Keys(a)[k] == Keys(b)[k];
      FindUnique(a, k);
      FindUnique(b, k);
    }
  }

  // ------------------------------------------------------------- merging

  /** `confignode_merge`: maps are merged key by key, arrays are appended, anything else is replaced. */
  function Merge(a: Tree, b: Tree): Tree
    decreases b, 0
  {
    if a.Map? && b.Map? then Map(MergeEntries(a.entries, b.entries))
    else if a.Array? && b.Array? then Array(a.items + b.items)
    else b
  }

  function MergeEntry(prior: Option<Tree>, tree: Tree): Tree
    decreases tree, 1
  {
    if prior.Some? then Merge(prior.value, tree) else tree
  }

  /** The loop over the source's entries. */
  function MergeEntries(a: seq<Entry>, b: seq<Entry>): seq<Entry>
    decreases b
  {
    if b == [] then a
    else MergeEntries(Put(a, b[0].key, MergeEntry(Get(a, b[0].key), b[0].tree)), b[1..])
  }

  /** What a key holds after the merge: the one tree that has it, or the merge of both. */
  function Merged(x: Option<Tree>, y: Option<Tree>): Option<Tree> {
    if y.None? then x else Some(MergeEntry(x, y.value))
  }

  /** The keys of `ks` that are not in `prior`. */
  function NewKeys(ks: seq<string>, prior: seq<string>): (r: seq<string>)
    ensures forall k :: k in r <==> k in ks && k !in prior
  {
    if ks == [] then [] else (if ks[0] in prior then [] else [ks[0]]) + NewKeys(ks[1..], prior)
  }

  lemma InKeys(es: seq<Entry>, key: string)
    ensures key in Keys(es) <==> Find(es, key).Some?
  {
    hide Find;
    match Find(es, key) {
      case Some(k) => assert Keys(es)[k] == key;
      case None =>
    }
  }

  lemma {:induction false} MergeUnique(a: seq<Entry>, b: seq<Entry>)
    requires UniqueKeys(a)
    ensures UniqueKeys(MergeEntries(a, b))
    decreases |b|
  {
    hide UniqueKeys, MergeEntry, Put, Get;
    if b != [] { MergeUnique(Put(a, b[0].key, MergeEntry(Get(a, b[0].key), b[0].tree)), b[1..]); }
  }

  lemma {:induction false} MergeKeys(a: seq<Entry>, b: seq<Entry>)
    requires UniqueKeys(b)
    ensures Keys(MergeEntries(a, b)) == Keys(a) + NewKeys(Keys(b), Keys(a))
    decreases |b|
  {
    hide Find, UniqueKeys, MergeEntry, Put, Get, Keys, NewKeys;
    KeysCons(b);
    if b == [] {
      NoNewKeys(Keys(a));
    } else {
      var key, rest := b[0].key, b[1..];
      var tree := MergeEntry(Get(a, key), b[0].tree);
      UniqueRest(b);
      MergeKeys(Put(a, key, tree), rest);
      KeysPut(a, key, tree);
      InKeys(a, key);
      OneKey(Keys(a), key, Keys(rest));
    }
  }

  lemma KeysCons(es: seq<Entry>)
    ensures Keys(es) == if es == [] then [] else [es[0].key] + Keys(es[1..])
  {
  }

  lemma NoNewKeys(prior: seq<string>)
    ensures prior + NewKeys([], prior) == prior
  {
  }

  lemma OneKey(prior: seq<string>, key: string, ks: seq<string>)
    requires key !in ks
    ensures var p := if key in prior then prior else prior + [key];
      p + NewKeys(ks, p) == prior + NewKeys([key] + ks, prior)
  {
    hide NewKeys;
    NewKeysCons(key, ks, prior);
    var n := NewKeys(ks, prior);
    if key in prior {
      assert [] + n == n;
    } else {
      Regroup(prior, [key], n);
    }
  }

  lemma Regroup<T>(a: seq<T>, b: seq<T>, c: seq<T>)
    ensures a + b + c == a + (b + c)
  {
  }

  lemma NewKeysCons(key: string, ks: seq<string>, prior: seq<string>)
    requires key !in ks
    ensures NewKeys([key] + ks, prior) == (if key in prior then [] else [key]) + NewKeys(ks, prior)
    ensures NewKeys(ks, prior + [key]) == NewKeys(ks, prior)
  {
    assert ([key] + ks)[1..] == ks;
    NewKeysGrow(ks, prior, key);
  }

  lemma {:induction false} MergeGet(a: seq<Entry>, b: seq<Entry>, k: string)
    requires UniqueKeys(a) && UniqueKeys(b)
    ensures Get(MergeEntries(a, b), k) == Merged(Get(a, k), Get(b, k))
    decreases |b|
  {
    hide UniqueKeys, MergeEntry, Put, Get;
    if b == [] {
      GetNone(b, k);
    } else {
      var tree := MergeEntry(Get(a, b[0].key), b[0].tree);
      UniqueRest(b);
      MergeGet(Put(a, b[0].key, tree), b[1..], k);
      GetPut(a, b[0].key, tree, k);
      GetCons(b, k);
    }
  }

  /** The merge of two maps: it has the target's keys in their order, then the new ones in theirs, and
      under each key what `Merged` says. */
  lemma MergeEntriesIs(a: seq<Entry>, b: seq<Entry>)
    requires UniqueKeys(a) && UniqueKeys(b)
    ensures UniqueKeys(MergeEntries(a, b))
    ensures Keys(MergeEntries(a, b)) == Keys(a) + NewKeys(Keys(b), Keys(a))
    ensures forall k :: Get(MergeEntries(a, b), k) == Merged(Get(a, k), Get(b, k))
  {
    hide *;
    MergeUnique(a, b);
    MergeKeys(a, b);
    forall k ensures Get(MergeEntries(a, b), k) == Merged(Get(a, k), Get(b, k)) { MergeGet(a, b, k); }
  }

  lemma GetNone(es: seq<Entry>, k: string)
    requires es == []
    ensures Get(es, k).None?
  {
  }

  lemma UniqueRest(es: seq<Entry>)
    requires UniqueKeys(es) && es != []
    ensures UniqueKeys(es[1..]) && es[0].key !in Keys(es[1..]) && Get(es[1..], es[0].key).None?
  {
    forall k | 0 <= k < |es[1..]| ensures es[1..][k].key != es[0].key {}
  }

  lemma GetCons(es: seq<Entry>, k: string)
    requires UniqueKeys(es) && es != []
    ensures Get(es, k) == if k == es[0].key then Some(es[0].tree) else Get(es[1..], k)
  {
  }

  lemma {:induction false} NewKeysGrow(ks: seq<string>, prior: seq<string>, key: string)
    requires key !in ks
    ensures NewKeys(ks, prior + [key]) == NewKeys(ks, prior)
  {
    if ks != [] { NewKeysGrow(ks[1..], prior, key); }
  }

  /** Merging keeps keys unique at every level. */
  lemma {:induction false} MergeWellFormed(a: Tree, b: Tree)
    requires WellFormed(a) && WellFormed(b)
    ensures WellFormed(Merge(a, b))
    decreases b
  {
    if a.Map? && b.Map? {
      var m := MergeEntries(a.entries, b.entries);
      MergeEntriesIs(a.entries, b.entries);
      forall i | 0 <= i < |m| ensures WellFormed(m[i].tree) {
        FindUnique(m, i);
        var key := m[i].key;
        assert Get(m, key) == Merged(Get(a.entries, key), Get(b.entries, key));
        MergedWellFormed(a, b, key);
      }
    }
  }

  lemma {:induction false} MergedWellFormed(a: Tree, b: Tree, key: string)
    requires WellFormed(a) && WellFormed(b) && a.Map? && b.Map?
    ensures var r := Merged(Get(a.entries, key), Get(b.entries, key)); r.Some? ==> WellFormed(r.value)
    decreases b, 0
  {
    var x, y := Find(a.entries, key), Find(b.entries, key);
    if x.Some? && y.Some? { MergeWellFormed(a.entries[x.value].tree, b.entries[y.value].tree); }
  }

  /** Merging arrays puts the items of the second behind those of the first; where the kinds differ, the second
      tree takes the place of the first. */
  lemma MergeItems(a: Tree, b: Tree, i: nat)
    ensures a.Array? && b.Array? ==> var r := Merge(a, b);
      && r.Array? && |r.items| == |a.items| + |b.items|
      && (i < |a.items| ==> r.items[i] == a.items[i])
      && (|a.items| <= i < |r.items| ==> r.items[i] == b.items[i - |a.items|])
    ensures !(a.Array? && b.Array?) && !(a.Map? && b.Map?) ==> Merge(a, b) == b
  {
  }

  // ------------------------------------------------------------- associativity

  /** Merging `b` into `a` leaves nothing of `a` but what `b` starts with. */
  predicate Absorbed(a: Tree, b: Tree)
    decreases b
  {
    (a.Map? && b.Map? ==> |a.entries| <= |b.entries| && forall k :: 0 <= k < |a.entries| ==>
      a.entries[k].key == b.entries[k].key && Absorbed(a.entries[k].tree, b.entries[k].tree)) &&
    (a.Array? && b.Array? ==> a.items == [])
  }

  /** Nowhere does a tree of another kind stand between two maps, or between two arrays, that merging
      would otherwise bring together and change. */
  predicate Bridged(a: Tree, b: Tree, c: Tree)
    decreases c
  {
    (a.Map? && c.Map? && !b.Map? ==> Absorbed(a, c)) &&
    (a.Map? && b.Map? && c.Map? ==> forall k :: 0 <= k < |c.entries| ==>
      var x, y := Get(a.entries, c.entries[k].key), Get(b.entries, c.entries[k].key);
      x.Some? && y.Some? ==> Bridged(x.value, y.value, c.entries[k].tree)) &&
    (a.Array? && c.Array? && !b.Array? ==> a.items == [])
  }

  lemma {:induction false} NewKeysOnly(p: seq<string>, ks: seq<string>)
    requires forall k :: k in ks ==> k !in p
    ensures NewKeys(ks, p) == ks
  {
    if ks != [] { NewKeysOnly(p, ks[1..]); }
  }

  lemma {:induction false} NewKeysKnown(p: seq<string>, ks: seq<string>)
    requires forall k :: k in ks ==> k in p
    ensures NewKeys(ks, p) == []
  {
    if ks != [] { NewKeysKnown(p, ks[1..]); }
  }

  /** Keys that start with known ones. */
  lemma KeysBehind(es: seq<Entry>, n: nat)
    requires UniqueKeys(es) && n <= |es|
    ensures Keys(es)[..n] + NewKeys(Keys(es), Keys(es)[..n]) == Keys(es)
  {
    hide *;
    var p, q := Keys(es)[..n], Keys(es)[n..];
    assert Keys(es) == p + q;
    KeysApart(es, n);
    NewBehind(p, q);
  }

  lemma KeysApart(es: seq<Entry>, n: nat)
    requires UniqueKeys(es) && n <= |es|
    ensures forall k :: k in Keys(es)[n..] ==> k !in Keys(es)[..n]
  {
    hide Keys;
  }

  lemma NewBehind(p: seq<string>, q: seq<string>)
    requires forall k :: k in q ==> k !in p
    ensures p + NewKeys(p + q, p) == p + q
  {
    hide *;
    NewKeysAppend(p, q, p);
    NewKeysKnown(p, p);
    NewKeysOnly(p, q);
    assert [] + q == q;
  }

  lemma {:induction false} MergeAbsorbed(a: Tree, b: Tree)
    requires WellFormed(a) && WellFormed(b)
    ensures Merge(a, b) == b <==> Absorbed(a, b)
    decreases b
  {
    hide Get, UniqueKeys, MergeEntries;
    if a.Map? && b.Map? {
      var x, y := a.entries, b.entries;
      var m := MergeEntries(x, y);
      MergeEntriesIs(x, y);
      forall k | 0 <= k < |x| && k < |y| && x[k].key == y[k].key
        ensures Get(m, y[k].key) == Some(y[k].tree) <==> Absorbed(x[k].tree, y[k].tree)
      {
        GetUnique(x, k);
        GetUnique(y, k);
        MergeAbsorbed(x[k].tree, y[k].tree);
      }
      if m == y { StartsWith(x, y); } else if Absorbed(a, b) { NothingNew(x, y); }
    } else if a.Array? && b.Array? {
      if a.items != [] { assert |a.items + b.items| > |b.items|; } else { assert [] + b.items == b.items; }
    }
  }

  lemma GetUnique(es: seq<Entry>, k: nat)
    requires UniqueKeys(es) && k < |es|
    ensures Get(es, es[k].key) == Some(es[k].tree)
  {
    FindUnique(es, k);
  }

  /** A merge that gives just the merged entries: they start with the keys merged into. */
  lemma StartsWith(x: seq<Entry>, y: seq<Entry>)
    requires UniqueKeys(x) && UniqueKeys(y) && MergeEntries(x, y) == y
    ensures |x| <= |y|
    ensures forall k :: 0 <= k < |x| ==> x[k].key == y[k].key && Get(y, y[k].key) == Some(y[k].tree)
  {
    hide *;
    MergeEntriesIs(x, y);
    assert |Keys(x)| <= |Keys(y)|;
    forall k | 0 <= k < |x| ensures x[k].key == y[k].key && Get(y, y[k].key) == Some(y[k].tree) {
      assert Keys(y)[k] == Keys(x)[k];
      GetUnique(y, k);
    }
  }

  lemma NothingNew(x: seq<Entry>, y: seq<Entry>)
    requires UniqueKeys(x) && UniqueKeys(y) && |x| <= |y|
    requires forall k :: 0 <= k < |x| ==>
      x[k].key == y[k].key && Get(MergeEntries(x, y), y[k].key) == Some(y[k].tree)
    ensures MergeEntries(x, y) == y
  {
    hide *;
    var m := MergeEntries(x, y);
    MergeEntriesIs(x, y);
    assert Keys(x) == Keys(y)[..|x|];
    KeysBehind(y, |x|);
    forall k | 0 <= k < |m| ensures Get(m, m[k].key) == Get(y, m[k].key) {
      assert Keys(m)[k] == Keys(y)[k];
      GetUnique(y, k);
      if k >= |x| {
        NoKey(x, y, k);
        MergedInto(Get(y, y[k].key));
      }
    }
    SameEntries(m, y);
  }

  lemma MergedInto(y: Option<Tree>)
    ensures Merged(None, y) == y
  {
  }

  lemma NoKey(x: seq<Entry>, y: seq<Entry>, k: nat)
    requires UniqueKeys(y) && |x| <= k < |y| && forall i :: 0 <= i < |x| ==> x[i].key == y[i].key
    ensures Get(x, y[k].key).None?
  {
  }

  /** Trees whose kinds agree wherever they share a path. */
  predicate Agree(a: Tree, b: Tree)
    decreases b
  {
    (a.Map? <==> b.Map?) && (a.Array? <==> b.Array?) &&
    (b.Map? ==> forall k :: 0 <= k < |b.entries| ==>
      var x := Get(a.entries, b.entries[k].key); x.Some? ==> Agree(x.value, b.entries[k].tree))
  }

  lemma {:induction false} AgreeBridged(a: Tree, b: Tree, c: Tree)
    requires Agree(a, b) && Agree(b, c) && Agree(a, c)
    ensures Bridged(a, b, c)
    decreases c
  {
    if a.Map? && c.Map? {
      forall k | 0 <= k < |c.entries|
        ensures var x, y := Get(a.entries, c.entries[k].key), Get(b.entries, c.entries[k].key);
          x.Some? && y.Some? ==> Bridged(x.value, y.value, c.entries[k].tree)
      {
        var key := c.entries[k].key;
        var x, y := Find(a.entries, key), Find(b.entries, key);
        if x.Some? && y.Some? {
          AgreeBridged(a.entries[x.value].tree, b.entries[y.value].tree, c.entries[k].tree);
        }
      }
    }
  }

  lemma {:induction false} NewKeysAppend(ks: seq<string>, ls: seq<string>, prior: seq<string>)
    ensures NewKeys(ks + ls, prior) == NewKeys(ks, prior) + NewKeys(ls, prior)
  {
    if ks == [] {
      assert ks + ls == ls;
    } else {
      assert (ks + ls)[1..] == ks[1..] + ls;
      NewKeysAppend(ks[1..], ls, prior);
    }
  }

  lemma {:induction false} NewKeysTwice(ks: seq<string>, b: seq<string>, a: seq<string>)
    ensures NewKeys(NewKeys(ks, b), a) == NewKeys(ks, a + NewKeys(b, a))
  {
    if ks != [] {
      var rest := NewKeys(ks[1..], b);
      NewKeysTwice(ks[1..], b, a);
      if ks[0] in b {
        assert [] + rest == rest;
      } else {
        assert ([ks[0]] + rest)[1..] == rest;
      }
    }
  }

  /** Merging is associative on exactly such trees. */
  lemma {:induction false} MergeAssociative(a: Tree, b: Tree, c: Tree)
    requires WellFormed(a) && WellFormed(b) && WellFormed(c)
    ensures Merge(Merge(a, b), c) == Merge(a, Merge(b, c)) <==> Bridged(a, b, c)
    decreases c
  {
    if a.Map? && b.Map? && c.Map? {
      MapsAssociative(a, b, c);
    } else if a.Array? && b.Array? && c.Array? {
      assert a.items + b.items + c.items == a.items + (b.items + c.items);
    } else {
      hide Absorbed;
      MergeAbsorbed(a, c);
      if a.Array? && c.Array? { AbsorbedArrays(a, c); }
    }
  }

  lemma AbsorbedArrays(a: Tree, b: Tree)
    requires a.Array? && b.Array?
    ensures Absorbed(a, b) <==> a.items == []
  {
  }

  lemma {:induction false} MapsAssociative(a: Tree, b: Tree, c: Tree)
    requires WellFormed(a) && WellFormed(b) && WellFormed(c) && a.Map? && b.Map? && c.Map?
    ensures Merge(Merge(a, b), c) == Merge(a, Merge(b, c)) <==> Bridged(a, b, c)
    decreases c, 1
  {
    hide MergeEntries, Keys, NewKeys, Bridged, BridgedAt, Find;
    var x, y, z := a.entries, b.entries, c.entries;
    var xy, yz := MergeEntries(x, y), MergeEntries(y, z);
    MergeEntriesIs(x, y);
    MergeEntriesIs(y, z);
    MergeEntriesIs(xy, z);
    MergeEntriesIs(x, yz);
    var l, r := MergeEntries(xy, z), MergeEntries(x, yz);
    KeysAssociative(Keys(x), Keys(y), Keys(z));
    forall k | 0 <= k < |z|
      ensures Get(l, z[k].key) == Get(r, z[k].key) <==> BridgedAt(a, b, c, k)
    {
      FindUnique(z, k);
      EntryAssociative(a, b, c, k);
    }
    if forall k :: 0 <= k < |z| ==> BridgedAt(a, b, c, k) {
      forall k | 0 <= k < |l| ensures Get(l, l[k].key) == Get(r, l[k].key) {
        if Get(z, l[k].key).Some? {
          var i := Find(z, l[k].key).value;
          assert BridgedAt(a, b, c, i);
        }
      }
      SameEntries(l, r);
    }
    BridgedMaps(a, b, c);
  }

  /** The condition for one key of three maps. */
  predicate BridgedAt(a: Tree, b: Tree, c: Tree, k: nat)
    requires a.Map? && b.Map? && c.Map? && k < |c.entries|
  {
    var x, y := Get(a.entries, c.entries[k].key), Get(b.entries, c.entries[k].key);
    x.Some? && y.Some? ==> Bridged(x.value, y.value, c.entries[k].tree)
  }

  lemma BridgedMaps(a: Tree, b: Tree, c: Tree)
    requires a.Map? && b.Map? && c.Map?
    ensures Bridged(a, b, c) <==> forall k :: 0 <= k < |c.entries| ==> BridgedAt(a, b, c, k)
  {
    if Bridged(a, b, c) {
      forall k | 0 <= k < |c.entries| ensures BridgedAt(a, b, c, k) {}
    }
    if forall k :: 0 <= k < |c.entries| ==> BridgedAt(a, b, c, k) {
      forall k | 0 <= k < |c.entries|
        ensures var x, y := Get(a.entries, c.entries[k].key), Get(b.entries, c.entries[k].key);
          x.Some? && y.Some? ==> Bridged(x.value, y.value, c.entries[k].tree)
      {
        assert BridgedAt(a, b, c, k);
      }
    }
  }

  lemma KeysAssociative(x: seq<string>, y: seq<string>, z: seq<string>)
    ensures (x + NewKeys(y, x)) + NewKeys(z, x + NewKeys(y, x)) == x + NewKeys(y + NewKeys(z, y), x)
  {
    hide NewKeys;
    NewKeysAppend(y, NewKeys(z, y), x);
    NewKeysTwice(z, y, x);
    Regroup(x, NewKeys(y, x), NewKeys(z, x + NewKeys(y, x)));
  }

  lemma {:induction false} EntryAssociative(a: Tree, b: Tree, c: Tree, k: nat)
    requires WellFormed(a) && WellFormed(b) && WellFormed(c) && a.Map? && b.Map? && c.Map? && k < |c.entries|
    ensures var x, y, z := Get(a.entries, c.entries[k].key), Get(b.entries, c.entries[k].key), Some(c.entries[k].tree);
      Merged(Merged(x, y), z) == Merged(x, Merged(y, z)) <==> BridgedAt(a, b, c, k)
    decreases c, 0
  {
    var x, y := Find(a.entries, c.entries[k].key), Find(b.entries, c.entries[k].key);
    if x.Some? && y.Some? {
      MergeAssociative(a.entries[x.value].tree, b.entries[y.value].tree, c.entries[k].tree);
    }
  }

  /** Not so on all trees: a plain value between two maps makes the difference. */
  lemma NotAssociative()
    ensures var a, b, c := Map([Entry("k", Null)]), Null, Map([Entry("l", Null)]);
      WellFormed(a) && WellFormed(b) && WellFormed(c) && !Bridged(a, b, c) &&
      Merge(Merge(a, b), c) != Merge(a, Merge(b, c))
  {
    var a, c := Map([Entry("k", Null)]), Map([Entry("l", Null)]);
    MergeEntriesIs(a.entries, c.entries);
    assert Keys(a.entries) == ["k"];
    assert Keys(MergeEntries(a.entries, c.entries))[0] == "k";
    assert Keys(c.entries)[0] == "l";
  }

  /** An empty map changes nothing on either side. */
  lemma MergeNothing(t: Tree)
    requires t.Map? && WellFormed(t)
    ensures Merge(t, Map([])) == t && Merge(Map([]), t) == t
  {
    var es := t.entries;
    MergeEntriesIs([], es);
    var m := MergeEntries([], es);
    assert forall k :: Get([], k).None?;
    AllNew(Keys(es));
    assert Keys([]) == [];
    SameEntries(m, es);
  }

  lemma {:induction false} AllNew(ks: seq<string>)
    ensures NewKeys(ks, []) == ks
  {
    if ks != [] { AllNew(ks[1..]); }
  }
}
