/** The boot order: how systemd-boot entries are ranked (`embloader/src/sdboot/menu.c`) and how the menu
    is sorted by the ranks (`embloader/src/menu/menu.c`). */
module Menu {
  import opened Wrappers
  import opened Digits
  import opened Version
  import opened ListSort
  import opened List
  import opened Sizes


  datatype Loader = Loader(sortKey: Option<string>, machineId: Option<string>, version: Option<string>,
    name: Option<string>)

  /** An item of type systemd-boot; its own data may be missing. */
  type Entry = Option<Loader>

  // ------------------------------------------------------------- the comparison

  predicate HasKey(l: Loader) {
    l.sortKey.Some? && l.sortKey.value != ""
  }

  /** Texts that are not both there do not decide. */
  function CompareTexts(a: Option<string>, b: Option<string>): int {
    if a.Some? && b.Some? then CompareText(a.value, b.value) else 0
  }

  /** The newer version comes first. */
  function CompareVersions(a: Option<string>, b: Option<string>): int {
    if a.Some? && b.Some? then Compare(Tokens(b.value), Tokens(a.value)) else 0
  }

  function CompareKeyed(a: Loader, b: Loader): int
    requires HasKey(a) && HasKey(b)
  {
    var key := CompareTexts(a.sortKey, b.sortKey);
    var machine := CompareTexts(a.machineId, b.machineId);
    if key != 0 then key else if machine != 0 then machine else CompareVersions(a.version, b.version)
  }

  /** `sdboot_compare_entries`: negative if `a` comes first. */
  function CompareEntries(a: Entry, b: Entry): int {
    if a.None? || b.None? then 0
    else if HasKey(a.value) && !HasKey(b.value) then -1
    else if !HasKey(a.value) && HasKey(b.value) then 1
    else
      var c := if HasKey(a.value) then CompareKeyed(a.value, b.value) else 0;
      if c != 0 then c else CompareVersions(a.value.name, b.value.name)
  }

  // ------------------------------------------------------------- when it is an order

  /** Two entries that set the same optional fields, as far as they are compared. */
  predicate Alike(a: Entry, b: Entry) {
    a.Some? && b.Some? && a.value.name.Some? == b.value.name.Some? &&
    (HasKey(a.value) && HasKey(b.value) ==>
      a.value.machineId.Some? == b.value.machineId.Some? && a.value.version.Some? == b.value.version.Some?)
  }

  ghost predicate Uniform(es: seq<Entry>) {
    forall i, j :: 0 <= i < |es| && 0 <= j < |es| ==> Alike(es[i], es[j])
  }

  ghost predicate Ordered3(ab: int, ba: int, bc: int, ac: int) {
    ba == -ab && (ab <= 0 && bc <= 0 ==> ac <= 0) && (ab < 0 && bc <= 0 ==> ac < 0) && (ab <= 0 && bc < 0 ==> ac < 0) &&
    (ab == 0 && bc == 0 ==> ac == 0)
  }

  lemma TextsOrder(a: Option<string>, b: Option<string>, c: Option<string>)
    requires a.Some? == b.Some? == c.Some?
    ensures Ordered3(CompareTexts(a, b), CompareTexts(b, a), CompareTexts(b, c), CompareTexts(a, c))
  {
    hide CompareText;
    if a.Some? {
      TextOrder(a.value, b.value, c.value);
      TextOrder(b.value, c.value, a.value);
      TextOrder(c.value, a.value, b.value);
    }
  }

  lemma VersionsOrder(a: Option<string>, b: Option<string>, c: Option<string>)
    requires a.Some? == b.Some? == c.Some?
    ensures Ordered3(CompareVersions(a, b), CompareVersions(b, a), CompareVersions(b, c), CompareVersions(a, c))
  {
    hide Compare, Tokens;
    if a.Some? {
      var s, t, u := Tokens(a.value), Tokens(b.value), Tokens(c.value);
      Order(u, t, s);
      Order(t, s, u);
      Order(s, u, t);
    }
  }

  lemma KeyedOrder(a: Loader, b: Loader, c: Loader)
    requires HasKey(a) && HasKey(b) && HasKey(c)
    requires a.machineId.Some? == b.machineId.Some? == c.machineId.Some?
    requires a.version.Some? == b.version.Some? == c.version.Some?
    ensures Ordered3(CompareKeyed(a, b), CompareKeyed(b, a), CompareKeyed(b, c), CompareKeyed(a, c))
  {
    hide CompareTexts, CompareVersions;
    TextsOrder(a.sortKey, b.sortKey, c.sortKey);
    TextsOrder(a.machineId, b.machineId, c.machineId);
    VersionsOrder(a.version, b.version, c.version);
  }

  /** On entries that set the same fields the comparison is a strict weak order. */
  lemma EntriesOrder(a: Entry, b: Entry, c: Entry)
    requires Alike(a, b) && Alike(b, c) && Alike(a, c)
    ensures Ordered3(CompareEntries(a, b), CompareEntries(b, a), CompareEntries(b, c), CompareEntries(a, c))
  {
    hide CompareKeyed, CompareVersions;
    VersionsOrder(a.value.name, b.value.name, c.value.name);
    if HasKey(a.value) && HasKey(b.value) && HasKey(c.value) {
      KeyedOrder(a.value, b.value, c.value);
    } else if HasKey(a.value) && HasKey(b.value) {
      KeyedOrder(a.value, b.value, b.value);
    }
  }

  /** Swapping two entries turns the comparison round. */
  lemma Flip(a: Entry, b: Entry)
    ensures CompareEntries(b, a) == -CompareEntries(a, b)
  {
    hide CompareText, Compare, Tokens;
    if a.Some? && b.Some? {
      FlipVersions(a.value.name, b.value.name);
      FlipVersions(a.value.version, b.value.version);
      FlipTexts(a.value.sortKey, b.value.sortKey);
      FlipTexts(a.value.machineId, b.value.machineId);
    }
  }

  lemma FlipTexts(a: Option<string>, b: Option<string>)
    ensures CompareTexts(b, a) == -CompareTexts(a, b)
  {
    hide CompareText;
    if a.Some? && b.Some? { TextOrder(a.value, b.value, a.value); }
  }

  lemma FlipVersions(a: Option<string>, b: Option<string>)
    ensures CompareVersions(b, a) == -CompareVersions(a, b)
  {
    hide Compare, Tokens;
    if a.Some? && b.Some? { Order(Tokens(a.value), Tokens(b.value), Tokens(a.value)); }
  }

  ghost predicate Triple(es: seq<Entry>, i: nat, j: nat, k: nat)
    requires i < |es| && j < |es| && k < |es|
  {
    Ordered3(CompareEntries(es[i], es[j]), CompareEntries(es[j], es[i]), CompareEntries(es[j], es[k]),
      CompareEntries(es[i], es[k]))
  }

  /** The comparison is a strict weak order on the entries. */
  ghost predicate Weak(es: seq<Entry>) {
    forall i, j, k :: 0 <= i < |es| && 0 <= j < |es| && 0 <= k < |es| ==> Triple(es, i, j, k)
  }

  /** It is one where all entries set the same fields. */
  lemma UniformWeak(es: seq<Entry>)
    requires Uniform(es)
    ensures Weak(es)
  {
    hide CompareEntries, Alike;
    forall i, j, k | 0 <= i < |es| && 0 <= j < |es| && 0 <= k < |es| ensures Triple(es, i, j, k) {
      EntriesOrder(es[i], es[j], es[k]);
    }
  }

  /** The code does not meet this for all entries: of three entries with one sort key, of which one has
      no machine id, each can come before the next and the last before the first. */
  lemma MissingMachineCycle()
    ensures
      var a := Some(Loader(Some("k"), Some("1"), Some("1"), None));
      var b := Some(Loader(Some("k"), None, Some("2"), None));
      var c := Some(Loader(Some("k"), Some("2"), Some("3"), None));
      CompareEntries(a, c) < 0 && CompareEntries(c, b) < 0 && CompareEntries(b, a) < 0
  {
    assert CompareText("1", "2") == -1;
    Digit1("1", 1);
    Digit1("2", 2);
    Digit1("3", 3);
    OneNumber(1, 2);
    OneNumber(2, 3);
    OneNumber(1, 3);
  }

  lemma Digit1(s: string, n: nat)
    requires |s| == 1 && Digit(s[0]) && DigitValue(s[0]) == n
    ensures Tokens(s) == [Number(n)]
  {
    assert s[1..] == "" && s[..0] == "" && s[..1] == s;
    assert DigitRun(s[1..]) == 0;
    assert Numeric(s) == n;
  }

  lemma OneNumber(m: nat, n: nat)
    ensures Compare([Number(m)], [Number(n)]) == CompareNat(m, n)
  {
    assert [Number(m)][1..] == [] && [Number(n)][1..] == [];
  }

  // ------------------------------------------------------------- ranks

  /** The entries that the comparison puts before entry `i`. */
  ghost function Before(es: seq<Entry>, i: nat): set<nat>
    requires i < |es|
  {
    set j: nat | j < |es| && CompareEntries(es[i], es[j]) > 0
  }

  /** The priority of entry `i`: the offset plus the number of entries before it, up to the largest
      64-bit number. */
  ghost function Priority(es: seq<Entry>, i: nat, offset: int): int
    requires i < |es|
  {
    if offset + |Before(es, i)| <= INT64_MAX then offset + |Before(es, i)| else INT64_MAX
  }

  ghost function BeforeUpTo(es: seq<Entry>, i: nat, n: nat): set<nat>
    requires i < |es| && n <= |es|
  {
    set j: nat | j < n && CompareEntries(es[i], es[j]) > 0
  }

  lemma BeforeGrows(es: seq<Entry>, i: nat, n: nat)
    requires i < |es| && n < |es|
    ensures |BeforeUpTo(es, i, n + 1)| == |BeforeUpTo(es, i, n)| + if CompareEntries(es[i], es[n]) > 0 then 1 else 0
  {
    hide CompareEntries;
    if CompareEntries(es[i], es[n]) > 0 {
      assert BeforeUpTo(es, i, n + 1) == BeforeUpTo(es, i, n) + {n};
    } else {
      assert BeforeUpTo(es, i, n + 1) == BeforeUpTo(es, i, n);
    }
  }

  lemma NotBeforeSelf(e: Entry)
    ensures CompareEntries(e, e) == 0
  {
    hide CompareKeyed, CompareVersions;
    if e.Some? {
      VersionsOrder(e.value.name, e.value.name, e.value.name);
      if HasKey(e.value) { KeyedOrder(e.value, e.value, e.value); }
    }
  }

  /** The inner loop of `sdboot_items_prepare`. */
  method RankOne(es: seq<Entry>, i: nat, offset: int) returns (priority: int)
    requires i < |es| && offset <= INT64_MAX
    ensures priority == Priority(es, i, offset)
  {
    hide CompareEntries;
    priority := offset;
    for j := 0 to |es|
      invariant var n := offset + |BeforeUpTo(es, i, j)|; priority == if n <= INT64_MAX then n else INT64_MAX
    {
      BeforeGrows(es, i, j);
      NotBeforeSelf(es[i]);
      if j == i { continue; }
      var cmp := CompareEntries(es[i], es[j]);
      if cmp > 0 && priority < INT64_MAX { priority := priority + 1; }
    }
    assert BeforeUpTo(es, i, |es|) == Before(es, i);
  }

  /** `sdboot_items_prepare`: the priorities of all entries, and an offset for the automatic entries that
      puts them behind every one of these. */
  method Prepare(es: seq<Entry>, offset: int) returns (priorities: seq<int>, auto: int)
    requires INT64_MIN <= offset <= INT64_MAX
    ensures |priorities| == |es| && forall i :: 0 <= i < |es| ==> priorities[i] == Priority(es, i, offset)
    ensures 0 <= auto <= INT64_MAX && (auto < INT64_MAX ==> forall i :: 0 <= i < |es| ==> priorities[i] < auto)
    ensures auto == 0 || exists i :: 0 <= i < |es| && (auto == priorities[i] + 1 || auto == priorities[i] == INT64_MAX)
  {
    hide Priority;
    priorities, auto := [], 0;
    for k := 0 to |es|
      invariant |priorities| == k && forall i :: 0 <= i < k ==> priorities[i] == Priority(es, i, offset)
      invariant 0 <= auto <= INT64_MAX && (auto < INT64_MAX ==> forall i :: 0 <= i < k ==> priorities[i] < auto)
      invariant auto == 0 || exists i :: 0 <= i < k && (auto == priorities[i] + 1 || auto == priorities[i] == INT64_MAX)
    {
      ghost var was := priorities;
      var priority := RankOne(es, k, offset);
      AtMost(es, k, offset);
      priorities := priorities + [priority];
      assert forall i :: 0 <= i < k ==> priorities[i] == was[i];
      if priority >= auto {
        auto := priority;
        if auto < INT64_MAX { auto := auto + 1; }
        assert auto == priorities[k] + 1 || auto == priorities[k] == INT64_MAX;
      }
    }
  }

  lemma AtMost(es: seq<Entry>, i: nat, offset: int)
    requires i < |es| && offset <= INT64_MAX
    ensures offset <= Priority(es, i, offset) <= INT64_MAX
  {
  }

  lemma {:induction false} Below(s: set<nat>, n: nat)
    requires forall x :: x in s ==> x < n
    ensures |s| <= n
  {
    if n > 0 {
      Below(s - {n - 1}, n - 1);
    } else {
      assert s == {};
    }
  }

  lemma {:induction false} Fewer(s: set<nat>, t: set<nat>)
    requires s < t
    ensures |s| < |t|
    decreases |s|
  {
    if s != {} {
      var x :| x in s;
      var y :| y in t && y !in s;
      assert y in t - {x} && y !in s - {x};
      Fewer(s - {x}, t - {x});
    } else {
      var x :| x in t;
    }
  }

  /** Two entries compare as the numbers of entries before them do. */
  ghost predicate Agree(es: seq<Entry>, i: nat, j: nat)
    requires i < |es| && j < |es|
  {
    (CompareEntries(es[i], es[j]) < 0 <==> |Before(es, i)| < |Before(es, j)|) &&
    (CompareEntries(es[i], es[j]) == 0 <==> |Before(es, i)| == |Before(es, j)|)
  }

  /** Ranks order the entries as the comparison does exactly when that is a strict weak order. */
  lemma RanksCompare(es: seq<Entry>)
    ensures Weak(es) <==> forall i, j :: 0 <= i < |es| && 0 <= j < |es| ==> Agree(es, i, j)
  {
    hide CompareEntries, Before, Weak, Triple, Agree;
    if Weak(es) {
      forall i, j | 0 <= i < |es| && 0 <= j < |es| ensures Agree(es, i, j) { RankAgrees(es, i, j); }
    } else if forall i, j :: 0 <= i < |es| && 0 <= j < |es| ==> Agree(es, i, j) {
      forall i, j, k | 0 <= i < |es| && 0 <= j < |es| && 0 <= k < |es| ensures Triple(es, i, j, k) {
        AgreeTriple(es, i, j, k);
      }
      WeakIs(es);
    }
  }

  lemma WeakIs(es: seq<Entry>)
    ensures Weak(es) <==> forall i, j, k :: 0 <= i < |es| && 0 <= j < |es| && 0 <= k < |es| ==> Triple(es, i, j, k)
  {
    hide Triple;
  }

  lemma AgreeTriple(es: seq<Entry>, i: nat, j: nat, k: nat)
    requires i < |es| && j < |es| && k < |es| && Agree(es, i, j) && Agree(es, j, k) && Agree(es, i, k)
    ensures Triple(es, i, j, k)
  {
    hide CompareEntries, Before;
    Flip(es[i], es[j]);
  }

  lemma RankAgrees(es: seq<Entry>, i: nat, j: nat)
    requires Weak(es) && i < |es| && j < |es|
    ensures Agree(es, i, j)
  {
    hide CompareEntries, Before, Weak;
    Flip(es[i], es[j]);
    var c := CompareEntries(es[i], es[j]);
    if c < 0 { FewerBefore(es, i, j); }
    if c > 0 { FewerBefore(es, j, i); }
    if c == 0 { Level(es, i, j); }
  }

  lemma FewerBefore(es: seq<Entry>, i: nat, j: nat)
    requires Weak(es) && i < |es| && j < |es| && CompareEntries(es[i], es[j]) < 0
    ensures |Before(es, i)| < |Before(es, j)|
  {
    hide CompareEntries;
    Flip(es[i], es[j]);
    forall k | k in Before(es, i) ensures k in Before(es, j) {
      assert Triple(es, k, i, j);
      Flip(es[i], es[k]);
      Flip(es[j], es[k]);
    }
    NotBeforeSelf(es[i]);
    assert i in Before(es, j) && i !in Before(es, i);
    Fewer(Before(es, i), Before(es, j));
  }

  lemma Level(es: seq<Entry>, i: nat, j: nat)
    requires Weak(es) && i < |es| && j < |es| && CompareEntries(es[i], es[j]) == 0
    ensures |Before(es, i)| == |Before(es, j)|
  {
    hide CompareEntries;
    Flip(es[i], es[j]);
    forall k: nat | k < |es| ensures k in Before(es, i) <==> k in Before(es, j) {
      assert Triple(es, k, i, j) && Triple(es, k, j, i);
      Flip(es[i], es[k]);
      Flip(es[j], es[k]);
    }
    assert Before(es, i) == Before(es, j);
  }

  /** No priority but that of the largest rank reaches the largest 64-bit number. */
  ghost predicate Apart(es: seq<Entry>, offset: int) {
    forall i, j :: 0 <= i < |es| && 0 <= j < |es| ==> ApartAt(es, i, j, offset)
  }

  ghost predicate ApartAt(es: seq<Entry>, i: nat, j: nat, offset: int)
    requires i < |es| && j < |es|
  {
    |Before(es, i)| < |Before(es, j)| ==> offset + |Before(es, i)| < INT64_MAX
  }

  /** That is so of every offset that leaves room for all entries. */
  lemma RoomApart(es: seq<Entry>, offset: int)
    requires offset + |es| <= INT64_MAX
    ensures Apart(es, offset)
  {
    hide CompareEntries;
    forall i, j | 0 <= i < |es| && 0 <= j < |es| ensures ApartAt(es, i, j, offset) { Below(Before(es, j), |es|); }
  }

  /** Then priorities order the entries as their ranks do. */
  lemma PrioritiesRank(es: seq<Entry>, i: nat, j: nat, offset: int)
    requires i < |es| && j < |es| && Apart(es, offset)
    ensures Priority(es, i, offset) < Priority(es, j, offset) <==> |Before(es, i)| < |Before(es, j)|
  {
    hide CompareEntries, Before;
    assert ApartAt(es, i, j, offset) && ApartAt(es, j, i, offset);
  }

  /** Two entries compare as their priorities do. */
  ghost predicate Tells(es: seq<Entry>, i: nat, j: nat, offset: int)
    requires i < |es| && j < |es|
  {
    (CompareEntries(es[i], es[j]) < 0 <==> Priority(es, i, offset) < Priority(es, j, offset)) &&
    (CompareEntries(es[i], es[j]) == 0 <==> Priority(es, i, offset) == Priority(es, j, offset))
  }

  lemma TellsTriple(es: seq<Entry>, i: nat, j: nat, k: nat, offset: int)
    requires i < |es| && j < |es| && k < |es|
    requires Tells(es, i, j, offset) && Tells(es, j, k, offset) && Tells(es, i, k, offset)
    ensures Triple(es, i, j, k)
  {
    hide CompareEntries, Priority;
    Flip(es[i], es[j]);
  }

  /** If all entries compare as their priorities do, the comparison is a strict weak order, and no two
      ranks share a priority. */
  lemma TellsApart(es: seq<Entry>, offset: int)
    requires offset <= INT64_MAX
    requires forall i, j :: 0 <= i < |es| && 0 <= j < |es| ==> Tells(es, i, j, offset)
    ensures Weak(es) && Apart(es, offset)
  {
    hide CompareEntries, Before, Weak, Triple, Agree, Tells;
    forall i, j, k | 0 <= i < |es| && 0 <= j < |es| && 0 <= k < |es| ensures Triple(es, i, j, k) {
      TellsTriple(es, i, j, k, offset);
    }
    WeakIs(es);
    RanksCompare(es);
    forall i, j | 0 <= i < |es| && 0 <= j < |es| ensures ApartAt(es, i, j, offset) {
      assert Agree(es, i, j) && Tells(es, i, j, offset);
      Reached(es, i, j, offset);
    }
  }

  lemma Reached(es: seq<Entry>, i: nat, j: nat, offset: int)
    requires i < |es| && j < |es| && Agree(es, i, j) && Tells(es, i, j, offset)
    ensures ApartAt(es, i, j, offset)
  {
    hide CompareEntries, Before;
  }

  // ------------------------------------------------------------- the menu

  /** A menu item: its priority, and which systemd-boot entry it is, if it is one. */
  datatype Item = Item(priority: int, entry: Option<nat>)

  /** `loaders_sorter`. */
  function LoadersSorter(): (Option<Item>, Option<Item>) -> bool {
    (l1: Option<Item>, l2: Option<Item>) => l1.Some? && l2.Some? && l1.value.priority > l2.value.priority
  }

  lemma SorterAsymmetric(s: seq<Node<Option<Item>>>)
    ensures Asymmetric(ByData(LoadersSorter()), s)
  {
  }

  /** `embloader_sort_menu_loaders`: the menu becomes the stable ascending order of priorities. */
  method SortMenu(loaders: Node<Option<Item>>, ghost s: seq<Node<Option<Item>>>, ghost h: nat)
    returns (ghost r: seq<Node<Option<Item>>>)
    requires Linked(s) && h < |s| && s[h] == loaders
    modifies Nodes(s)
    ensures Linked(r) && r == Menu(s)
  {
    SorterAsymmetric(s);
    var passes;
    passes, r := Sort(loaders, LoadersSorter(), s, h);
  }

  /** The order of the menu after sorting. */
  ghost function Menu(s: seq<Node<Option<Item>>>): seq<Node<Option<Item>>> {
    SorterAsymmetric(s);
    Sorted(ByData(LoadersSorter()), s)
  }

  /** The items of the menu that are entries of `es` carry the priorities published for them. */
  ghost predicate Published(s: seq<Node<Option<Item>>>, es: seq<Entry>, offset: int) {
    forall k :: 0 <= k < |s| ==> s[k].data.Some? && Carries(s[k].data.value, es, offset)
  }

  ghost predicate Carries(x: Item, es: seq<Entry>, offset: int) {
    x.entry.Some? ==> x.entry.value < |es| && x.priority == Priority(es, x.entry.value, offset)
  }

  /** Two entries of the menu, the first one further up, compare as their priorities do. */
  ghost predicate Right(x: Item, y: Item, es: seq<Entry>) {
    x.entry.Some? && y.entry.Some? && x.entry.value < |es| && y.entry.value < |es| ==>
      var c := CompareEntries(es[x.entry.value], es[y.entry.value]);
      c <= 0 && (c < 0 <==> x.priority < y.priority)
  }

  ghost predicate InOrder(r: seq<Node<Option<Item>>>, es: seq<Entry>) {
    forall i, j :: 0 <= i < j < |r| && r[i].data.Some? && r[j].data.Some? ==>
      Right(r[i].data.value, r[j].data.value, es)
  }

  /** Every entry is in the menu. */
  ghost predicate Listed(s: seq<Node<Option<Item>>>, es: seq<Entry>) {
    forall e: nat :: e < |es| ==> HasEntry(s, e)
  }

  ghost predicate HasEntry(s: seq<Node<Option<Item>>>, e: nat) {
    exists k :: 0 <= k < |s| && IsEntry(s[k], e)
  }

  ghost predicate IsEntry(n: Node<Option<Item>>, e: nat) {
    n.data.Some? && n.data.value.entry == Some(e)
  }

  /** The boot order: the sorted menu holds the same items with ascending priorities, items of equal
      priority stay as they were, and the entries stand in the order of the entry comparison exactly if that
      is a strict weak order and no two ranks share a priority. */
  lemma BootOrder(s: seq<Node<Option<Item>>>, es: seq<Entry>, offset: int)
    requires Published(s, es, offset) && offset <= INT64_MAX
    ensures multiset(Menu(s)) == multiset(s) && Published(Menu(s), es, offset)
    ensures var r := Menu(s);
      forall i, j :: 0 <= i < j < |r| ==> r[i].data.value.priority <= r[j].data.value.priority
    ensures forall a, b :: a in s && b in s && Precedes(s, a, b) && a.data.value.priority <= b.data.value.priority ==>
      Precedes(Menu(s), a, b)
    ensures Weak(es) && Apart(es, offset) ==> InOrder(Menu(s), es)
    ensures Listed(s, es) && InOrder(Menu(s), es) ==> Weak(es) && Apart(es, offset)
  {
    hide Sorted, CompareEntries, Weak, Apart, Priority, Precedes, InOrder, Listed;
    var f, r := ByData(LoadersSorter()), Menu(s);
    SorterAsymmetric(s);
    MenuWeak(s, es, offset);
    SortedStable(f, s);
    SortedOrdered(f, s);
    SameMembers(s, r);
    assert Published(r, es, offset) by {
      forall k | 0 <= k < |r| ensures r[k] in s {}
    }
    forall i, j | 0 <= i < j < |r| ensures r[i].data.value.priority <= r[j].data.value.priority {
      assert !f(r[i], r[j]);
    }
    if Weak(es) && Apart(es, offset) { WeakInOrder(r, es, offset); }
    if Listed(s, es) && InOrder(r, es) {
      StillListed(s, r, es);
      InOrderWeak(r, es, offset);
    }
  }

  ghost predicate Ascends(r: seq<Node<Option<Item>>>) {
    forall i, j :: 0 <= i < j < |r| && r[i].data.Some? && r[j].data.Some? ==>
      r[i].data.value.priority <= r[j].data.value.priority
  }

  lemma WeakInOrder(r: seq<Node<Option<Item>>>, es: seq<Entry>, offset: int)
    requires Published(r, es, offset) && Ascends(r) && Weak(es) && Apart(es, offset)
    ensures InOrder(r, es)
  {
    hide CompareEntries, Weak, Priority, Apart;
    RanksCompare(es);
    forall i, j | 0 <= i < j < |r| ensures Right(r[i].data.value, r[j].data.value, es) {
      var x, y := r[i].data.value, r[j].data.value;
      if x.entry.Some? && y.entry.Some? {
        assert Agree(es, x.entry.value, y.entry.value);
        PrioritiesRank(es, x.entry.value, y.entry.value, offset);
        PrioritiesRank(es, y.entry.value, x.entry.value, offset);
      }
    }
  }

  lemma StillListed(s: seq<Node<Option<Item>>>, r: seq<Node<Option<Item>>>, es: seq<Entry>)
    requires Listed(s, es) && forall n :: n in s <==> n in r
    ensures Listed(r, es)
  {
    forall e: nat | e < |es| ensures HasEntry(r, e) {
      assert HasEntry(s, e);
      var k :| 0 <= k < |s| && IsEntry(s[k], e);
      assert s[k] in r;
    }
  }

  lemma InOrderWeak(r: seq<Node<Option<Item>>>, es: seq<Entry>, offset: int)
    requires Published(r, es, offset) && Ascends(r) && Listed(r, es) && InOrder(r, es) && offset <= INT64_MAX
    ensures Weak(es) && Apart(es, offset)
  {
    hide CompareEntries, Weak, Apart, Priority;
    forall e, d | 0 <= e < |es| && 0 <= d < |es| ensures Tells(es, e, d, offset) {
      assert HasEntry(r, e) && HasEntry(r, d);
      var i :| 0 <= i < |r| && IsEntry(r[i], e);
      var j :| 0 <= j < |r| && IsEntry(r[j], d);
      Flip(es[e], es[d]);
      NotBeforeSelf(es[e]);
      assert r[i].data.value.priority == Priority(es, e, offset) && r[j].data.value.priority == Priority(es, d, offset);
      if i < j { assert Right(r[i].data.value, r[j].data.value, es); }
      if j < i { assert Right(r[j].data.value, r[i].data.value, es); }
    }
    TellsApart(es, offset);
  }

  /** Entries that all set the same fields stand in their order if no two ranks share a priority. */
  lemma UniformOrder(s: seq<Node<Option<Item>>>, es: seq<Entry>, offset: int)
    requires Published(s, es, offset) && Uniform(es) && offset <= INT64_MAX
    ensures Apart(es, offset) ==> InOrder(Menu(s), es)
    ensures Listed(s, es) && InOrder(Menu(s), es) ==> Apart(es, offset)
  {
    hide *;
    UniformWeak(es);
    BootOrder(s, es, offset);
  }

  /** With the largest offset there is, all ranks share one priority: entries that differ do not stand in
      their order. */
  lemma LargestOffset(s: seq<Node<Option<Item>>>, es: seq<Entry>, i: nat, j: nat)
    requires Published(s, es, INT64_MAX) && Listed(s, es)
    requires i < |es| && j < |es| && CompareEntries(es[i], es[j]) < 0
    ensures !InOrder(Menu(s), es)
  {
    hide Sorted, CompareEntries, Weak, Apart, Published, Listed, InOrder, Before;
    BootOrder(s, es, INT64_MAX);
    if Weak(es) {
      RankAgrees(es, i, j);
      NotApart(es, i, j);
    }
  }

  lemma NotApart(es: seq<Entry>, i: nat, j: nat)
    requires i < |es| && j < |es| && |Before(es, i)| < |Before(es, j)|
    ensures !Apart(es, INT64_MAX)
  {
    hide Before;
    assert !ApartAt(es, i, j, INT64_MAX);
  }

  // ------------------------------------------------------------- the order, told from the fields

  /** The version is newer, by its tokens. */
  predicate Newer(a: string, b: string) {
    Compare(Tokens(a), Tokens(b)) > 0
  }

  predicate Keyed(l: Loader) {
    l.sortKey.Some? && |l.sortKey.value| > 0
  }

  /** A field decides for the first entry; both have to set it. */
  ghost predicate SmallerField(a: Option<string>, b: Option<string>) {
    a.Some? && b.Some? && Smaller(a.value, b.value)
  }

  predicate NewerField(a: Option<string>, b: Option<string>) {
    a.Some? && b.Some? && Newer(a.value, b.value)
  }

  /** The sorting of section "Sorting" of UAPI.1: entries with a sort key come first. Among them the smaller
      sort key decides, then the smaller machine id, then the newer version; where these do not decide, and
      among entries without a sort key, the newer name. */
  ghost predicate Earlier(a: Loader, b: Loader) {
    (Keyed(a) && !Keyed(b)) ||
    (Keyed(a) && Keyed(b) && KeyedEarlier(a, b)) ||
    (Keyed(a) == Keyed(b) && (Keyed(a) ==> !KeyedEarlier(a, b) && !KeyedEarlier(b, a)) && NewerField(a.name, b.name))
  }

  ghost predicate KeyedEarlier(a: Loader, b: Loader) {
    SmallerField(a.sortKey, b.sortKey) ||
    (!SmallerField(b.sortKey, a.sortKey) &&
      (SmallerField(a.machineId, b.machineId) ||
        (!SmallerField(b.machineId, a.machineId) && NewerField(a.version, b.version))))
  }

  lemma TextsTell(a: Option<string>, b: Option<string>)
    ensures CompareTexts(a, b) < 0 <==> SmallerField(a, b)
    ensures CompareTexts(a, b) > 0 <==> SmallerField(b, a)
  {
    hide CompareText, Smaller;
    if a.Some? && b.Some? {
      SmallerText(a.value, b.value);
      SmallerText(b.value, a.value);
      TextOrder(a.value, b.value, a.value);
    }
  }

  lemma VersionsTell(a: Option<string>, b: Option<string>)
    ensures CompareVersions(a, b) < 0 <==> NewerField(a, b)
    ensures CompareVersions(a, b) > 0 <==> NewerField(b, a)
  {
    hide Compare, Tokens;
    if a.Some? && b.Some? { Order(Tokens(a.value), Tokens(b.value), Tokens(a.value)); }
  }

  lemma KeyedTell(a: Loader, b: Loader)
    requires HasKey(a) && HasKey(b)
    ensures CompareKeyed(a, b) < 0 <==> KeyedEarlier(a, b)
    ensures CompareKeyed(a, b) > 0 <==> KeyedEarlier(b, a)
  {
    hide CompareTexts, CompareVersions, SmallerField, NewerField;
    TextsTell(a.sortKey, b.sortKey);
    TextsTell(a.machineId, b.machineId);
    VersionsTell(a.version, b.version);
  }

  /** The comparison tells which entry comes first by its fields. */
  lemma FieldsTell(a: Loader, b: Loader)
    ensures CompareEntries(Some(a), Some(b)) < 0 <==> Earlier(a, b)
  {
    hide CompareKeyed, CompareVersions, KeyedEarlier, NewerField;
    if HasKey(a) && HasKey(b) { KeyedTell(a, b); }
    VersionsTell(a.name, b.name);
  }

  /** An item of the menu that is an entry with such fields. */
  ghost predicate Has(n: Node<Option<Item>>, es: seq<Entry>, l: Loader) {
    n.data.Some? && n.data.value.entry.Some? && n.data.value.entry.value < |es| &&
    es[n.data.value.entry.value] == Some(l)
  }

  /** The boot order by the fields: in the sorted menu an entry that comes first by its fields stands further
      up, where the comparison is a strict weak order on the entries and no two ranks share a priority. */
  lemma FieldsOrder(s: seq<Node<Option<Item>>>, es: seq<Entry>, offset: int)
    requires Published(s, es, offset) && offset <= INT64_MAX && Weak(es) && Apart(es, offset)
    ensures var r := Menu(s); forall i, j, a, b ::
      0 <= i < |r| && 0 <= j < |r| && Has(r[i], es, a) && Has(r[j], es, b) && Earlier(a, b) ==> i < j
  {
    hide CompareEntries, Weak, Apart, Published, Earlier, Sorted, Precedes;
    BootOrder(s, es, offset);
    var r := Menu(s);
    forall i, j, a, b | 0 <= i < |r| && 0 <= j < |r| && Has(r[i], es, a) && Has(r[j], es, b) && Earlier(a, b)
      ensures i < j
    {
      FieldsTell(a, b);
      Flip(Some(a), Some(b));
      NotBeforeSelf(Some(a));
      NotBehind(r, es, i, j, a, b);
    }
  }

  lemma NotBehind(r: seq<Node<Option<Item>>>, es: seq<Entry>, i: nat, j: nat, a: Loader, b: Loader)
    requires InOrder(r, es) && i < |r| && j < |r| && Has(r[i], es, a) && Has(r[j], es, b)
    ensures j < i ==> CompareEntries(Some(b), Some(a)) <= 0
    ensures i == j ==> a == b
  {
    hide CompareEntries;
    if j < i { assert Right(r[j].data.value, r[i].data.value, es); }
  }

  /** So it is where all entries set the same fields and the offset leaves room for all of them. */
  lemma UniformFields(s: seq<Node<Option<Item>>>, es: seq<Entry>, offset: int)
    requires Published(s, es, offset) && Uniform(es) && offset + |es| <= INT64_MAX
    ensures var r := Menu(s); forall i, j, a, b ::
      0 <= i < |r| && 0 <= j < |r| && Has(r[i], es, a) && Has(r[j], es, b) && Earlier(a, b) ==> i < j
  {
    hide *;
    UniformWeak(es);
    RoomApart(es, offset);
    FieldsOrder(s, es, offset);
  }

  lemma MenuWeak(s: seq<Node<Option<Item>>>, es: seq<Entry>, offset: int)
    requires Published(s, es, offset)
    ensures WeakOrder(ByData(LoadersSorter()), s)
  {
    SorterAsymmetric(s);
  }
}
