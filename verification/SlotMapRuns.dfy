// Runs of a slot map: an abstract map and a history kept beside the concrete state, the invariant
// every operation keeps, and what follows for every run.

module SlotMapRuns {
  import opened Common
  import opened SlotMapState

  /** The concrete state, with the keys issued so far (in order), the abstract contents, the indices
      retired at the last version, and the number of successful erases. */
  datatype World<T> = World(s: State<T>, issued: seq<Key>, contents: map<Key, T>, retired: set<nat>, erases: nat)

  datatype Op<T> = OpEmplace(value: T) | OpErase(key: Key) | OpPop(key: Key) | OpClear

  function EmptyWorld<T>(): World<T> { World(EmptyState(), [], map[], {}, 0) }

  /** The bookkeeping never looks at the slots: an erase of a present key drops that key and no other. */
  function EraseBook<T>(w: World<T>, s': State<T>, k: Key): World<T> {
    if Untag(k) in w.contents then
      World(s', w.issued, w.contents - {Untag(k)},
            if k.version == MAX_VERSION then w.retired + {k.index} else w.retired, w.erases + 1)
    else w.(s := s')
  }

  /** The present key whose slot is `i`, if any. */
  function KeyFor<T>(c: Config, s: State<T>, i: nat): Key {
    Key(0, if Active(c, s, i) then SlotAt(c, s, i).version else 0, i)
  }

  function ClearWorld<T>(c: Config, w: World<T>, i: nat): World<T>
    decreases Total(c, w.s) - i
  {
    if i >= Total(c, w.s) then w else
    TotalUnchangedByErase(c, w.s, Key(0, MIN_VERSION, i), false);
    ClearWorld(c, EraseBook(w, EraseImpl(c, w.s, Key(0, MIN_VERSION, i), false).0, KeyFor(c, w.s, i)), i + 1)
  }

  function Step<T>(c: Config, w: World<T>, op: Op<T>): World<T> {
    match op
    case OpEmplace(v) =>
      var (s', k) := Emplace(c, w.s, v);
      w.(s := s', issued := w.issued + [k], contents := w.contents[k := v])
    case OpErase(k) => EraseBook(w, Erase(c, w.s, k), k)
    case OpPop(k) => EraseBook(w, Pop(c, w.s, k).0, k)
    case OpClear => ClearWorld(c, w, 0)
  }

  function Run<T>(c: Config, ops: seq<Op<T>>): World<T> {
    if ops == [] then EmptyWorld() else Step(c, Run(c, ops[..|ops| - 1]), ops[|ops| - 1])
  }

  // ----- the invariant -----

  function CountInactive<T>(slots: seq<Slot<T>>): nat {
    if slots == [] then 0 else CountInactive(slots[1..]) + if slots[0].inactive then 1 else 0
  }

  ghost predicate PageOk<T>(c: Config, page: Page<T>) {
    && 1 <= page.numUsed <= c.pageSize
    && if page.resident
       then |page.slots| == page.numUsed && page.numInactive == CountInactive(page.slots) < c.pageSize
       else page.slots == [] && page.numUsed == c.pageSize == page.numInactive
  }

  ghost predicate Shape<T>(c: Config, s: State<T>) {
    && (forall p :: 0 <= p < |s.pages| ==> PageOk(c, s.pages[p]))
    && (forall p :: 0 <= p < |s.pages| - 1 ==> s.pages[p].numUsed == c.pageSize)
    && s.maxValidIndex == if s.pages == [] then 0 else Total(c, s) - 1
  }

  /** The slots by index, whatever page they sit on, with the queue and the item counter. */
  datatype Flat<T> = Flat(total: nat, slots: map<nat, Slot<T>>, free: seq<Key>, numItems: int)

  function FlatOf<T>(c: Config, s: State<T>): Flat<T> {
    Flat(Total(c, s), map i | 0 <= i < Total(c, s) && Active(c, s, i) :: SlotAt(c, s, i), s.free, s.numItems)
  }

  ghost predicate SlotOk<T>(x: Slot<T>) {
    && MIN_VERSION <= x.version <= MAX_VERSION
    && (x.inactive ==> x.tombstone && x.version == MAX_VERSION)
    && (x.storage.Constructed? <==> !x.tombstone)
  }

  ghost predicate SlotsOk<T>(f: Flat<T>) {
    forall i | i in f.slots :: i < f.total && SlotOk(f.slots[i])
  }

  ghost predicate QueueOk<T>(f: Flat<T>) {
    && (forall n | 0 <= n < |f.free| ::
          && f.free[n].tag == 0 && f.free[n].version >= 2 && f.free[n].index in f.slots
          && f.slots[f.free[n].index] == Slot(f.free[n].version, true, false, Destroyed))
    && (forall m, n | 0 <= m < n < |f.free| :: f.free[m].index != f.free[n].index)
  }

  /** Refinement: the entries of the abstract map are exactly the live slots. */
  ghost predicate ContentsOk<T>(f: Flat<T>, contents: map<Key, T>) {
    && (forall k | k in contents ::
          && k.tag == 0 && k.index in f.slots
          && f.slots[k.index] == Slot(k.version, false, false, Constructed(contents[k])))
    && (forall i | i in f.slots && !f.slots[i].tombstone :: Key(0, f.slots[i].version, i) in contents)
    && f.numItems == |contents|
  }

  /** A key once issued lies at or below its slot's version, and strictly below it while the slot waits for reuse. */
  ghost predicate IssuedOk<T>(f: Flat<T>, contents: map<Key, T>, issued: seq<Key>) {
    && (forall k | k in issued ::
          && k.tag == 0 && k.version >= MIN_VERSION && k.index < f.total
          && (k.index in f.slots ==>
                var x := f.slots[k.index];
                k.version <= x.version && (k.version == x.version ==> !x.tombstone || x.inactive)))
    && (forall m, n | 0 <= m < n < |issued| :: issued[m] != issued[n])
    && (forall k | k in contents :: k in issued)
  }

  /** Every slot ever made is live, waiting in the queue or retired, and only one of these. */
  ghost predicate RetiredOk<T>(f: Flat<T>, contents: map<Key, T>, retired: set<nat>) {
    && (forall i: nat | i < f.total :: i in retired <==> i !in f.slots || f.slots[i].inactive)
    && (forall i | i in retired :: i < f.total)
    && |contents| + |f.free| + |retired| == f.total
  }

  function Times(n: int, minFree: nat): int { n * (minFree + 1) }

  /** Ages: a slot reaches version v only after (v - 2) * (minFree + 1) + 1 erases. */
  ghost predicate AgeOk<T>(f: Flat<T>, minFree: nat, retired: set<nat>, erases: nat) {
    && (forall i | i in f.slots && !f.slots[i].tombstone :: Times(f.slots[i].version - 1, minFree) <= erases)
    && (forall i | i in f.slots && f.slots[i].tombstone :: Times(f.slots[i].version - 2, minFree) + 1 <= erases)
    && (forall n | 0 <= n < |f.free| :: Times(f.free[n].version - 2, minFree) + |f.free| - n <= erases)
    && (retired != {} ==> Times(MAX_VERSION - 1, minFree) + 1 <= erases)
  }

  /** The flat view with the bookkeeping of the world beside it. */
  datatype Book<T> = Book(f: Flat<T>, issued: seq<Key>, contents: map<Key, T>, retired: set<nat>, erases: nat)

  function BookOf<T>(c: Config, w: World<T>): Book<T> {
    Book(FlatOf(c, w.s), w.issued, w.contents, w.retired, w.erases)
  }

  ghost predicate EntriesOk<T>(b: Book<T>) {
    SlotsOk(b.f) && QueueOk(b.f) && ContentsOk(b.f, b.contents) && IssuedOk(b.f, b.contents, b.issued)
  }

  ghost predicate Inv<T>(c: Config, w: World<T>) {
    var b := BookOf(c, w);
    && Shape(c, w.s) && EntriesOk(b) && RetiredOk(b.f, b.contents, b.retired)
    && AgeOk(b.f, c.minFree, b.retired, b.erases)
  }

  // ----- addressing -----

  lemma SplitIndex(c: Config, i: nat)
    ensures i == IndexOf(c, PageOf(c, i), OffsetOf(c, i)) && OffsetOf(c, i) < c.pageSize
  {
  }

  lemma {:induction false} JoinIndex(c: Config, page: nat, offset: nat)
    requires offset < c.pageSize
    ensures PageOf(c, IndexOf(c, page, offset)) == page && OffsetOf(c, IndexOf(c, page, offset)) == offset
  {
    var i := IndexOf(c, page, offset);
    SplitIndex(c, i);
    UniqueSplit(c.pageSize, PageOf(c, i), OffsetOf(c, i), page, offset);
  }

  lemma {:induction false} RowsApart(n: nat, p: nat, q: nat)
    requires p < q
    ensures p * n + n <= q * n
    decreases q
  {
    if p + 1 < q {
      RowsApart(n, p, q - 1);
    }
    assert q * n == (q - 1) * n + n;
  }

  lemma UniqueSplit(n: nat, p: nat, j: nat, p': nat, j': nat)
    requires j < n && j' < n && p * n + j == p' * n + j'
    ensures p == p' && j == j'
  {
    if p < p' {
      RowsApart(n, p, p');
    } else if p > p' {
      RowsApart(n, p', p);
    }
  }

  lemma KnownIffBelowTotal<T>(c: Config, s: State<T>, i: nat)
    requires Shape(c, s)
    ensures Known(c, s, i) <==> i < Total(c, s)
    ensures Active(c, s, i) <==> Known(c, s, i) && IsActivePage(c, s, i)
    ensures Active(c, s, i) ==> i <= s.maxValidIndex
  {
    SplitIndex(c, i);
    if s.pages != [] {
      var p, last := PageOf(c, i), |s.pages| - 1;
      assert PageOk(c, s.pages[last]);
      if p < last {
        RowsApart(c.pageSize, p, last);
        assert s.pages[p].numUsed == c.pageSize;
      } else if p > last {
        RowsApart(c.pageSize, last, p);
      }
    }
  }

  lemma AfterSetSlot<T>(c: Config, s: State<T>, i: nat, x: Slot<T>)
    requires Active(c, s, i)
    ensures forall k: nat :: Active(c, SetSlot(c, s, i, x), k) <==> Active(c, s, k)
    ensures forall k: nat :: Known(c, SetSlot(c, s, i, x), k) <==> Known(c, s, k)
    ensures forall k: nat | Active(c, s, k) ::
              SlotAt(c, SetSlot(c, s, i, x), k) == if k == i then x else SlotAt(c, s, k)
    ensures Total(c, SetSlot(c, s, i, x)) == Total(c, s)
  {
    forall k: nat | Active(c, s, k)
      ensures SlotAt(c, SetSlot(c, s, i, x), k) == if k == i then x else SlotAt(c, s, k)
    {
      SplitIndex(c, i);
      SplitIndex(c, k);
    }
  }

  lemma {:induction false} CountAfterUpdate<T>(slots: seq<Slot<T>>, j: nat, x: Slot<T>)
    requires j < |slots|
    ensures CountInactive(slots[j := x]) ==
            CountInactive(slots) - (if slots[j].inactive then 1 else 0) + if x.inactive then 1 else 0
  {
    if j == 0 {
      assert slots[0 := x][1..] == slots[1..];
    } else {
      assert slots[j := x][1..] == slots[1..][j - 1 := x];
      CountAfterUpdate(slots[1..], j - 1, x);
    }
  }

  lemma {:induction false} CountAfterAppend<T>(slots: seq<Slot<T>>, x: Slot<T>)
    ensures CountInactive(slots + [x]) == CountInactive(slots) + if x.inactive then 1 else 0
  {
    if slots != [] {
      assert (slots + [x])[1..] == slots[1..] + [x];
      CountAfterAppend(slots[1..], x);
    } else {
      assert slots + [x] == [x];
    }
  }

  lemma {:induction false} CountIsLengthIffAll<T>(slots: seq<Slot<T>>)
    ensures CountInactive(slots) <= |slots|
    ensures CountInactive(slots) == |slots| <==> forall j | 0 <= j < |slots| :: slots[j].inactive
  {
    if slots != [] {
      CountIsLengthIffAll(slots[1..]);
      assert forall j | 1 <= j < |slots| :: slots[j] == slots[1..][j - 1];
    }
  }

  // ----- operations on the flat view -----

  /** The slot an erase leaves behind. */
  function ErasedSlot<T>(x: Slot<T>): Slot<T> {
    if x.version == MAX_VERSION then Slot(MAX_VERSION, true, true, Destroyed)
    else Slot(x.version + 1, true, false, Destroyed)
  }

  function FlatRecycle<T>(f: Flat<T>, v: T): Flat<T>
    requires f.free != []
  {
    var k := f.free[0];
    Flat(f.total, f.slots[k.index := Slot(k.version, false, false, Constructed(v))], f.free[1..], f.numItems + 1)
  }

  function FlatAppend<T>(f: Flat<T>, v: T): Flat<T> {
    Flat(f.total + 1, f.slots[f.total := Slot(MIN_VERSION, false, false, Constructed(v))], f.free, f.numItems + 1)
  }

  /** `lost` are the slots whose memory goes with the page. */
  function FlatErase<T>(f: Flat<T>, e: nat, lost: set<nat>): Flat<T>
    requires e in f.slots
  {
    var x := ErasedSlot(f.slots[e]);
    var free := if x.inactive then f.free else f.free + [Key(0, x.version, e)];
    Flat(f.total, f.slots[e := x] - lost, free, f.numItems - 1)
  }

  ghost predicate OnlyRetired<T>(f: Flat<T>, e: nat, lost: set<nat>)
    requires e in f.slots
  {
    forall i | i in lost :: i in f.slots && (if i == e then ErasedSlot(f.slots[e]) else f.slots[i]).inactive
  }

  lemma EraseKeepsShape<T>(c: Config, s: State<T>, k: Key, checkVersion: bool)
    requires Shape(c, s) && Erasable(c, s, k, checkVersion) && SlotOk(SlotAt(c, s, k.index))
    ensures var s' := EraseImpl(c, s, k, checkVersion).0;
            && Shape(c, s') && Total(c, s') == Total(c, s)
            && (!IsActivePage(c, s', k.index) ==>
                  var s1 := SetSlot(c, s, k.index, ErasedSlot(SlotAt(c, s, k.index)));
                  forall x | x in s1.pages[PageOf(c, k.index)].slots :: x.inactive)
  {
    var x' := ErasedSlot(SlotAt(c, s, k.index));
    var page := s.pages[PageOf(c, k.index)];
    assert PageOk(c, page);
    CountAfterUpdate(page.slots, OffsetOf(c, k.index), x');
    CountIsLengthIffAll(page.slots[OffsetOf(c, k.index) := x']);
  }

  lemma EraseMovesSlots<T>(c: Config, s: State<T>, k: Key, checkVersion: bool)
    requires Erasable(c, s, k, checkVersion) && SlotOk(SlotAt(c, s, k.index))
    ensures var s', p := EraseImpl(c, s, k, checkVersion).0, PageOf(c, k.index);
            forall i: nat ::
              && (Active(c, s', i) <==> Active(c, s, i) && (PageOf(c, i) == p ==> s'.pages[p].resident))
              && (Active(c, s', i) ==>
                    SlotAt(c, s', i) == if i == k.index then ErasedSlot(SlotAt(c, s, i)) else SlotAt(c, s, i))
  {
    AfterSetSlot(c, s, k.index, ErasedSlot(SlotAt(c, s, k.index)));
    var s1 := SetSlot(c, s, k.index, ErasedSlot(SlotAt(c, s, k.index)));
    var s', p := EraseImpl(c, s, k, checkVersion).0, PageOf(c, k.index);
    assert s'.pages[p].resident ==> s'.pages[p].slots == s1.pages[p].slots;
    forall i: nat
      ensures Active(c, s', i) <==> Active(c, s, i) && (PageOf(c, i) == p ==> s'.pages[p].resident)
      ensures Active(c, s', i) ==> SlotAt(c, s', i) == SlotAt(c, s1, i)
    {
      assert Active(c, s1, i) <==> Active(c, s, i);
    }
  }

  lemma SlotsAfterErase<T>(c: Config, s: State<T>, s': State<T>, e: nat, x': Slot<T>)
    requires Total(c, s') == Total(c, s) && e < Total(c, s) && Active(c, s, e)
    requires forall i: nat | Active(c, s', i) ::
               Active(c, s, i) && SlotAt(c, s', i) == if i == e then x' else SlotAt(c, s, i)
    ensures var slots := FlatOf(c, s).slots;
            FlatOf(c, s').slots == slots[e := x'] - set i | i in slots && !Active(c, s', i)
  {
  }

  lemma EraseLosesRetired<T>(c: Config, s: State<T>, k: Key, checkVersion: bool, i: nat)
    requires Shape(c, s) && Erasable(c, s, k, checkVersion) && SlotOk(SlotAt(c, s, k.index))
    requires Active(c, s, i) && !Active(c, EraseImpl(c, s, k, checkVersion).0, i)
    ensures (if i == k.index then ErasedSlot(SlotAt(c, s, i)) else SlotAt(c, s, i)).inactive
  {
    EraseKeepsShape(c, s, k, checkVersion);
    EraseMovesSlots(c, s, k, checkVersion);
    var x' := ErasedSlot(SlotAt(c, s, k.index));
    AfterSetSlot(c, s, k.index, x');
    var s1 := SetSlot(c, s, k.index, x');
    assert SlotAt(c, s1, i) in s1.pages[PageOf(c, k.index)].slots;
  }

  lemma EraseDoes<T>(c: Config, s: State<T>, k: Key, checkVersion: bool) returns (lost: set<nat>)
    requires Shape(c, s) && SlotsOk(FlatOf(c, s)) && Erasable(c, s, k, checkVersion)
    ensures k.index in FlatOf(c, s).slots && OnlyRetired(FlatOf(c, s), k.index, lost)
    ensures var s' := EraseImpl(c, s, k, checkVersion).0;
            Shape(c, s') && FlatOf(c, s') == FlatErase(FlatOf(c, s), k.index, lost)
  {
    var e, f, s' := k.index, FlatOf(c, s), EraseImpl(c, s, k, checkVersion).0;
    KnownIffBelowTotal(c, s, e);
    assert e in f.slots && f.slots[e] == SlotAt(c, s, e);
    EraseKeepsShape(c, s, k, checkVersion);
    EraseMovesSlots(c, s, k, checkVersion);
    SlotsAfterErase(c, s, s', e, ErasedSlot(f.slots[e]));
    lost := set i | i in f.slots && !Active(c, s', i);
    LostAreRetired(c, s, k, checkVersion, lost);
    EraseMovesQueue(c, s, k, checkVersion, lost);
    hide *;
  }

  lemma LostAreRetired<T>(c: Config, s: State<T>, k: Key, checkVersion: bool, lost: set<nat>)
    requires Shape(c, s) && SlotsOk(FlatOf(c, s)) && Erasable(c, s, k, checkVersion) && k.index in FlatOf(c, s).slots
    requires forall i | i in lost :: i in FlatOf(c, s).slots && !Active(c, EraseImpl(c, s, k, checkVersion).0, i)
    ensures OnlyRetired(FlatOf(c, s), k.index, lost)
  {
    var f := FlatOf(c, s);
    assert f.slots[k.index] == SlotAt(c, s, k.index) && SlotOk(f.slots[k.index]);
    forall i | i in lost
      ensures (if i == k.index then ErasedSlot(f.slots[i]) else f.slots[i]).inactive
    {
      assert Active(c, s, i) && f.slots[i] == SlotAt(c, s, i);
      hide EraseImpl, Shape, SlotsOk, Active, SlotAt, FlatOf;
      EraseLosesRetired(c, s, k, checkVersion, i);
    }
  }

  lemma EraseMovesQueue<T>(c: Config, s: State<T>, k: Key, checkVersion: bool, lost: set<nat>)
    requires Erasable(c, s, k, checkVersion) && k.index in FlatOf(c, s).slots
    ensures var s', f' := EraseImpl(c, s, k, checkVersion).0, FlatErase(FlatOf(c, s), k.index, lost);
            s'.free == f'.free && s'.numItems == f'.numItems
  {
  }

  lemma RecycleDoes<T>(c: Config, s: State<T>, v: T)
    requires Shape(c, s) && QueueOk(FlatOf(c, s)) && |s.free| > c.minFree
    ensures Recycles(c, s)
    ensures var s' := Emplace(c, s, v).0;
            Shape(c, s') && FlatOf(c, s') == FlatRecycle(FlatOf(c, s), v)
  {
    var k := s.free[0];
    assert k.index in FlatOf(c, s).slots && FlatOf(c, s).slots[k.index] == Slot(k.version, true, false, Destroyed);
    var x' := Slot(k.version, false, false, Constructed(v));
    SetSlotKeepsShape(c, s, k.index, x');
    SetSlotDoes(c, s, k.index, x');
    var s1, s' := SetSlot(c, s, k.index, x'), Emplace(c, s, v).0;
    assert s'.pages == s1.pages && s'.maxValidIndex == s1.maxValidIndex;
    hide *;
    SamePagesSameSlots(c, s1, s');
  }

  lemma SetSlotKeepsShape<T>(c: Config, s: State<T>, i: nat, x: Slot<T>)
    requires Shape(c, s) && Active(c, s, i) && SlotAt(c, s, i).inactive == x.inactive
    ensures Shape(c, SetSlot(c, s, i, x))
  {
    var p := PageOf(c, i);
    assert PageOk(c, s.pages[p]);
    CountAfterUpdate(s.pages[p].slots, OffsetOf(c, i), x);
  }

  lemma SetSlotDoes<T>(c: Config, s: State<T>, i: nat, x: Slot<T>)
    requires Shape(c, s) && Active(c, s, i)
    ensures FlatOf(c, SetSlot(c, s, i, x)).slots == FlatOf(c, s).slots[i := x]
    ensures Total(c, SetSlot(c, s, i, x)) == Total(c, s)
  {
    AfterSetSlot(c, s, i, x);
    KnownIffBelowTotal(c, s, i);
    hide SetSlot, SlotAt, Active, Known, Total;
  }

  lemma NextRow(n: nat, p: nat)
    ensures (p + 1) * n == p * n + n
  {
  }

  predicate NeedsPage<T>(c: Config, s: State<T>) {
    s.pages == [] || s.pages[|s.pages| - 1].numUsed == c.pageSize
  }

  /** Which page and offset the next slot lands on, and what stays as it was. */
  lemma AppendKeepsShape<T>(c: Config, s: State<T>, v: T)
    requires Shape(c, s)
    ensures var s' := AppendElement(c, s, v);
            var last := if NeedsPage(c, s) then |s.pages| else |s.pages| - 1;
            var offset := if NeedsPage(c, s) then 0 else s.pages[last].numUsed;
            && |s'.pages| == last + 1 && offset < c.pageSize && PageOk(c, s'.pages[last])
            && (forall p | 0 <= p < last :: s'.pages[p] == s.pages[p])
            && (last < |s.pages| ==> s.pages[last].resident && |s.pages[last].slots| == offset)
            && s'.pages[last].resident && s'.pages[last].numUsed == offset + 1
            && s'.pages[last].slots ==
               (if NeedsPage(c, s) then [] else s.pages[last].slots) + [Slot(MIN_VERSION, false, false, Constructed(v))]
            && NextIndex(c, s) == IndexOf(c, last, offset) == Total(c, s)
            && Total(c, s') == Total(c, s) + 1
  {
    var x := Slot(MIN_VERSION, false, false, Constructed(v));
    var s' := AppendElement(c, s, v);
    if s.pages != [] {
      assert PageOk(c, s.pages[|s.pages| - 1]);
      NextRow(c.pageSize, |s.pages| - 1);
    }
    if NeedsPage(c, s) {
      CountAfterAppend([], x);
      assert [] + [x] == [x];
      CountIsLengthIffAll([x]);
    } else {
      var slots := s.pages[|s.pages| - 1].slots;
      CountAfterAppend(slots, x);
      CountIsLengthIffAll(slots + [x]);
      assert !(slots + [x])[|slots|].inactive;
    }
  }


  lemma AppendMovesSlots<T>(c: Config, s: State<T>, v: T)
    requires Shape(c, s)
    ensures var s', e := AppendElement(c, s, v), Total(c, s);
            forall i: nat ::
              && (Active(c, s', i) <==> Active(c, s, i) || i == e)
              && (Active(c, s', i) ==>
                    SlotAt(c, s', i) ==
                    if i == e then Slot(MIN_VERSION, false, false, Constructed(v)) else SlotAt(c, s, i))
  {
    var s', e := AppendElement(c, s, v), Total(c, s);
    AppendKeepsShape(c, s, v);
    var last := |s'.pages| - 1;
    JoinIndex(c, last, s'.pages[last].numUsed - 1);
    forall i: nat
      ensures Active(c, s', i) <==> Active(c, s, i) || i == e
      ensures Active(c, s', i) ==>
                SlotAt(c, s', i) == if i == e then Slot(MIN_VERSION, false, false, Constructed(v)) else SlotAt(c, s, i)
    {
      SplitIndex(c, i);
    }
  }

  lemma SlotsAfterAppend<T>(c: Config, s: State<T>, s': State<T>, x: Slot<T>)
    requires Shape(c, s) && Total(c, s') == Total(c, s) + 1
    requires forall i: nat ::
               && (Active(c, s', i) <==> Active(c, s, i) || i == Total(c, s))
               && (Active(c, s', i) ==> SlotAt(c, s', i) == if i == Total(c, s) then x else SlotAt(c, s, i))
    ensures FlatOf(c, s').slots == FlatOf(c, s).slots[Total(c, s) := x]
  {
    KnownIffBelowTotal(c, s, Total(c, s));
  }

  lemma AppendDoes<T>(c: Config, s: State<T>, v: T)
    requires Shape(c, s) && !Recycles(c, s)
    ensures var s' := Emplace(c, s, v).0;
            Shape(c, s') && FlatOf(c, s') == FlatAppend(FlatOf(c, s), v) && NextIndex(c, s) == Total(c, s)
  {
    var s', s1 := Emplace(c, s, v).0, AppendElement(c, s, v);
    AppendKeepsShape(c, s, v);
    assert FlatOf(c, s1).slots == FlatAppend(FlatOf(c, s), v).slots by {
      AppendMovesSlots(c, s, v);
      SlotsAfterAppend(c, s, s1, Slot(MIN_VERSION, false, false, Constructed(v)));
    }
    SamePagesSameSlots(c, s1, s');
  }

  lemma SamePagesSameSlots<T>(c: Config, s: State<T>, s': State<T>)
    requires s.pages == s'.pages
    ensures Total(c, s) == Total(c, s') && FlatOf(c, s).slots == FlatOf(c, s').slots
  {
  }

  // ----- every operation keeps the invariant -----

  function RecycleBook<T>(b: Book<T>, v: T): Book<T>
    requires b.f.free != []
  {
    Book(FlatRecycle(b.f, v), b.issued + [b.f.free[0]], b.contents[b.f.free[0] := v], b.retired, b.erases)
  }

  lemma RecycleKeepsEntries<T>(b: Book<T>, v: T)
    requires EntriesOk(b) && b.f.free != []
    ensures b.f.free[0] !in b.issued && b.f.free[0] !in b.contents && EntriesOk(RecycleBook(b, v))
  {
    RecycleKeepsQueue(b.f, v);
    RecycleKeepsContents(b.f, b.contents, v);
    RecycleKeepsIssued(b, v);
    hide SlotsOk, QueueOk, ContentsOk, IssuedOk, FlatRecycle;
  }

  lemma RecycleKeepsQueue<T>(f: Flat<T>, v: T)
    requires SlotsOk(f) && QueueOk(f) && f.free != []
    ensures SlotsOk(FlatRecycle(f, v)) && QueueOk(FlatRecycle(f, v))
  {
    var f' := FlatRecycle(f, v);
    assert forall n | 0 <= n < |f'.free| :: f'.free[n] == f.free[n + 1];
    assert SlotOk(f.slots[f.free[0].index]);
  }

  lemma RecycleKeepsContents<T>(f: Flat<T>, contents: map<Key, T>, v: T)
    requires QueueOk(f) && ContentsOk(f, contents) && f.free != []
    ensures f.free[0] !in contents && ContentsOk(FlatRecycle(f, v), contents[f.free[0] := v])
  {
  }

  lemma RecycleKeepsIssued<T>(b: Book<T>, v: T)
    requires SlotsOk(b.f) && QueueOk(b.f) && IssuedOk(b.f, b.contents, b.issued) && b.f.free != []
    ensures var b' := RecycleBook(b, v); b.f.free[0] !in b.issued && IssuedOk(b'.f, b'.contents, b'.issued)
  {
    assert SlotOk(b.f.slots[b.f.free[0].index]);
  }

  lemma RecycleKeepsCounts<T>(b: Book<T>, v: T)
    requires QueueOk(b.f) && RetiredOk(b.f, b.contents, b.retired) && b.f.free != [] && b.f.free[0] !in b.contents
    ensures var b' := RecycleBook(b, v); RetiredOk(b'.f, b'.contents, b'.retired)
  {
  }

  lemma RecycleKeepsAges<T>(b: Book<T>, minFree: nat, v: T)
    requires QueueOk(b.f) && AgeOk(b.f, minFree, b.retired, b.erases) && |b.f.free| > minFree
    ensures AgeOk(FlatRecycle(b.f, v), minFree, b.retired, b.erases)
  {
    var k, f' := b.f.free[0], FlatRecycle(b.f, v);
    assert forall n | 0 <= n < |f'.free| :: f'.free[n] == b.f.free[n + 1];
    assert Times(k.version - 1, minFree) == Times(k.version - 2, minFree) + (minFree + 1);
  }

  function AppendBook<T>(b: Book<T>, v: T): Book<T> {
    var k := Key(0, MIN_VERSION, b.f.total);
    Book(FlatAppend(b.f, v), b.issued + [k], b.contents[k := v], b.retired, b.erases)
  }

  lemma AppendKeepsEntries<T>(b: Book<T>, v: T)
    requires EntriesOk(b)
    ensures Key(0, MIN_VERSION, b.f.total) !in b.issued && Key(0, MIN_VERSION, b.f.total) !in b.contents
    ensures EntriesOk(AppendBook(b, v))
  {
    AppendKeepsQueue(b.f, v);
    AppendKeepsContents(b.f, b.contents, v);
    AppendKeepsIssued(b, v);
    hide SlotsOk, QueueOk, ContentsOk, IssuedOk, FlatAppend;
  }

  lemma AppendKeepsQueue<T>(f: Flat<T>, v: T)
    requires SlotsOk(f) && QueueOk(f)
    ensures SlotsOk(FlatAppend(f, v)) && QueueOk(FlatAppend(f, v))
  {
  }

  lemma AppendKeepsContents<T>(f: Flat<T>, contents: map<Key, T>, v: T)
    requires SlotsOk(f) && ContentsOk(f, contents)
    ensures var k := Key(0, MIN_VERSION, f.total);
            k !in contents && ContentsOk(FlatAppend(f, v), contents[k := v])
  {
    hide SlotOk;
  }

  lemma AppendKeepsIssued<T>(b: Book<T>, v: T)
    requires SlotsOk(b.f) && IssuedOk(b.f, b.contents, b.issued)
    ensures var b' := AppendBook(b, v);
            Key(0, MIN_VERSION, b.f.total) !in b.issued && IssuedOk(b'.f, b'.contents, b'.issued)
  {
    hide SlotOk;
  }

  lemma AppendKeepsCounts<T>(b: Book<T>, v: T)
    requires SlotsOk(b.f) && RetiredOk(b.f, b.contents, b.retired) && Key(0, MIN_VERSION, b.f.total) !in b.contents
    ensures var b' := AppendBook(b, v); RetiredOk(b'.f, b'.contents, b'.retired)
  {
  }

  lemma AppendKeepsAges<T>(b: Book<T>, minFree: nat, v: T)
    requires AgeOk(b.f, minFree, b.retired, b.erases)
    ensures AgeOk(FlatAppend(b.f, v), minFree, b.retired, b.erases)
  {
    assert Times(0, minFree) == 0;
  }

  /** Erasing live slot `e` drops exactly its entry. */
  function DropBook<T>(b: Book<T>, e: nat, lost: set<nat>): Book<T>
    requires e in b.f.slots
  {
    var k := Key(0, b.f.slots[e].version, e);
    Book(FlatErase(b.f, e, lost), b.issued, b.contents - {k},
         if k.version == MAX_VERSION then b.retired + {e} else b.retired, b.erases + 1)
  }

  lemma DropRemovesOne<T>(b: Book<T>, e: nat, lost: set<nat>)
    requires ContentsOk(b.f, b.contents) && e in b.f.slots && !b.f.slots[e].tombstone
    ensures Key(0, b.f.slots[e].version, e) in b.contents
    ensures |DropBook(b, e, lost).contents| == |b.contents| - 1
  {
    var k := Key(0, b.f.slots[e].version, e);
    assert b.contents.Keys == (b.contents - {k}).Keys + {k};
  }

  lemma DropKeepsQueue<T>(b: Book<T>, e: nat, lost: set<nat>)
    requires SlotsOk(b.f) && QueueOk(b.f) && e in b.f.slots && !b.f.slots[e].tombstone && OnlyRetired(b.f, e, lost)
    ensures SlotsOk(FlatErase(b.f, e, lost)) && QueueOk(FlatErase(b.f, e, lost))
  {
    assert SlotOk(b.f.slots[e]);
  }

  lemma DropKeepsContents<T>(b: Book<T>, e: nat, lost: set<nat>)
    requires SlotsOk(b.f) && ContentsOk(b.f, b.contents) && e in b.f.slots && !b.f.slots[e].tombstone
    requires OnlyRetired(b.f, e, lost)
    ensures var b' := DropBook(b, e, lost); ContentsOk(b'.f, b'.contents)
  {
    DropRemovesOne(b, e, lost);
  }

  lemma DropKeepsIssued<T>(b: Book<T>, e: nat, lost: set<nat>)
    requires SlotsOk(b.f) && IssuedOk(b.f, b.contents, b.issued) && e in b.f.slots && OnlyRetired(b.f, e, lost)
    ensures var b' := DropBook(b, e, lost); IssuedOk(b'.f, b'.contents, b'.issued)
  {
  }

  lemma DropKeepsCounts<T>(b: Book<T>, e: nat, lost: set<nat>)
    requires SlotsOk(b.f) && ContentsOk(b.f, b.contents) && RetiredOk(b.f, b.contents, b.retired)
    requires e in b.f.slots && !b.f.slots[e].tombstone && OnlyRetired(b.f, e, lost)
    ensures var b' := DropBook(b, e, lost); RetiredOk(b'.f, b'.contents, b'.retired)
  {
    DropRemovesOne(b, e, lost);
    assert SlotOk(b.f.slots[e]);
    assert e < b.f.total && e !in b.retired;
    hide SlotOk, OnlyRetired, ErasedSlot;
    DropMovesOne(b, e, lost);
    DropRetires(b, e, lost);
  }

  lemma DropMovesOne<T>(b: Book<T>, e: nat, lost: set<nat>)
    requires e in b.f.slots && e !in b.retired
    ensures var b' := DropBook(b, e, lost);
            |b'.f.free| + |b'.retired| == |b.f.free| + |b.retired| + 1
  {
  }

  lemma DropRetires<T>(b: Book<T>, e: nat, lost: set<nat>)
    requires e in b.f.slots && e !in b.retired && OnlyRetired(b.f, e, lost)
    requires forall i: nat | i < b.f.total :: i in b.retired <==> i !in b.f.slots || b.f.slots[i].inactive
    ensures var b' := DropBook(b, e, lost);
            forall i: nat | i < b'.f.total :: i in b'.retired <==> i !in b'.f.slots || b'.f.slots[i].inactive
  {
  }

  lemma DropKeepsAges<T>(b: Book<T>, minFree: nat, e: nat, lost: set<nat>)
    requires AgeOk(b.f, minFree, b.retired, b.erases)
    requires e in b.f.slots && !b.f.slots[e].tombstone && OnlyRetired(b.f, e, lost)
    ensures var b' := DropBook(b, e, lost); AgeOk(b'.f, minFree, b'.retired, b'.erases)
  {
    assert Times(b.f.slots[e].version - 1, minFree) <= b.erases;
    TimesStep(MAX_VERSION - 2, minFree);
    hide Times;
  }

  lemma TimesStep(n: int, minFree: nat)
    ensures Times(n + 1, minFree) == Times(n, minFree) + minFree + 1
  {
  }

  lemma DropKeepsAll<T>(b: Book<T>, minFree: nat, e: nat, lost: set<nat>)
    requires EntriesOk(b) && RetiredOk(b.f, b.contents, b.retired) && AgeOk(b.f, minFree, b.retired, b.erases)
    requires e in b.f.slots && !b.f.slots[e].tombstone && OnlyRetired(b.f, e, lost)
    ensures var b' := DropBook(b, e, lost);
            EntriesOk(b') && RetiredOk(b'.f, b'.contents, b'.retired) && AgeOk(b'.f, minFree, b'.retired, b'.erases)
  {
    DropKeepsQueue(b, e, lost);
    DropKeepsContents(b, e, lost);
    DropKeepsIssued(b, e, lost);
    DropKeepsCounts(b, e, lost);
    DropKeepsAges(b, minFree, e, lost);
  }

  lemma EmplaceKeepsInv<T>(c: Config, w: World<T>, v: T)
    requires Inv(c, w)
    ensures Inv(c, Step(c, w, OpEmplace(v)))
    ensures Recycles(c, w.s) <==> |w.s.free| > c.minFree
    ensures var k := Emplace(c, w.s, v).1; k !in w.issued && k !in w.contents && k.tag == 0
  {
    var b := BookOf(c, w);
    if |w.s.free| > c.minFree {
      RecycleDoes(c, w.s, v);
      RecycleKeepsEntries(b, v);
      RecycleKeepsCounts(b, v);
      RecycleKeepsAges(b, c.minFree, v);
      assert BookOf(c, Step(c, w, OpEmplace(v))) == RecycleBook(b, v);
    } else {
      AppendDoes(c, w.s, v);
      AppendKeepsEntries(b, v);
      AppendKeepsCounts(b, v);
      AppendKeepsAges(b, c.minFree, v);
      assert BookOf(c, Step(c, w, OpEmplace(v))) == AppendBook(b, v);
    }
  }

  /** The flat view shows the active slots, all within bounds. */
  lemma Seen<T>(c: Config, s: State<T>, i: nat)
    requires Shape(c, s)
    ensures Active(c, s, i) <==> i in FlatOf(c, s).slots
    ensures Active(c, s, i) ==> i <= s.maxValidIndex && FlatOf(c, s).slots[i] == SlotAt(c, s, i)
  {
    KnownIffBelowTotal(c, s, i);
  }

  /** An erase succeeds exactly when the untagged key is present, for every key, issued or not. */
  lemma ErasableIffPresent<T>(c: Config, w: World<T>, k: Key)
    requires Inv(c, w)
    ensures Erasable(c, w.s, k, true) <==> Untag(k) in w.contents
    ensures Erasable(c, w.s, k, false) <==> KeyFor(c, w.s, k.index) in w.contents
  {
    Seen(c, w.s, k.index);
    var b := BookOf(c, w);
    if k.index in b.f.slots {
      assert SlotOk(b.f.slots[k.index]);
      EntryOf(b, Untag(k));
      EntryOf(b, KeyFor(c, w.s, k.index));
    }
  }

  /** What the invariant says about a key of a slot that still exists. */
  lemma EntryOf<T>(b: Book<T>, k: Key)
    requires EntriesOk(b) && k.tag == 0
    ensures k in b.contents ==> k.index in b.f.slots
    ensures k.index in b.f.slots ==>
              (k in b.contents <==> b.f.slots[k.index].version == k.version && !b.f.slots[k.index].tombstone)
    ensures k in b.contents ==> b.f.slots[k.index].storage == Constructed(b.contents[k])
    ensures k in b.issued && k.index in b.f.slots && b.f.slots[k.index].version == k.version && k !in b.contents ==>
              b.f.slots[k.index] == Slot(MAX_VERSION, true, true, Destroyed)
  {
    if k.index in b.f.slots {
      assert SlotOk(b.f.slots[k.index]);
    }
  }

  lemma EraseBookIsDrop<T>(c: Config, w: World<T>, s': State<T>, k: Key, lost: set<nat>)
    requires k.index in FlatOf(c, w.s).slots && Untag(k) in w.contents
    requires k.version == FlatOf(c, w.s).slots[k.index].version
    requires FlatOf(c, s') == FlatErase(FlatOf(c, w.s), k.index, lost)
    ensures BookOf(c, EraseBook(w, s', k)) == DropBook(BookOf(c, w), k.index, lost)
  {
  }

  lemma EraseKeepsInv<T>(c: Config, w: World<T>, k: Key, checkVersion: bool)
    requires Inv(c, w)
    ensures Inv(c, EraseBook(w, EraseImpl(c, w.s, k, checkVersion).0,
                             if checkVersion then k else KeyFor(c, w.s, k.index)))
  {
    ErasableIffPresent(c, w, k);
    if Erasable(c, w.s, k, checkVersion) {
      var key := if checkVersion then k else KeyFor(c, w.s, k.index);
      var s' := EraseImpl(c, w.s, k, checkVersion).0;
      var lost := EraseDoes(c, w.s, k, checkVersion);
      Seen(c, w.s, k.index);
      DropKeepsAll(BookOf(c, w), c.minFree, k.index, lost);
      EraseBookIsDrop(c, w, s', key, lost);
    }
  }

  lemma PopIsErase<T>(c: Config, w: World<T>, k: Key)
    requires Inv(c, w)
    ensures Pop(c, w.s, k).0 == Erase(c, w.s, k)
  {
    ErasableIffPresent(c, w, k);
  }

  lemma EraseBookCounts<T>(w: World<T>, s': State<T>, k: Key)
    ensures var w' := EraseBook(w, s', k);
            && w'.s == s' && w'.issued == w.issued && w'.contents == w.contents - {Untag(k)}
            && w'.erases + |w'.contents| == w.erases + |w.contents|
  {
    if Untag(k) in w.contents {
      assert w.contents.Keys == (w.contents - {Untag(k)}).Keys + {Untag(k)};
    } else {
      assert w.contents - {Untag(k)} == w.contents;
    }
  }

  /** Only one present key can have index `i`. */
  lemma OnePresentKeyPerSlot<T>(c: Config, w: World<T>, k: Key)
    requires Inv(c, w) && k in w.contents
    ensures k == KeyFor(c, w.s, k.index) && k.index < Total(c, w.s)
  {
    EntryOf(BookOf(c, w), k);
    Seen(c, w.s, k.index);
  }

  lemma PresentKeysAreKeyFor<T>(c: Config, w: World<T>)
    requires Inv(c, w)
    ensures forall k | k in w.contents :: k == KeyFor(c, w.s, k.index) && k.index < Total(c, w.s)
  {
    hide Inv, KeyFor, Total;
    forall k | k in w.contents
      ensures k == KeyFor(c, w.s, k.index) && k.index < Total(c, w.s)
    {
      OnePresentKeyPerSlot(c, w, k);
    }
  }

  /** From slot `i` on, clear empties what is left and counts every erase. */
  lemma {:induction false} ClearEmpties<T>(c: Config, w: World<T>, i: nat)
    requires Inv(c, w) && forall k | k in w.contents :: k.index >= i
    ensures var w' := ClearWorld(c, w, i);
            && Inv(c, w') && w'.s == ClearFrom(c, w.s, i) && w'.contents == map[]
            && w'.issued == w.issued && w'.erases == w.erases + |w.contents|
    decreases Total(c, w.s) - i
  {
    hide EraseImpl, Inv, Total, Active, SlotAt, EraseBook;
    PresentKeysAreKeyFor(c, w);
    if i >= Total(c, w.s) {
      assert w.contents == map[];
    } else {
      var k, key := Key(0, MIN_VERSION, i), KeyFor(c, w.s, i);
      assert key.index == i && Untag(key) == key;
      EraseKeepsInv(c, w, k, false);
      TotalUnchangedByErase(c, w.s, k, false);
      var s' := EraseImpl(c, w.s, k, false).0;
      EraseBookCounts(w, s', key);
      ClearEmpties(c, EraseBook(w, s', key), i + 1);
    }
  }

  lemma EmptyInv<T>(c: Config)
    ensures Inv<T>(c, EmptyWorld())
  {
  }

  lemma StepKeepsInv<T>(c: Config, w: World<T>, op: Op<T>)
    requires Inv(c, w)
    ensures Inv(c, Step(c, w, op))
    ensures w.issued <= Step(c, w, op).issued
  {
    hide Inv, Emplace, EraseImpl, Recycles, Total;
    match op
    case OpEmplace(v) => EmplaceKeepsInv(c, w, v);
    case OpErase(k) => EraseKeepsInv(c, w, k, true);
    case OpPop(k) =>
      PopIsErase(c, w, k);
      EraseKeepsInv(c, w, k, true);
    case OpClear => ClearEmpties(c, w, 0);
  }

  lemma {:induction false} RunKeepsInv<T>(c: Config, ops: seq<Op<T>>)
    ensures Inv(c, Run(c, ops))
  {
    if ops == [] {
      EmptyInv<T>(c);
    } else {
      RunKeepsInv(c, ops[..|ops| - 1]);
      StepKeepsInv(c, Run(c, ops[..|ops| - 1]), ops[|ops| - 1]);
    }
  }

  // ----- what holds in every run -----

  /** No two emplace calls of any run return the same key. */
  lemma NoKeyIsReissued<T>(c: Config, ops: seq<Op<T>>, m: nat, n: nat)
    requires m < n < |Run(c, ops).issued|
    ensures Run(c, ops).issued[m] != Run(c, ops).issued[n]
  {
    RunKeepsInv(c, ops);
  }

  /** Slot `i` was retired and its page still has its memory. */
  predicate RetiredInPlace<T>(c: Config, s: State<T>, k: Key) {
    k.version == MAX_VERSION && Active(c, s, k.index) && SlotAt(c, s, k.index).inactive
  }

  /** After every run: size counts the contents, present keys are found with their value, and an issued key that
      is absent is (wrongly) found exactly when its slot retired at that version and its page is still there. */
  lemma LookupRefinesMap<T>(c: Config, ops: seq<Op<T>>, k: Key)
    ensures var w := Run(c, ops);
            && w.s.numItems == |w.contents|
            && (Untag(k) in w.contents ==>
                  HasKey(c, w.s, k) && Get(c, w.s, k) == Some(Constructed(w.contents[Untag(k)])))
            && (Untag(k) in w.issued && Untag(k) !in w.contents ==>
                  && (HasKey(c, w.s, k) <==> RetiredInPlace(c, w.s, k))
                  && Get(c, w.s, k) == if RetiredInPlace(c, w.s, k) then Some(Destroyed) else None)
  {
    RunKeepsInv(c, ops);
    var w := Run(c, ops);
    Seen(c, w.s, k.index);
    EntryOf(BookOf(c, w), Untag(k));
  }

  /** pop yields a value for an issued key exactly when the key was not removed, if and only if its slot is not one
      retired in place. There it yields a destroyed object. It drops the entry either way. */
  lemma PopIsRightIff<T>(c: Config, ops: seq<Op<T>>, k: Key)
    requires Untag(k) in Run(c, ops).issued
    ensures var w := Run(c, ops);
            var popped := SlotMapState.Pop(c, w.s, k).1;
            && ((popped.Some? <==> Untag(k) in w.contents) <==> !RetiredInPlace(c, w.s, k))
            && (Untag(k) in w.contents ==> popped == Some(Constructed(w.contents[Untag(k)])))
            && (RetiredInPlace(c, w.s, k) ==> popped == Some(Destroyed))
            && Run(c, ops + [OpPop(k)]).contents == w.contents - {Untag(k)}
  {
    LookupRefinesMap(c, ops, k);
    LookupIsMembershipIff(c, ops, k);
    EraseChangesOneEntry(c, ops, k);
    RunOne(c, ops, OpPop(k));
    hide Run, Step, HasKey, RetiredInPlace;
  }

  /** For issued keys, lookup is exactly membership if and only if the slot is not one retired in place. */
  lemma LookupIsMembershipIff<T>(c: Config, ops: seq<Op<T>>, k: Key)
    requires Untag(k) in Run(c, ops).issued
    ensures var w := Run(c, ops);
            (HasKey(c, w.s, k) <==> Untag(k) in w.contents) <==> !RetiredInPlace(c, w.s, k)
  {
    LookupRefinesMap(c, ops, k);
    RunKeepsInv(c, ops);
    var w := Run(c, ops);
    Seen(c, w.s, k.index);
    EntryOf(BookOf(c, w), Untag(k));
    if k.index in FlatOf(c, w.s).slots {
      assert SlotOk(FlatOf(c, w.s).slots[k.index]);
    }
  }

  /** Erase and pop change exactly the entry they name, for every key, whatever its tag. */
  lemma EraseChangesOneEntry<T>(c: Config, ops: seq<Op<T>>, k: Key)
    ensures var w, w' := Run(c, ops), Step(c, Run(c, ops), OpErase(k));
            && Inv(c, w') && w'.s == Erase(c, w.s, k) && w'.contents == w.contents - {Untag(k)}
            && Step(c, w, OpPop(k)) == w'
    ensures var w := Run(c, ops);
            && (EraseImpl(c, w.s, k, true).1.NotFound? <==> Untag(k) !in w.contents)
            && (Untag(k) !in w.contents ==> Erase(c, w.s, k) == w.s)
  {
    hide Inv, EraseBook, KeyFor;
    RunKeepsInv(c, ops);
    var w := Run(c, ops);
    PopIsErase(c, w, k);
    EraseKeepsInv(c, w, k, true);
    EraseBookCounts(w, Erase(c, w.s, k), k);
    ErasableIffPresent(c, w, k);
  }

  /** What eraseImpl reports is what it did: nothing, a page freed, or an index kept in use or retired. */
  lemma EraseReportsWhatItDid<T>(c: Config, ops: seq<Op<T>>, k: Key, checkVersion: bool)
    ensures var s, (s', result) := Run(c, ops).s, EraseImpl(c, Run(c, ops).s, k, checkVersion);
            && (result.NotFound? <==> s' == s)
            && (result.ErasedAndPageDeactivated? <==> IsActivePage(c, s, k.index) && !IsActivePage(c, s', k.index))
            && (s' != s ==> s'.numItems == s.numItems - 1)
            && (|s'.free| == |s.free| + 1 <==>
                result.ErasedAndIndexRecycled? && SlotAt(c, s, k.index).version != MAX_VERSION)
  {
    hide Run, PageOf, OffsetOf;
  }

  /** Clear leaves nothing, erases what was there and issues nothing. */
  lemma ClearLeavesNothing<T>(c: Config, ops: seq<Op<T>>)
    ensures var w, w' := Run(c, ops), Step(c, Run(c, ops), OpClear);
            && w'.s == Clear(c, w.s) && w'.s.numItems == 0 && w'.contents == map[] && Inv(c, w')
            && w'.erases == w.erases + |w.contents| && w'.issued == w.issued
  {
    hide Run, Inv, ClearWorld, ClearFrom;
    RunKeepsInv(c, ops);
    ClearEmpties(c, Run(c, ops), 0);
    SizeIsContents(c, ClearWorld(c, Run(c, ops), 0));
  }

  lemma SizeIsContents<T>(c: Config, w: World<T>)
    requires Inv(c, w)
    ensures w.s.numItems == |w.contents|
  {
  }

  lemma RunAges<T>(c: Config, ops: seq<Op<T>>)
    ensures var b := BookOf(c, Run(c, ops));
            Shape(c, Run(c, ops).s) && AgeOk(b.f, c.minFree, b.retired, b.erases)
  {
    hide FlatOf, AgeOk, EntriesOk, RetiredOk, Run, Shape;
    RunKeepsInv(c, ops);
  }

  /** After E >= 1 erases no slot is past version 2 + (E - 1) / (minFree + 1). */
  lemma VersionsAgeSlowly<T>(c: Config, ops: seq<Op<T>>, i: nat)
    requires Active(c, Run(c, ops).s, i) && Run(c, ops).erases >= 1
    ensures var w := Run(c, ops);
            SlotAt(c, w.s, i).version <= 2 + (w.erases - 1) / (c.minFree + 1)
  {
    hide Run, AgeOk, FlatOf;
    RunAges(c, ops);
    var w := Run(c, ops);
    Seen(c, w.s, i);
    SlotAge(BookOf(c, w), c.minFree, i);
    hide *;
    QuotientBound(SlotAt(c, w.s, i).version - 2, c.minFree + 1, w.erases - 1);
  }

  /** No slot has retired before 1 + (MAX_VERSION - 1) * (minFree + 1) erases. */
  lemma NothingRetiresEarly<T>(c: Config, ops: seq<Op<T>>)
    ensures var w := Run(c, ops);
            w.retired != {} ==> w.erases >= 1 + (MAX_VERSION - 1) * (c.minFree + 1)
  {
    hide Run, FlatOf;
    RunAges(c, ops);
  }

  lemma QuotientBound(q: int, n: nat, e: nat)
    requires n > 0 && q * n <= e
    ensures q <= e / n
  {
    if q > e / n {
      RowsApart(n, e / n, q);
    }
  }

  lemma SlotAge<T>(b: Book<T>, minFree: nat, i: nat)
    requires AgeOk(b.f, minFree, b.retired, b.erases) && i in b.f.slots && b.erases >= 1
    ensures (b.f.slots[i].version - 2) * (minFree + 1) <= b.erases - 1
  {
    var v: int := b.f.slots[i].version;
    assert Times(v - 1, minFree) == Times(v - 2, minFree) + (minFree + 1);
  }

  /** A page's memory is gone exactly when all of its slots are retired. */
  lemma PageFreedIffAllRetired<T>(c: Config, ops: seq<Op<T>>, p: nat)
    requires p < |Run(c, ops).s.pages|
    ensures var w := Run(c, ops);
            !w.s.pages[p].resident <==>
            w.s.pages[p].numUsed == c.pageSize && forall j: nat | j < c.pageSize :: IndexOf(c, p, j) in w.retired
  {
    RunKeepsInv(c, ops);
    var w := Run(c, ops);
    var page := w.s.pages[p];
    assert PageOk(c, page);
    forall j: nat | j < page.numUsed
      ensures IndexOf(c, p, j) in w.retired <==> !page.resident || page.slots[j].inactive
    {
      JoinIndex(c, p, j);
      Seen(c, w.s, IndexOf(c, p, j));
      KnownIffBelowTotal(c, w.s, IndexOf(c, p, j));
    }
    CountIsLengthIffAll(page.slots);
    if page.resident && page.numUsed == c.pageSize {
      var j :| 0 <= j < |page.slots| && !page.slots[j].inactive;
      assert IndexOf(c, p, j) !in w.retired;
    }
  }

  /** Every slot ever made is live, waiting for reuse or retired. */
  lemma SlotsAreConserved<T>(c: Config, ops: seq<Op<T>>)
    ensures var w := Run(c, ops);
            w.s.numItems + |w.s.free| + |w.retired| == Total(c, w.s)
  {
    RunKeepsInv(c, ops);
  }

  lemma RunOne<T>(c: Config, ops: seq<Op<T>>, op: Op<T>)
    ensures Run(c, ops + [op]) == Step(c, Run(c, ops), op)
  {
    assert (ops + [op])[..|ops|] == ops;
  }
}
