// The state of the generational slot map and one transition function per operation.

module SlotMapState {
  import opened Common

  const MIN_VERSION: nat := 1
  const MAX_VERSION: nat := 0xfffff

  /** The two template parameters. A page size is a power of two in the source; only its being positive matters. */
  datatype RawConfig = RawConfig(pageSize: nat, minFree: nat)
  type Config = c: RawConfig | c.pageSize >= 1 witness RawConfig(4096, 64)

  /** A 64-bit key, unpacked; SlotKey proves the packing a bijection. */
  datatype Key = Key(tag: nat, version: nat, index: nat)

  /** A value cell: a constructed object, or raw memory after its destructor ran. */
  datatype Storage<T> = Constructed(value: T) | Destroyed

  datatype Slot<T> = Slot(version: nat, tombstone: bool, inactive: bool, storage: Storage<T>)

  /** A page; `slots` holds the `numUsed` initialised entries and is gone once the memory is released. */
  datatype Page<T> = Page(resident: bool, slots: seq<Slot<T>>, numInactive: nat, numUsed: nat)

  datatype State<T> = State(pages: seq<Page<T>>, free: seq<Key>, numItems: int, maxValidIndex: nat)

  datatype EraseResult = NotFound | ErasedAndIndexRecycled | ErasedAndPageDeactivated

  function EmptyState<T>(): State<T> { State([], [], 0, 0) }

  // ----- addressing -----

  function PageOf(c: Config, i: nat): nat { i / c.pageSize }

  function OffsetOf(c: Config, i: nat): nat { i % c.pageSize }

  function IndexOf(c: Config, page: nat, offset: nat): nat { page * c.pageSize + offset }

  predicate IsActivePage<T>(c: Config, s: State<T>, i: nat) {
    PageOf(c, i) < |s.pages| && s.pages[PageOf(c, i)].resident
  }

  /** Index `i` names an initialised slot of a page that still has its memory. */
  predicate Active<T>(c: Config, s: State<T>, i: nat) {
    IsActivePage(c, s, i) && OffsetOf(c, i) < |s.pages[PageOf(c, i)].slots|
  }

  /** Index `i` has been handed out by `appendElement`, whether or not its page still has its memory. */
  predicate Known<T>(c: Config, s: State<T>, i: nat) {
    PageOf(c, i) < |s.pages| && OffsetOf(c, i) < s.pages[PageOf(c, i)].numUsed
  }

  function SlotAt<T>(c: Config, s: State<T>, i: nat): Slot<T>
    requires Active(c, s, i)
  {
    s.pages[PageOf(c, i)].slots[OffsetOf(c, i)]
  }

  function SetSlot<T>(c: Config, s: State<T>, i: nat, x: Slot<T>): State<T>
    requires Active(c, s, i)
  {
    var page := s.pages[PageOf(c, i)];
    s.(pages := s.pages[PageOf(c, i) := page.(slots := page.slots[OffsetOf(c, i) := x])])
  }

  /** How many slots were ever appended. */
  function Total<T>(c: Config, s: State<T>): nat {
    if s.pages == [] then 0 else IndexOf(c, |s.pages| - 1, s.pages[|s.pages| - 1].numUsed)
  }

  // ----- operations -----

  function Untag(k: Key): Key { k.(tag := 0) }

  predicate HasKey<T>(c: Config, s: State<T>, k: Key) {
    k.index <= s.maxValidIndex && Active(c, s, k.index) && SlotAt(c, s, k.index).version == k.version
  }

  /** `get` compares the version only, so what it points at may be a destroyed object. */
  function Get<T>(c: Config, s: State<T>, k: Key): Option<Storage<T>> {
    if HasKey(c, s, k) then Some(SlotAt(c, s, k.index).storage) else None
  }

  /** The page with one more retired slot; the memory goes when the whole page is retired. */
  function RetireOne<T>(c: Config, page: Page<T>): Page<T> {
    if page.numInactive + 1 == c.pageSize
    then Page(false, [], page.numInactive + 1, page.numUsed)
    else page.(numInactive := page.numInactive + 1)
  }

  predicate Erasable<T>(c: Config, s: State<T>, k: Key, checkVersion: bool) {
    && k.index <= s.maxValidIndex && Active(c, s, k.index)
    && !SlotAt(c, s, k.index).tombstone
    && (checkVersion ==> SlotAt(c, s, k.index).version == k.version && k.version != 0)
  }

  function EraseImpl<T>(c: Config, s: State<T>, k: Key, checkVersion: bool): (State<T>, EraseResult) {
    if !Erasable(c, s, k, checkVersion) then (s, NotFound) else
    var version := SlotAt(c, s, k.index).version;
    if version == MAX_VERSION then
      var s1 := SetSlot(c, s, k.index, Slot(version, true, true, Destroyed));
      var page := RetireOne(c, s1.pages[PageOf(c, k.index)]);
      (s1.(pages := s1.pages[PageOf(c, k.index) := page], numItems := s.numItems - 1),
       if page.resident then ErasedAndIndexRecycled else ErasedAndPageDeactivated)
    else
      var s1 := SetSlot(c, s, k.index, Slot(version + 1, true, false, Destroyed));
      (s1.(free := s.free + [Key(0, version + 1, k.index)], numItems := s.numItems - 1),
       ErasedAndIndexRecycled)
  }

  function Erase<T>(c: Config, s: State<T>, k: Key): State<T> { EraseImpl(c, s, k, true).0 }

  function Pop<T>(c: Config, s: State<T>, k: Key): (State<T>, Option<Storage<T>>) {
    var found := Get(c, s, k);
    (if found.None? then s else Erase(c, s, k), found)
  }

  /** The slot index `appendElement` is about to hand out. */
  function NextIndex<T>(c: Config, s: State<T>): nat {
    if s.pages == [] || s.pages[|s.pages| - 1].numUsed == c.pageSize
    then IndexOf(c, |s.pages|, 0)
    else IndexOf(c, |s.pages| - 1, s.pages[|s.pages| - 1].numUsed)
  }

  function AppendElement<T>(c: Config, s: State<T>, v: T): State<T> {
    var added := Slot(MIN_VERSION, false, false, Constructed(v));
    if s.pages == [] || s.pages[|s.pages| - 1].numUsed == c.pageSize then
      s.(pages := s.pages + [Page(true, [added], 0, 1)])
    else
      var last := s.pages[|s.pages| - 1];
      s.(pages := s.pages[|s.pages| - 1 := last.(slots := last.slots + [added], numUsed := last.numUsed + 1)])
  }

  /** The oldest recycled key is reused only above the threshold, and its slot is there to reuse. */
  predicate Recycles<T>(c: Config, s: State<T>) {
    |s.free| > c.minFree && Active(c, s, s.free[0].index)
  }

  function Emplace<T>(c: Config, s: State<T>, v: T): (State<T>, Key) {
    if Recycles(c, s) then
      var k := s.free[0];
      var slot := SlotAt(c, s, k.index).(tombstone := false, storage := Constructed(v));
      (SetSlot(c, s, k.index, slot).(free := s.free[1..], numItems := s.numItems + 1), k)
    else
      var i := NextIndex(c, s);
      (AppendElement(c, s, v).(numItems := s.numItems + 1,
                               maxValidIndex := if i > s.maxValidIndex then i else s.maxValidIndex),
       Key(0, MIN_VERSION, i))
  }

  /** `clear` from slot `i` on: an unchecked erase of every index. */
  function ClearFrom<T>(c: Config, s: State<T>, i: nat): State<T>
    decreases Total(c, s) - i
  {
    if i >= Total(c, s) then s else
    TotalUnchangedByErase(c, s, Key(0, MIN_VERSION, i), false);
    ClearFrom(c, EraseImpl(c, s, Key(0, MIN_VERSION, i), false).0, i + 1)
  }

  lemma TotalUnchangedByErase<T>(c: Config, s: State<T>, k: Key, checkVersion: bool)
    ensures Total(c, EraseImpl(c, s, k, checkVersion).0) == Total(c, s)
  {
  }

  function Clear<T>(c: Config, s: State<T>): State<T> { ClearFrom(c, s, 0) }
}
