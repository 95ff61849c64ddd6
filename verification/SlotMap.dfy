// The slot map as the source writes it: fields updated in place, proved against SlotMapState.

module SlotMap {
  import opened Common
  import opened SlotMapState
  import opened SlotMapRuns

  class SlotMap<T> {
    const cfg: Config
    var pages: seq<Page<T>>
    var freeIndices: seq<Key>
    var numItems: int
    var maxValidIndex: nat
    /** Every operation so far; SlotMapRuns says what follows from it. */
    ghost var history: seq<Op<T>>

    ghost function Now(): State<T>
      reads this
    {
      State(pages, freeIndices, numItems, maxValidIndex)
    }

    ghost function Past(): World<T>
      reads this
    {
      Run(cfg, history)
    }

    ghost function Contents(): map<Key, T>
      reads this
    {
      Past().contents
    }

    ghost predicate Valid()
      reads this
    {
      Now() == Past().s && Inv(cfg, Past())
    }

    constructor (cfg: Config)
      ensures this.cfg == cfg && history == [] && Valid() && Contents() == map[]
    {
      this.cfg := cfg;
      pages, freeIndices, numItems, maxValidIndex := [], [], 0, 0;
      history := [];
      new;
      EmptyInv<T>(cfg);
    }

    predicate IsResident(p: nat)
      reads this
    {
      p < |pages| && pages[p].resident
    }

    /** True for a present key, false for an issued absent one unless its slot retired in place. */
    method Has(k: Key) returns (found: bool)
      requires Valid()
      ensures Untag(k) in Contents() ==> found
      ensures Untag(k) in Past().issued && Untag(k) !in Contents() ==> (found <==> RetiredInPlace(cfg, Now(), k))
      ensures found <==> HasKey(cfg, Now(), k)
    {
      LookupRefinesMap(cfg, history, k);
      InBounds(cfg, Past(), k.index);
      hide Run, Inv;
      if k.index > maxValidIndex {
        return false;
      }
      if !IsResident(PageOf(cfg, k.index)) {
        return false;
      }
      return pages[PageOf(cfg, k.index)].slots[OffsetOf(cfg, k.index)].version == k.version;
    }

    method GetImpl(k: Key) returns (found: Option<Storage<T>>)
      requires Valid()
      ensures Untag(k) in Contents() ==> found == Some(Constructed(Contents()[Untag(k)]))
      ensures Untag(k) in Past().issued && Untag(k) !in Contents() && !RetiredInPlace(cfg, Now(), k) ==> found.None?
      ensures found == Get(cfg, Now(), k)
    {
      LookupRefinesMap(cfg, history, k);
      InBounds(cfg, Past(), k.index);
      hide Run, Inv;
      if k.index > maxValidIndex {
        return None;
      }
      if !IsResident(PageOf(cfg, k.index)) {
        return None;
      }
      var slot := pages[PageOf(cfg, k.index)].slots[OffsetOf(cfg, k.index)];
      if slot.version != k.version {
        return None;
      }
      return Some(slot.storage);
    }

    /** Adds a slot to the last page, or to a new one when that is full. */
    method AppendElement(value: T) returns (index: nat)
      modifies this`pages
      ensures old(Now()).(pages := pages) == SlotMapState.AppendElement(cfg, old(Now()), value)
      ensures index == NextIndex(cfg, old(Now()))
    {
      if |pages| == 0 || pages[|pages| - 1].numUsed == cfg.pageSize {
        pages := pages + [Page(true, [], 0, 0)];
      }
      var last := |pages| - 1;
      var offset := pages[last].numUsed;
      var slot := Slot(MIN_VERSION, false, false, Constructed(value));
      assert pages[last].slots + [slot] == if |old(pages)| == |pages| then old(pages)[last].slots + [slot] else [slot];
      pages := pages[last := pages[last].(slots := pages[last].slots + [slot], numUsed := offset + 1)];
      index := IndexOf(cfg, last, offset);
    }

    /** The slot bookkeeping of emplace: reuse the oldest recycled key above the threshold, else a new slot. */
    method EmplaceImpl(value: T) returns (k: Key)
      requires |freeIndices| > cfg.minFree ==> Active(cfg, Now(), freeIndices[0].index)
      modifies this`pages, this`freeIndices, this`numItems, this`maxValidIndex
      ensures Now() == SlotMapState.Emplace(cfg, old(Now()), value).0
      ensures k == SlotMapState.Emplace(cfg, old(Now()), value).1
    {
      hide PageOf, OffsetOf, IndexOf, SlotMapState.AppendElement, NextIndex;
      if |freeIndices| > cfg.minFree {
        k := freeIndices[0];
        freeIndices := freeIndices[1..];
        var p, j := PageOf(cfg, k.index), OffsetOf(cfg, k.index);
        var slot := pages[p].slots[j];
        slot := slot.(tombstone := false, storage := Constructed(value));
        pages := pages[p := pages[p].(slots := pages[p].slots[j := slot])];
        numItems := numItems + 1;
      } else {
        var index := AppendElement(value);
        maxValidIndex := if index > maxValidIndex then index else maxValidIndex;
        numItems := numItems + 1;
        k := Key(0, MIN_VERSION, index);
      }
    }

    /** Returns a key never issued before and adds exactly that entry. */
    method Emplace(value: T) returns (k: Key)
      requires Valid()
      modifies this
      ensures Valid() && history == old(history) + [OpEmplace(value)]
      ensures k !in old(Past().issued) && k.tag == 0 && Past().issued == old(Past().issued) + [k]
      ensures Contents() == old(Contents())[k := value] && numItems == |Contents()|
    {
      hide Run, Inv, Step, SlotMapState.Emplace, PageOf, OffsetOf;
      RunOne(cfg, history, OpEmplace(value));
      EmplaceStep(cfg, Past(), value);
      k := EmplaceImpl(value);
      history := history + [OpEmplace(value)];
      SizeIsContents(cfg, Past());
    }

    /** The shared body of erase, pop and clear. */
    method EraseImpl(k: Key, checkVersion: bool) returns (result: EraseResult)
      requires Active(cfg, Now(), k.index) <==> k.index <= maxValidIndex && IsActivePage(cfg, Now(), k.index)
      requires Active(cfg, Now(), k.index) ==> SlotOk(SlotAt(cfg, Now(), k.index))
      modifies this`pages, this`freeIndices, this`numItems
      ensures Now() == SlotMapState.EraseImpl(cfg, old(Now()), k, checkVersion).0
      ensures result == SlotMapState.EraseImpl(cfg, old(Now()), k, checkVersion).1
    {
      hide PageOf, OffsetOf;
      var p, j := PageOf(cfg, k.index), OffsetOf(cfg, k.index);
      if k.index > maxValidIndex {
        return NotFound;
      }
      if !IsResident(p) {
        return NotFound;
      }
      var slot := pages[p].slots[j];
      if slot.tombstone {
        return NotFound;
      }
      var version := slot.version;
      if checkVersion && (version != k.version || version == 0 || k.version == 0) {
        return NotFound;
      }
      var deactivate := version == MAX_VERSION;
      if !deactivate {
        version := version + 1;
      }
      slot := Slot(version, true, deactivate || slot.inactive, Destroyed);
      pages := pages[p := pages[p].(slots := pages[p].slots[j := slot])];
      numItems := numItems - 1;
      if deactivate {
        var page := pages[p].(numInactive := pages[p].numInactive + 1);
        if page.numInactive == cfg.pageSize {
          page := page.(resident := false, slots := []);
          pages := pages[p := page];
          return ErasedAndPageDeactivated;
        }
        pages := pages[p := page];
      } else {
        freeIndices := freeIndices + [Key(0, version, k.index)];
      }
      return ErasedAndIndexRecycled;
    }

    /** Removes the entry of the untagged key, if present, and nothing else. */
    method Erase(k: Key)
      requires Valid()
      modifies this
      ensures Valid() && history == old(history) + [OpErase(k)]
      ensures Contents() == old(Contents()) - {Untag(k)} && Past().issued == old(Past().issued)
      ensures numItems == |Contents()|
    {
      hide Run, Inv, SlotMapState.EraseImpl, EraseBook, Active, SlotAt, SlotOk, IsActivePage, Total, KeyFor;
      EraseKeepsInv(cfg, Past(), k, true);
      EraseBookCounts(Past(), SlotMapState.Erase(cfg, Now(), k), k);
      RunOne(cfg, history, OpErase(k));
      InBounds(cfg, Past(), k.index);
      var _ := EraseImpl(k, true);
      history := history + [OpErase(k)];
      SizeIsContents(cfg, Past());
    }

    /** Erase, returning the value that was there. */
    method Pop(k: Key) returns (popped: Option<Storage<T>>)
      requires Valid()
      modifies this
      ensures Valid() && history == old(history) + [OpPop(k)]
      ensures Contents() == old(Contents()) - {Untag(k)} && Past().issued == old(Past().issued)
      ensures Untag(k) in old(Contents()) ==> popped == Some(Constructed(old(Contents())[Untag(k)]))
      ensures Untag(k) in old(Past()).issued && Untag(k) !in old(Contents()) ==>
                popped == if RetiredInPlace(cfg, old(Now()), k) then Some(Destroyed) else None
      ensures popped == Get(cfg, old(Now()), k) && numItems == |Contents()|
    {
      LookupRefinesMap(cfg, history, k);
      hide RetiredInPlace;
      hide Run, Inv, Step, SlotMapState.EraseImpl, SlotAt, SlotOk, IsActivePage, Total, Get, HasKey;
      PopStep(cfg, Past(), k);
      RunOne(cfg, history, OpPop(k));
      popped := GetImpl(k);
      if popped.Some? {
        InBounds(cfg, Past(), k.index);
        var _ := EraseImpl(k, true);
      }
      history := history + [OpPop(k)];
      SizeIsContents(cfg, Past());
    }

    /** Empties the map page by page, skipping pages without memory and leaving a page once it is freed. */
    method Clear()
      requires Valid()
      modifies this
      ensures Valid() && history == old(history) + [OpClear]
      ensures Contents() == map[] && numItems == 0 && Past().issued == old(Past().issued)
      ensures Past().erases == old(Past().erases) + |old(Contents())|
    {
      hide Run, Inv, SlotMapState.EraseImpl, EraseBook, KeyFor, ClearWorld, ClearFrom, Total, Active, SlotAt;
      hide IndexOf, PageOf, OffsetOf;
      ghost var s0, w := Now(), Past();
      RunOne(cfg, history, OpClear);
      ClearEmpties(cfg, w, 0);
      assert IndexOf(cfg, 0, 0) == 0 by {
        JoinOrigin(cfg);
      }
      var p := 0;
      while p < |pages|
        invariant p <= |pages| && history == old(history)
        invariant Inv(cfg, w) && w.s == Now()
        invariant ClearFrom(cfg, Now(), IndexOf(cfg, p, 0)) == ClearFrom(cfg, s0, 0)
        decreases |s0.pages| - p
        invariant |pages| == |s0.pages|
      {
        var j := 0;
        if pages[p].resident {
          while j < pages[p].numUsed
            invariant p < |pages| == |s0.pages| && j <= pages[p].numUsed && history == old(history)
            invariant Inv(cfg, w) && w.s == Now()
            invariant ClearFrom(cfg, Now(), IndexOf(cfg, p, j)) == ClearFrom(cfg, s0, 0)
          {
            ghost var s := Now();
            var index := IndexOf(cfg, p, j);
            ClearOneKeeps(cfg, w, Key(0, MIN_VERSION, index));
            InvShape(cfg, w);
            ClearOneMovesOn(cfg, s, p, j);
            InBounds(cfg, w, index);
            var result := EraseImpl(Key(0, MIN_VERSION, index), false);
            w := EraseBook(w, Now(), KeyFor(cfg, s, index));
            j := j + 1;
            if result == ErasedAndPageDeactivated {
              break;
            }
          }
        }
        InvShape(cfg, w);
        ClearPastPage(cfg, Now(), p, j);
        p := p + 1;
      }
      InvShape(cfg, w);
      ClearEnds(cfg, Now());
      history := history + [OpClear];
      SizeIsContents(cfg, Past());
    }

    method IsTombstone(i: nat) returns (dead: bool)
      requires Valid() && i <= maxValidIndex && pages != []
      ensures dead <==> !LiveAt(cfg, Now(), i)
    {
      InBounds(cfg, Past(), i);
      hide Run, Inv, PageOf, OffsetOf;
      var page := pages[PageOf(cfg, i)];
      if !page.resident {
        return true;
      }
      return page.slots[OffsetOf(cfg, i)].tombstone;
    }

    method Begin() returns (i: nat)
      requires Valid()
      ensures i <= maxValidIndex + 1 && (pages == [] ==> i == maxValidIndex + 1)
      ensures forall k: nat | k < i :: !LiveAt(cfg, Now(), k)
      ensures i <= maxValidIndex ==> LiveAt(cfg, Now(), i)
    {
      hide Run, Inv;
      if pages == [] {
        return maxValidIndex + 1;
      }
      i := 0;
      while i <= maxValidIndex
        invariant i <= maxValidIndex + 1
        invariant forall k: nat | k < i :: !LiveAt(cfg, Now(), k)
      {
        var dead := IsTombstone(i);
        if !dead {
          break;
        }
        i := i + 1;
      }
    }

    method Next(current: nat) returns (i: nat)
      requires Valid() && current <= maxValidIndex && pages != []
      ensures current < i <= maxValidIndex + 1
      ensures forall k: nat | current < k < i :: !LiveAt(cfg, Now(), k)
      ensures i <= maxValidIndex ==> LiveAt(cfg, Now(), i)
    {
      hide Run, Inv;
      i := current + 1;
      while i <= maxValidIndex
        invariant current < i <= maxValidIndex + 1
        invariant forall k: nat | current < k < i :: !LiveAt(cfg, Now(), k)
      {
        var dead := IsTombstone(i);
        if !dead {
          break;
        }
        i := i + 1;
      }
    }

    /** A walk from begin to end: every live slot once, in index order, and none that was destroyed. */
    method Walk() returns (visited: seq<nat>, values: seq<T>)
      requires Valid()
      ensures forall m, n | 0 <= m < n < |visited| :: visited[m] < visited[n]
      ensures forall i: nat :: i in visited <==> LiveAt(cfg, Now(), i)
      ensures |visited| == |values| == numItems
      ensures forall n | 0 <= n < |values| ::
                KeyFor(cfg, Now(), visited[n]) in Contents() && values[n] == Contents()[KeyFor(cfg, Now(), visited[n])]
    {
      visited, values := [], [];
      hide Run, Inv;
      var i := Begin();
      while i != maxValidIndex + 1
        invariant i <= maxValidIndex + 1 && (i <= maxValidIndex ==> LiveAt(cfg, Now(), i))
        invariant pages == [] ==> i == maxValidIndex + 1
        invariant forall m, n | 0 <= m < n < |visited| :: visited[m] < visited[n]
        invariant forall n | 0 <= n < |visited| :: visited[n] < i && LiveAt(cfg, Now(), visited[n])
        invariant forall k: nat | k < i :: k in visited <==> LiveAt(cfg, Now(), k)
        invariant |visited| == |values|
        invariant forall n | 0 <= n < |values| ::
                    && KeyFor(cfg, Now(), visited[n]) in Contents()
                    && values[n] == Contents()[KeyFor(cfg, Now(), visited[n])]
      {
        LiveEntry(cfg, Past(), i);
        values := values + [pages[PageOf(cfg, i)].slots[OffsetOf(cfg, i)].storage.value];
        visited := visited + [i];
        i := Next(i);
      }
      EveryEntryVisited(cfg, Past(), visited);
    }
  }

  ghost predicate LiveAt<T>(c: Config, s: State<T>, i: nat) {
    Active(c, s, i) && !SlotAt(c, s, i).tombstone
  }

  lemma LiveEntry<T>(c: Config, w: World<T>, i: nat)
    requires Inv(c, w) && LiveAt(c, w.s, i)
    ensures i <= w.s.maxValidIndex && KeyFor(c, w.s, i) in w.contents
    ensures SlotAt(c, w.s, i).storage == Constructed(w.contents[KeyFor(c, w.s, i)])
  {
    Seen(c, w.s, i);
    EntryOf(BookOf(c, w), KeyFor(c, w.s, i));
  }

  /** A strictly increasing list of the live indices has as many entries as the map. */
  lemma EveryEntryVisited<T>(c: Config, w: World<T>, visited: seq<nat>)
    requires Inv(c, w)
    requires forall m, n | 0 <= m < n < |visited| :: visited[m] < visited[n]
    requires forall i: nat | i <= w.s.maxValidIndex :: i in visited <==> LiveAt(c, w.s, i)
    requires forall i | i in visited :: i <= w.s.maxValidIndex
    ensures |visited| == w.s.numItems
    ensures forall i: nat :: i in visited <==> LiveAt(c, w.s, i)
  {
    hide *;
    SizeIsContents(c, w);
    forall i: nat | LiveAt(c, w.s, i)
      ensures i <= w.s.maxValidIndex && KeyFor(c, w.s, i) in w.contents && KeyFor(c, w.s, i).index == i
    {
      LiveEntry(c, w, i);
      KeyForIndex(c, w.s, i);
    }
    forall k | k in w.contents
      ensures k == KeyFor(c, w.s, k.index) && k.index in visited
    {
      EntryIsLive(c, w, k);
    }
    var indices := Elements(visited);
    IncreasingHasNoRepeats(visited);
    assert forall i | i in indices :: KeyFor(c, w.s, i) in w.contents.Keys && KeyFor(c, w.s, i).index == i;
    OneKeyPerIndex(w.contents.Keys, indices);
    assert |indices| == |visited|;
    assert |w.contents.Keys| == |w.contents|;
  }

  /** The elements of a list, as many as its length when it is strictly increasing. */
  function Elements(visited: seq<nat>): (indices: set<nat>)
    ensures forall i :: i in indices <==> i in visited
  {
    if visited == [] then {} else Elements(visited[..|visited| - 1]) + {visited[|visited| - 1]}
  }

  lemma {:induction false} IncreasingHasNoRepeats(visited: seq<nat>)
    requires forall m, n | 0 <= m < n < |visited| :: visited[m] < visited[n]
    ensures |Elements(visited)| == |visited|
  {
    if visited != [] {
      var last := |visited| - 1;
      var rest := visited[..last];
      LastIsNew(visited);
      IncreasingHasNoRepeats(rest);
      var indices := Elements(rest);
      assert Elements(visited) == indices + {visited[last]};
      hide Elements;
    }
  }

  lemma LastIsNew(visited: seq<nat>)
    requires visited != [] && forall m, n | 0 <= m < n < |visited| :: visited[m] < visited[n]
    ensures visited[|visited| - 1] !in visited[..|visited| - 1]
  {
  }

  lemma {:induction false} OneKeyPerIndex(keys: set<Key>, indices: set<nat>)
    requires forall k | k in keys :: k.index in indices
    requires forall i | i in indices :: exists k :: k in keys && k.index == i
    requires forall k, k' | k in keys && k' in keys :: k.index == k'.index ==> k == k'
    ensures |keys| == |indices|
  {
    if keys == {} {
      assert indices == {};
    } else {
      var k :| k in keys;
      OneKeyPerIndex(keys - {k}, indices - {k.index});
    }
  }

  lemma KeyForIndex<T>(c: Config, s: State<T>, i: nat)
    ensures KeyFor(c, s, i).index == i
  {
  }

  lemma EntryIsLive<T>(c: Config, w: World<T>, k: Key)
    requires Inv(c, w) && k in w.contents
    ensures k == KeyFor(c, w.s, k.index) && LiveAt(c, w.s, k.index) && k.index <= w.s.maxValidIndex
  {
    OnePresentKeyPerSlot(c, w, k);
    EntryOf(BookOf(c, w), k);
    Seen(c, w.s, k.index);
  }

  lemma JoinOrigin(c: Config)
    ensures IndexOf(c, 0, 0) == 0
  {
  }

  lemma ClearOneKeeps<T>(c: Config, w: World<T>, k: Key)
    requires Inv(c, w)
    ensures var w' := EraseBook(w, SlotMapState.EraseImpl(c, w.s, k, false).0, KeyFor(c, w.s, k.index));
            Inv(c, w') && w'.s == SlotMapState.EraseImpl(c, w.s, k, false).0
  {
    hide *;
    EraseKeepsInv(c, w, k, false);
    EraseBookCounts(w, SlotMapState.EraseImpl(c, w.s, k, false).0, KeyFor(c, w.s, k.index));
  }

  lemma ClearOneMovesOn<T>(c: Config, s: State<T>, p: nat, j: nat)
    requires Shape(c, s) && p < |s.pages| && j < s.pages[p].numUsed
    ensures var erased := SlotMapState.EraseImpl(c, s, Key(0, MIN_VERSION, IndexOf(c, p, j)), false);
            && ClearFrom(c, s, IndexOf(c, p, j)) == ClearFrom(c, erased.0, IndexOf(c, p, j + 1))
            && |erased.0.pages| == |s.pages| && erased.0.pages[p].numUsed == s.pages[p].numUsed
            && (erased.1 == ErasedAndPageDeactivated ==> !erased.0.pages[p].resident)
  {
    hide *;
    UsedSlot(c, s, p, j);
    EraseKeepsPages(c, s, Key(0, MIN_VERSION, IndexOf(c, p, j)));
    ClearUnfolds(c, s, IndexOf(c, p, j));
  }

  lemma UsedSlot<T>(c: Config, s: State<T>, p: nat, j: nat)
    requires Shape(c, s) && p < |s.pages| && j < s.pages[p].numUsed
    ensures PageOf(c, IndexOf(c, p, j)) == p && IndexOf(c, p, j) < Total(c, s)
    ensures IndexOf(c, p, j + 1) == IndexOf(c, p, j) + 1
  {
    assert PageOk(c, s.pages[p]);
    JoinIndex(c, p, j);
    hide PageOf, OffsetOf, IndexOf, Total, Active;
    KnownIffBelowTotal(c, s, IndexOf(c, p, j));
  }

  lemma EraseKeepsPages<T>(c: Config, s: State<T>, k: Key)
    ensures var s' := SlotMapState.EraseImpl(c, s, k, false).0;
            var result := SlotMapState.EraseImpl(c, s, k, false).1;
            && |s'.pages| == |s.pages| && (forall p | 0 <= p < |s.pages| :: s'.pages[p].numUsed == s.pages[p].numUsed)
            && (result == ErasedAndPageDeactivated ==>
                 PageOf(c, k.index) < |s.pages| && !s'.pages[PageOf(c, k.index)].resident)
  {
    hide PageOf, OffsetOf;
  }

  lemma ClearUnfolds<T>(c: Config, s: State<T>, i: nat)
    requires i < Total(c, s)
    ensures ClearFrom(c, s, i) == ClearFrom(c, SlotMapState.EraseImpl(c, s, Key(0, MIN_VERSION, i), false).0, i + 1)
  {
  }

  lemma ClearSkips<T>(c: Config, s: State<T>, i: nat)
    requires i < Total(c, s) && !Active(c, s, i)
    ensures ClearFrom(c, s, i) == ClearFrom(c, s, i + 1)
  {
    hide Active;
  }

  lemma ClearDone<T>(c: Config, s: State<T>, i: nat)
    requires i >= Total(c, s)
    ensures ClearFrom(c, s, i) == s
  {
  }

  /** Past the last used slot of a page, or once its memory is gone, clear has nothing more to do in it. */
  lemma {:induction false} ClearPastPage<T>(c: Config, s: State<T>, p: nat, j: nat)
    requires Shape(c, s) && p < |s.pages| && j <= s.pages[p].numUsed
    requires j == s.pages[p].numUsed || !s.pages[p].resident
    ensures ClearFrom(c, s, IndexOf(c, p, j)) == ClearFrom(c, s, IndexOf(c, p + 1, 0))
    decreases s.pages[p].numUsed - j
  {
    hide ClearFrom;
    assert PageOk(c, s.pages[p]);
    NextRow(c.pageSize, p);
    if j < s.pages[p].numUsed {
      JoinIndex(c, p, j);
      KnownIffBelowTotal(c, s, IndexOf(c, p, j));
      ClearSkips(c, s, IndexOf(c, p, j));
      ClearPastPage(c, s, p, j + 1);
    } else if j < c.pageSize {
      ClearDone(c, s, IndexOf(c, p, j));
      ClearDone(c, s, IndexOf(c, p + 1, 0));
    }
  }

  lemma ClearEnds<T>(c: Config, s: State<T>)
    requires Shape(c, s)
    ensures ClearFrom(c, s, IndexOf(c, |s.pages|, 0)) == s
  {
    hide ClearFrom;
    if s.pages != [] {
      assert PageOk(c, s.pages[|s.pages| - 1]);
      NextRow(c.pageSize, |s.pages| - 1);
    }
    ClearDone(c, s, IndexOf(c, |s.pages|, 0));
  }

  lemma PopStep<T>(c: Config, w: World<T>, k: Key)
    requires Inv(c, w)
    ensures var w' := Step(c, w, OpPop(k));
            && Inv(c, w') && w'.s == (if Get(c, w.s, k).None? then w.s else SlotMapState.Erase(c, w.s, k))
            && w'.contents == w.contents - {Untag(k)} && w'.issued == w.issued
  {
    PopStays(c, w.s, k);
    hide Inv, EraseBook, SlotMapState.EraseImpl, SlotMapState.Pop, Get, KeyFor;
    EraseKeepsInv(c, w, k, true);
    PopIsErase(c, w, k);
    EraseBookCounts(w, SlotMapState.Erase(c, w.s, k), k);
  }

  lemma PopStays<T>(c: Config, s: State<T>, k: Key)
    ensures Get(c, s, k).None? ==> SlotMapState.Pop(c, s, k).0 == s
  {
    hide Get, SlotMapState.Erase;
  }

  lemma EmplaceStep<T>(c: Config, w: World<T>, v: T)
    requires Inv(c, w)
    ensures var (s', k) := SlotMapState.Emplace(c, w.s, v);
            && k !in w.issued && k.tag == 0 && (Recycles(c, w.s) <==> |w.s.free| > c.minFree)
            && Step(c, w, OpEmplace(v)) == World(s', w.issued + [k], w.contents[k := v], w.retired, w.erases)
            && Inv(c, Step(c, w, OpEmplace(v)))
  {
    hide Inv;
    EmplaceKeepsInv(c, w, v);
  }

  /** The bounds test of the source is exact: an index up to maxValidIndex in a page with memory has a slot. */
  lemma InBounds<T>(c: Config, w: World<T>, i: nat)
    requires Inv(c, w)
    ensures Active(c, w.s, i) <==> i <= w.s.maxValidIndex && IsActivePage(c, w.s, i)
    ensures Active(c, w.s, i) ==> SlotOk(SlotAt(c, w.s, i))
    ensures w.s.pages != [] ==> (i <= w.s.maxValidIndex <==> i < Total(c, w.s))
    ensures i < Total(c, w.s) ==> PageOf(c, i) < |w.s.pages|
  {
    KnownIffBelowTotal(c, w.s, i);
    Seen(c, w.s, i);
    if Active(c, w.s, i) {
      assert SlotOk(FlatOf(c, w.s).slots[i]);
    }
    hide FlatOf, EntriesOk, RetiredOk, AgeOk;
    if w.s.pages != [] {
      assert PageOk(c, w.s.pages[|w.s.pages| - 1]);
    }
  }

  lemma InvShape<T>(c: Config, w: World<T>)
    requires Inv(c, w)
    ensures Shape(c, w.s)
  {
  }
}
