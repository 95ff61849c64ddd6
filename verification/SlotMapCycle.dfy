// The run that ages slots fastest, for every configuration: one slot more than is held back from reuse, in turn.

module SlotMapCycle {
  import opened Common
  import opened SlotMapState
  import opened SlotMapRuns

  /** How many slots take part. */
  function Seats(c: Config): (n: nat)
    ensures n == c.minFree + 1
  {
    c.minFree + 1
  }

  /** Erase number e (from 0) hits this key: its slot's turn comes round every `Seats` erases. */
  function Victim(c: Config, e: nat): Key { Key(0, e / Seats(c) + 1, e % Seats(c)) }

  function Fill<T>(c: Config, v: T, n: nat): seq<Op<T>> {
    if n == 0 then [] else Fill(c, v, n - 1) + [OpEmplace(v)]
  }

  /** E erases: of the first values in turn, then each of a value just emplaced into the slot whose turn it is. */
  function Cycle<T>(c: Config, v: T, e: nat): seq<Op<T>> {
    if e == 0 then Fill(c, v, Seats(c))
    else if e <= Seats(c) then Cycle(c, v, e - 1) + [OpErase(Victim(c, e - 1))]
    else Cycle(c, v, e - 1) + [OpEmplace(v)] + [OpErase(Victim(c, e - 1))]
  }

  // ----- one operation -----

  /** An emplace takes the front of a long enough queue, or else the next slot. */
  lemma EmplaceOne<T>(c: Config, w: World<T>, v: T, k: Key)
    requires Inv(c, w)
    requires k == if |w.s.free| > c.minFree then w.s.free[0] else Key(0, MIN_VERSION, Total(c, w.s))
    ensures var w' := Step(c, w, OpEmplace(v));
            && Inv(c, w') && w'.issued == w.issued + [k] && w'.contents == w.contents[k := v]
            && w'.retired == w.retired && w'.erases == w.erases
            && w'.s.free == (if |w.s.free| > c.minFree then w.s.free[1..] else w.s.free)
            && Total(c, w'.s) == (if |w.s.free| > c.minFree then Total(c, w.s) else Total(c, w.s) + 1)
  {
    EmplaceKeepsInv(c, w, v);
    if |w.s.free| > c.minFree {
      RecycleDoes(c, w.s, v);
    } else {
      AppendDoes(c, w.s, v);
    }
    hide Inv, SetSlot, AppendElement, NextIndex, SlotAt, Active, Total;
  }

  /** An erase of a present key below the last version queues its slot's next key. */
  lemma EraseOne<T>(c: Config, w: World<T>, k: Key)
    requires Inv(c, w) && k in w.contents && k.tag == 0 && k.version < MAX_VERSION
    ensures var w' := Step(c, w, OpErase(k));
            && Inv(c, w') && w'.issued == w.issued && w'.contents == w.contents - {k} && w'.retired == w.retired
            && w'.erases == w.erases + 1 && w'.s.free == w.s.free + [Key(0, k.version + 1, k.index)]
            && Total(c, w'.s) == Total(c, w.s)
  {
    ErasableIffPresent(c, w, k);
    EraseKeepsInv(c, w, k, true);
    TotalUnchangedByErase(c, w.s, k, true);
    EraseStep(c, w, k);
    hide Inv, Erasable, EraseImpl, Total, Step, EraseBook;
    ErasedQueue(c, w.s, k);
  }

  lemma EraseStep<T>(c: Config, w: World<T>, k: Key)
    requires k in w.contents && k.tag == 0 && k.version < MAX_VERSION
    ensures var s' := EraseImpl(c, w.s, k, true).0;
            && EraseBook(w, s', k) == World(s', w.issued, w.contents - {k}, w.retired, w.erases + 1)
            && Step(c, w, OpErase(k)) == EraseBook(w, s', k)
  {
    hide EraseImpl;
    assert Untag(k) == k;
  }

  lemma ErasedQueue<T>(c: Config, s: State<T>, k: Key)
    requires Erasable(c, s, k, true) && k.version < MAX_VERSION
    ensures EraseImpl(c, s, k, true).0.free == s.free + [Key(0, k.version + 1, k.index)]
  {
  }

  // ----- the turns -----

  /** After e erases: the queue holds the keys of the last victims' slots, oldest first, and the first values not
      erased yet are still there. */
  ghost predicate Cycled<T>(c: Config, w: World<T>, e: nat) {
    && Inv(c, w) && w.erases == e && w.retired == {} && Total(c, w.s) == Seats(c)
    && QueueIs(c, w.s.free, e) && PresentAre(w.contents.Keys, e, Seats(c))
  }

  ghost predicate QueueIs(c: Config, free: seq<Key>, e: nat) {
    && |free| == (if e < Seats(c) then e else Seats(c))
    && forall n: nat | n < |free| :: free[n] == Next(Victim(c, e - |free| + n))
  }

  /** The keys of the first values in the slots from e on. */
  ghost predicate PresentAre(present: set<Key>, e: nat, n: nat) {
    forall k :: k in present <==> k.tag == 0 && k.version == 1 && e <= k.index < n
  }

  function Next(k: Key): Key { Key(0, k.version + 1, k.index) }

  ghost predicate Filled<T>(c: Config, w: World<T>, n: nat) {
    && Inv(c, w) && w.erases == 0 && w.retired == {} && Total(c, w.s) == n && w.s.free == []
    && PresentAre(w.contents.Keys, 0, n)
  }

  lemma {:induction false} FillFills<T>(c: Config, v: T, n: nat)
    ensures Filled(c, Run(c, Fill(c, v, n)), n)
  {
    hide Run, Step, Inv;
    if n == 0 {
      NothingRun<T>(c);
    } else {
      FillFills(c, v, n - 1);
      var w := Run(c, Fill(c, v, n - 1));
      RunOne(c, Fill(c, v, n - 1), OpEmplace(v));
      EmplaceOne(c, w, v, Key(0, 1, n - 1));
    }
  }

  lemma NothingRun<T>(c: Config)
    ensures Run<T>(c, []) == EmptyWorld<T>() && Filled(c, EmptyWorld<T>(), 0)
  {
    EmptyInv<T>(c);
  }

  /** Erase number e, in its turn. */
  lemma {:induction false} TurnBack(n: nat, e: nat)
    requires n > 0
    ensures e < n ==> e / n == 0 && e % n == e
    ensures e >= n ==> (e - n) / n + 1 == e / n && (e - n) % n == e % n
  {
    if e >= n {
      UniqueSplit(n, e / n, e % n, (e - n) / n + 1, (e - n) % n);
    }
  }

  /** The front of a full queue is the next victim. */
  lemma FrontIsVictim(c: Config, e: nat)
    requires e >= Seats(c)
    ensures Next(Victim(c, e - Seats(c))) == Victim(c, e)
  {
    TurnBack(Seats(c), e);
  }

  lemma FirstVictims(c: Config, e: nat)
    requires e < Seats(c)
    ensures Victim(c, e) == Key(0, 1, e)
  {
    TurnBack(Seats(c), e);
  }

  lemma FirstRound<T>(c: Config, w: World<T>, e: nat)
    requires Cycled(c, w, e) && e < Seats(c)
    ensures Cycled(c, Step(c, w, OpErase(Victim(c, e))), e + 1)
  {
    var k := Victim(c, e);
    FirstVictims(c, e);
    hide Inv, Step, Total, QueueIs, Victim;
    assert k in w.contents.Keys;
    EraseOne(c, w, k);
    QueueGrows(c, w.s.free, e);
    hide PresentAre;
    OneLess(w.contents.Keys, e, Seats(c));
    assert (w.contents - {k}).Keys == w.contents.Keys - {k};
  }

  lemma OneLess(present: set<Key>, e: nat, n: nat)
    requires PresentAre(present, e, n)
    ensures PresentAre(present - {Key(0, 1, e)}, e + 1, n)
  {
  }

  lemma QueueGrows(c: Config, free: seq<Key>, e: nat)
    requires QueueIs(c, free, e) && e < Seats(c)
    ensures QueueIs(c, free + [Next(Victim(c, e))], e + 1)
  {
    hide Victim;
  }

  lemma QueueTurns(c: Config, free: seq<Key>, e: nat)
    requires QueueIs(c, free, e) && e >= Seats(c)
    ensures free[0] == Victim(c, e) && QueueIs(c, free[1..] + [Next(Victim(c, e))], e + 1)
  {
    FrontIsVictim(c, e);
    hide Victim;
    assert free[0] == Next(Victim(c, e - |free| + 0));
  }

  lemma LaterRound<T>(c: Config, w: World<T>, v: T, e: nat)
    requires Cycled(c, w, e) && e >= Seats(c) && Victim(c, e).version < MAX_VERSION
    ensures Cycled(c, Step(c, Step(c, w, OpEmplace(v)), OpErase(Victim(c, e))), e + 1)
  {
    hide *;
    TurnReady(c, w, e);
    var k, w1 := Victim(c, e), Step(c, w, OpEmplace(v));
    EmplaceOne(c, w, v, k);
    EraseOne(c, w1, k);
    KeysBack(w.contents, w1.contents, k, v);
    TurnTaken(c, w, Step(c, w1, OpErase(k)), e);
  }

  lemma KeysBack<T>(before: map<Key, T>, now: map<Key, T>, k: Key, v: T)
    requires now == before[k := v] && before == map[]
    ensures now - {k} == map[]
  {
  }

  /** Before every later turn the map is empty and the victim's slot is first in the queue. */
  lemma TurnReady<T>(c: Config, w: World<T>, e: nat)
    requires Cycled(c, w, e) && e >= Seats(c)
    ensures Inv(c, w) && |w.s.free| > c.minFree && w.s.free[0] == Victim(c, e) && Victim(c, e).tag == 0
    ensures QueueIs(c, w.s.free[1..] + [Next(Victim(c, e))], e + 1) && w.contents == map[] && MAX_VERSION > 0
    ensures Next(Victim(c, e)) == Key(0, Victim(c, e).version + 1, Victim(c, e).index)
  {
    hide Inv;
    QueueTurns(c, w.s.free, e);
    assert w.contents.Keys == {};
    hide Victim, Total;
  }

  lemma TurnTaken<T>(c: Config, w: World<T>, w': World<T>, e: nat)
    requires Cycled(c, w, e) && e >= Seats(c) && Inv(c, w') && w'.erases == w.erases + 1 && w'.retired == w.retired
    requires Total(c, w'.s) == Total(c, w.s) && QueueIs(c, w'.s.free, e + 1) && w'.contents == map[]
    ensures Cycled(c, w', e + 1)
  {
    hide Inv, Total, QueueIs;
  }

  /** Until the last version no slot retires, and the run goes on as described. */
  lemma {:induction false} CycleReaches<T>(c: Config, v: T, e: nat)
    requires e > 0 ==> Victim(c, e - 1).version < MAX_VERSION
    ensures Cycled(c, Run(c, Cycle(c, v, e)), e)
  {
    hide *;
    if e == 0 {
      FillFills(c, v, Seats(c));
      FilledIsCycled(c, v);
    } else {
      EarlierIsLower(c, e - 1);
      CycleReaches(c, v, e - 1);
      CycleGoesOn(c, v, e);
    }
  }

  lemma FilledIsCycled<T>(c: Config, v: T)
    requires Filled(c, Run(c, Fill(c, v, Seats(c))), Seats(c))
    ensures Cycled(c, Run(c, Cycle(c, v, 0)), 0)
  {
    hide Inv, Run;
  }

  lemma CycleGoesOn<T>(c: Config, v: T, e: nat)
    requires e > 0 && Victim(c, e - 1).version < MAX_VERSION && Cycled(c, Run(c, Cycle(c, v, e - 1)), e - 1)
    ensures Cycled(c, Run(c, Cycle(c, v, e)), e)
  {
    hide *;
    CycleGrows(c, v, e);
    var before := Cycle(c, v, e - 1);
    if e <= Seats(c) {
      RunOne(c, before, OpErase(Victim(c, e - 1)));
      FirstRound(c, Run(c, before), e - 1);
    } else {
      RunOne(c, before, OpEmplace(v));
      RunOne(c, before + [OpEmplace(v)], OpErase(Victim(c, e - 1)));
      LaterRound(c, Run(c, before), v, e - 1);
    }
  }

  lemma CycleGrows<T>(c: Config, v: T, e: nat)
    requires e > 0
    ensures Cycle(c, v, e) ==
            if e <= Seats(c) then Cycle(c, v, e - 1) + [OpErase(Victim(c, e - 1))]
            else Cycle(c, v, e - 1) + [OpEmplace(v)] + [OpErase(Victim(c, e - 1))]
  {
  }

  lemma {:induction false} EarlierIsLower(c: Config, e: nat)
    ensures e > 0 ==> Victim(c, e - 1).version <= Victim(c, e).version
  {
    if e > 0 {
      var n := Seats(c);
      if (e - 1) / n > e / n {
        RowsApart(n, e / n, (e - 1) / n);
      }
    }
  }

  // ----- the bounds are reached, and a retired slot does mislead lookup -----

  /** For every configuration the version bound is attained after every number of erases, up to the last version. */
  lemma VersionBoundIsTight<T>(c: Config, v: T, e: nat)
    requires e >= 1 && Victim(c, e - 1).version < MAX_VERSION
    ensures var w, i := Run(c, Cycle(c, v, e)), (e - 1) % Seats(c);
            && w.erases == e && Active(c, w.s, i)
            && SlotAt(c, w.s, i).version == 2 + (w.erases - 1) / (c.minFree + 1)
  {
    hide *;
    CycleReaches(c, v, e);
    LastVersion(c, Run(c, Cycle(c, v, e)), e);
  }

  lemma LastVersion<T>(c: Config, w: World<T>, e: nat)
    requires Cycled(c, w, e) && e >= 1
    ensures var i := (e - 1) % Seats(c);
            && w.erases == e && Active(c, w.s, i)
            && SlotAt(c, w.s, i).version == 2 + (w.erases - 1) / (c.minFree + 1)
  {
    hide Inv, Active, SlotAt, Total, QueueIs, PresentAre;
    LastQueued(c, w.s.free, e);
    QueuedVersion(c, w, |w.s.free| - 1);
  }

  lemma LastQueued(c: Config, free: seq<Key>, e: nat)
    requires QueueIs(c, free, e) && e >= 1
    ensures free != [] && free[|free| - 1] == Next(Victim(c, e - 1))
  {
    hide Victim;
    assert free[|free| - 1] == Next(Victim(c, e - |free| + (|free| - 1)));
  }

  lemma QueuedVersion<T>(c: Config, w: World<T>, n: nat)
    requires Inv(c, w) && n < |w.s.free|
    ensures Active(c, w.s, w.s.free[n].index) && SlotAt(c, w.s, w.s.free[n].index).version == w.s.free[n].version
  {
    Seen(c, w.s, w.s.free[n].index);
    assert FlatOf(c, w.s).free[n] == w.s.free[n];
    hide Active, SlotAt, Total, Shape, RetiredOk, AgeOk;
  }

  /** How many erases precede the first that retires a slot. */
  function Age(c: Config): (n: nat)
    ensures n == (MAX_VERSION - 1) * (c.minFree + 1)
  {
    (MAX_VERSION - 1) * Seats(c)
  }

  lemma AgeIsLast(c: Config)
    ensures Victim(c, Age(c)) == Key(0, MAX_VERSION, 0) && Age(c) >= Seats(c)
    ensures Victim(c, Age(c) - 1).version < MAX_VERSION
  {
    var n, e := Seats(c), Age(c);
    UniqueSplit(n, e / n, e % n, MAX_VERSION - 1, 0);
    RowsApart(n, 0, MAX_VERSION - 1);
    BelowTheLast(n, MAX_VERSION - 1, e);
  }

  lemma BelowTheLast(n: nat, q: nat, e: nat)
    requires n > 0 && e == q * n && e > 0
    ensures (e - 1) / n < q
  {
    if (e - 1) / n > q {
      RowsApart(n, q, (e - 1) / n);
    }
  }

  /** The run that retires a slot after as few erases as that takes. */
  function Retirement<T>(c: Config, v: T): seq<Op<T>> {
    Cycle(c, v, Age(c)) + [OpEmplace(v)] + [OpErase(Key(0, MAX_VERSION, 0))]
  }

  /** In every configuration: after it has_key answers true for the erased key, and get with a destroyed object, exactly
      when the page has a second slot that keeps its memory. */
  lemma RetiredKeyIsStillFoundIff<T>(c: Config, v: T)
    ensures var w, k := Run(c, Retirement(c, v)), Key(0, MAX_VERSION, 0);
            && w.erases == 1 + Age(c) && w.retired == {0}
            && k in w.issued && k !in w.contents
            && (HasKey(c, w.s, k) <==> c.pageSize >= 2)
            && Get(c, w.s, k) == if c.pageSize >= 2 then Some(Destroyed) else None
  {
    hide *;
    AgeIsLast(c);
    var w := Run(c, Cycle(c, v, Age(c)));
    CycleReaches(c, v, Age(c));
    FrontIsLast(c, w, v, Age(c));
    LastErase(c, Step(c, w, OpEmplace(v)));
    RetirementRuns(c, v);
  }

  lemma RetirementRuns<T>(c: Config, v: T)
    ensures Run(c, Retirement(c, v)) ==
            Step(c, Step(c, Run(c, Cycle(c, v, Age(c))), OpEmplace(v)), OpErase(Key(0, MAX_VERSION, 0)))
  {
    var before := Cycle(c, v, Age(c));
    RunOne(c, before, OpEmplace(v));
    RunOne(c, before + [OpEmplace(v)], OpErase(Key(0, MAX_VERSION, 0)));
    hide Run, Step, Cycle, Age;
  }

  lemma FrontIsLast<T>(c: Config, w: World<T>, v: T, e: nat)
    requires Cycled(c, w, e) && e >= Seats(c) && Victim(c, e) == Key(0, MAX_VERSION, 0)
    ensures var k, w' := Key(0, MAX_VERSION, 0), Step(c, w, OpEmplace(v));
            && Inv(c, w') && w'.retired == {} && w'.erases == e && k in w'.contents && w'.contents.Keys == {k}
            && k in w'.issued
  {
    var last := Key(0, MAX_VERSION, 0);
    hide *;
    TurnReady(c, w, e);
    CycledCounts(c, w, e);
    EmplaceOne(c, w, v, last);
    assert last in [last];
  }

  lemma CycledCounts<T>(c: Config, w: World<T>, e: nat)
    requires Cycled(c, w, e)
    ensures w.retired == {} && w.erases == e
  {
  }

  lemma LastErase<T>(c: Config, w: World<T>)
    requires Inv(c, w) && w.retired == {}
    requires var k := Key(0, MAX_VERSION, 0); k in w.contents && k in w.issued
    ensures var k, w' := Key(0, MAX_VERSION, 0), Step(c, w, OpErase(Key(0, MAX_VERSION, 0)));
            && w'.erases == w.erases + 1 && w'.retired == {0} && k in w'.issued && k !in w'.contents
            && (HasKey(c, w'.s, k) <==> c.pageSize >= 2)
            && Get(c, w'.s, k) == if c.pageSize >= 2 then Some(Destroyed) else None
  {
    var k := Key(0, MAX_VERSION, 0);
    ErasableIffPresent(c, w, k);
    hide Inv, EraseImpl, HasKey, Get, Active, SlotAt;
    NoneRetired(c, w);
    RetiredLookup(c, w.s);
  }

  lemma RetiredLookup<T>(c: Config, s: State<T>)
    requires Erasable(c, s, Key(0, MAX_VERSION, 0), true) && s.pages[0].numInactive == 0
    requires PageOf(c, 0) == 0 && OffsetOf(c, 0) == 0
    ensures var k, s' := Key(0, MAX_VERSION, 0), EraseImpl(c, s, Key(0, MAX_VERSION, 0), true).0;
            && (HasKey(c, s', k) <==> c.pageSize >= 2)
            && Get(c, s', k) == if c.pageSize >= 2 then Some(Destroyed) else None
  {
    hide PageOf, OffsetOf;
  }

  lemma NoneRetired<T>(c: Config, w: World<T>)
    requires Inv(c, w) && w.retired == {} && Active(c, w.s, 0)
    ensures w.s.pages[0].numInactive == 0 && PageOf(c, 0) == 0 && OffsetOf(c, 0) == 0
  {
    var page := w.s.pages[0];
    SplitIndex(c, 0);
    assert PageOk(c, page);
    forall j: nat | j < |page.slots|
      ensures !page.slots[j].inactive
    {
      JoinIndex(c, 0, j);
      Seen(c, w.s, IndexOf(c, 0, j));
      KnownIffBelowTotal(c, w.s, IndexOf(c, 0, j));
      assert IndexOf(c, 0, j) !in w.retired;
    }
    NoneCounted(page.slots);
  }

  lemma {:induction false} NoneCounted<T>(slots: seq<Slot<T>>)
    requires forall j: nat | j < |slots| :: !slots[j].inactive
    ensures CountInactive(slots) == 0
  {
    if slots != [] {
      NoneCounted(slots[1..]);
    }
  }
}
