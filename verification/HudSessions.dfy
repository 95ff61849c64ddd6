// The HUD inspector over sessions: overrides set, cleared and saved, the file edited by hand, the game restarted.

module HudSessions {
  import opened Common
  import opened HudTags

  /** hud.json on disk. */
  datatype File = Missing | Malformed | Readable(doc: Document)

  /** What the panel may do, and what may happen to the file and the game around it. A save lists the overrides in
      whatever order the table yields them, and may fail. */
  datatype Event =
    | Set(identity: string, cls: int)
    | Clear(identity: string, second: string)
    | ClearAll
    | SaveAll(help: string, order: seq<Override>, fails: bool)
    | Edit(file: File)
    | Restart

  /** The tables in memory and the file. For the record, the tags of the file when the game last started or the file
      was last edited, and all that has been saved to it since. */
  datatype World = World(overrides: map<string, int>, tags: map<string, int>, file: File, base: map<string, int>,
                         saved: map<string, int>)

  /** What load_tags finds: nothing in a missing or malformed file. */
  function TagsOf(file: File): map<string, int> { if file.Readable? then Load(file.doc) else map[] }

  /** What save_overrides starts from: a missing file is an empty object. */
  function DocOf(file: File): Document { if file.Readable? then file.doc else NotObject }

  function Started(file: File): World { World(map[], TagsOf(file), file, TagsOf(file), map[]) }

  /** A malformed file is not overwritten, and a failed save leaves the file as it was. */
  function SaveTo(w: World, help: string, order: seq<Override>, fails: bool): World {
    if fails || w.file.Malformed? then w
    else w.(file := Readable(Save(DocOf(w.file), help, order)), saved := w.saved + w.overrides)
  }

  function Step(w: World, e: Event): World {
    match e
    case Set(identity, cls) => w.(overrides := w.overrides[identity := cls])
    case Clear(identity, second) => w.(overrides := w.overrides - {identity, second})
    case ClearAll => w.(overrides := map[])
    case SaveAll(help, order, fails) => SaveTo(w, help, order, fails)
    case Edit(file) => w.(file := file, base := TagsOf(file), saved := map[])
    case Restart => Started(w.file)
  }

  /** The overrides of the table, each once, in some order. */
  ghost predicate Lists(order: seq<Override>, overrides: map<string, int>) {
    DistinctIdentities(order) && Held(order) == overrides
  }

  ghost predicate EventOk(w: World, e: Event) {
    match e
    case Set(_, cls) => 0 <= cls < CLASS_COUNT
    case SaveAll(_, order, _) => Lists(order, w.overrides)
    case _ => true
  }

  function Run(file: File, events: seq<Event>): World {
    if events == [] then Started(file) else Step(Run(file, events[..|events| - 1]), events[|events| - 1])
  }

  ghost predicate RunOk(file: File, events: seq<Event>) {
    events == [] ||
    var front := events[..|events| - 1];
    RunOk(file, front) && EventOk(Run(file, front), events[|events| - 1])
  }

  // ----- what every event keeps -----

  /** Overrides are the panel's classes, and the file holds its old tags updated by all that was saved. */
  ghost predicate Inv(w: World) {
    && (forall x | x in w.overrides :: 0 <= w.overrides[x] < CLASS_COUNT)
    && TagsOf(w.file) == w.base + w.saved
  }

  lemma {:induction false} HeldHas(order: seq<Override>, o: Override)
    requires DistinctIdentities(order) && o in order
    ensures o.identity in Held(order) && Held(order)[o.identity] == o.cls
  {
    var n := |order| - 1;
    if order[n] != o {
      assert o in order[..n];
      HeldHas(order[..n], o);
    }
  }

  lemma ListedIsFromPanel(w: World, order: seq<Override>)
    requires Inv(w) && Lists(order, w.overrides)
    ensures FromPanel(order)
  {
    forall o | o in order
      ensures 0 <= o.cls < CLASS_COUNT
    {
      HeldHas(order, o);
    }
  }

  lemma AddAgain(a: map<string, int>, b: map<string, int>, c: map<string, int>)
    ensures (a + b) + c == a + (b + c)
  {
  }

  lemma SaveKeeps(w: World, help: string, order: seq<Override>, fails: bool)
    requires Inv(w) && Lists(order, w.overrides)
    ensures Inv(SaveTo(w, help, order, fails))
  {
    ListedIsFromPanel(w, order);
    PanelTableIsSaved(order);
    SaveThenLoad(DocOf(w.file), help, order);
    AddAgain(w.base, w.saved, w.overrides);
    NothingLoads();
    hide Load, Save, Held, Table;
  }

  /** A save updates the tags of the file by the overrides, or leaves the file as it was when that is malformed or
      cannot be replaced. Neither table changes. */
  lemma SaveUpdatesFile(w: World, help: string, order: seq<Override>, fails: bool)
    requires Inv(w) && Lists(order, w.overrides)
    ensures var w' := Step(w, SaveAll(help, order, fails));
            && w'.overrides == w.overrides && w'.tags == w.tags
            && if fails || w.file.Malformed? then w'.file == w.file
               else w'.file.Readable? && TagsOf(w'.file) == TagsOf(w.file) + w.overrides
  {
    ListedIsFromPanel(w, order);
    PanelTableIsSaved(order);
    SaveThenLoad(DocOf(w.file), help, order);
    NothingLoads();
    hide Load, Save, Held, Table;
  }

  lemma NothingLoads()
    ensures Load(NotObject) == map[]
  {
    EmptyDocument(CLASS_COUNT);
  }

  lemma {:induction false} EmptyDocument(n: nat)
    requires n <= CLASS_COUNT
    ensures LoadUpTo(NotObject, n) == map[]
  {
    if n > 0 {
      EmptyDocument(n - 1);
    }
  }

  lemma StepKeeps(w: World, e: Event)
    requires Inv(w) && EventOk(w, e)
    ensures Inv(Step(w, e))
  {
    hide Load, Save;
    match e
    case SaveAll(help, order, fails) => SaveKeeps(w, help, order, fails);
    case _ =>
  }

  lemma {:induction false} RunKeeps(file: File, events: seq<Event>)
    requires RunOk(file, events)
    ensures Inv(Run(file, events))
  {
    hide Step, Inv, EventOk;
    if events == [] {
      StartKeeps(file);
    } else {
      RunKeeps(file, events[..|events| - 1]);
      StepKeeps(Run(file, events[..|events| - 1]), events[|events| - 1]);
    }
  }

  lemma StartKeeps(file: File)
    ensures Inv(Started(file))
  {
    hide Load;
  }

  /** In every history the file's tags are those it had at the last start or edit, updated by all saves since. */
  lemma FileHoldsWhatWasSaved(file: File, events: seq<Event>)
    requires RunOk(file, events)
    ensures var w := Run(file, events); TagsOf(w.file) == w.base + w.saved
  {
    RunKeeps(file, events);
  }

  // ----- what a restart keeps -----

  /** In every history: a save and a restart keep what the renderer sees of a pair of identities if and only if
      `SurvivesRestart` holds of the tables in memory and all that was saved. */
  lemma RestartKeepsLookupIff(help: string, file: File, events: seq<Event>, order: seq<Override>, id: Option<string>,
                              id2: Option<string>)
    requires RunOk(file, events) && Lists(order, Run(file, events).overrides)
    requires !Run(file, events).file.Malformed?
    ensures var w := Run(file, events);
            var w' := Step(Step(w, SaveAll(help, order, false)), Restart);
            Lookup(w.overrides, w.tags, id, id2) == Lookup(w'.overrides, w'.tags, id, id2) <==>
            SurvivesRestart(w.overrides, w.tags, w.base + w.saved, id, id2)
  {
    RunKeeps(file, events);
    var w := Run(file, events);
    ListedIsFromPanel(w, order);
    NothingLoads();
    RestartPreservesLookupIff(w.tags, DocOf(w.file), help, order, id, id2);
    hide Run, Lookup, SurvivesRestart, Load, Save, Held;
  }

  /** Since the game last started nothing was cleared and the file was not edited. */
  ghost predicate Quiet(events: seq<Event>) {
    events == [] ||
    var last := events[|events| - 1];
    last.Restart? || ((last.Set? || last.SaveAll?) && Quiet(events[..|events| - 1]))
  }

  ghost predicate OnlySaved(w: World) { w.base == w.tags && w.saved.Keys <= w.overrides.Keys }

  lemma {:induction false} QuietSavesStand(file: File, events: seq<Event>)
    requires Quiet(events)
    ensures OnlySaved(Run(file, events))
  {
    if events != [] && !events[|events| - 1].Restart? {
      QuietSavesStand(file, events[..|events| - 1]);
    }
  }

  /** In a session without clears and edits only an overridden second identity can be lost, to a file tag the game
      started with. */
  lemma QuietSessionSurvivesIff(file: File, events: seq<Event>, id: Option<string>, id2: Option<string>)
    requires Quiet(events)
    ensures var w := Run(file, events);
            SurvivesRestart(w.overrides, w.tags, w.base + w.saved, id, id2) <==>
            !FileTagResurfaces(w.overrides, w.tags, id, id2)
  {
    QuietSavesStand(file, events);
    hide Run;
  }

  // ----- the two ways it fails -----

  /** The second identity is overridden, the file tags the first: the override answers now, the tag after a restart. */
  lemma FileTagReturns(help: string, doc: Document, first: string, second: string, cls: int)
    requires first in Load(doc) && first != second && 0 <= cls < CLASS_COUNT && cls != Load(doc)[first]
    ensures var events, order := [Set(second, cls)], [Override(second, cls)];
            var w := Run(Readable(doc), events);
            var w' := Step(Step(w, SaveAll(help, order, false)), Restart);
            && RunOk(Readable(doc), events) && Lists(order, w.overrides)
            && Lookup(w.overrides, w.tags, Some(first), Some(second)) == Some(cls)
            && Lookup(w'.overrides, w'.tags, Some(first), Some(second)) == Some(Load(doc)[first])
  {
    var w := World(map[second := cls], Load(doc), Readable(doc), Load(doc), map[]);
    OneSet(doc, second, cls);
    OneIsHeld(second, cls);
    StartKeeps(Readable(doc));
    StepKeeps(Started(Readable(doc)), Set(second, cls));
    AfterRestart(w, help, [Override(second, cls)]);
    hide Run, RunOk, Step, Load, Lists;
    assert map[] + w.overrides == w.overrides;
  }

  lemma OneSet(doc: Document, x: string, cls: int)
    ensures Step(Started(Readable(doc)), Set(x, cls)) ==
            World(map[x := cls], Load(doc), Readable(doc), Load(doc), map[])
    ensures Run(Readable(doc), [Set(x, cls)]) == Step(Started(Readable(doc)), Set(x, cls))
    ensures 0 <= cls < CLASS_COUNT ==> RunOk(Readable(doc), [Set(x, cls)])
  {
    hide Load;
    RunMore(Readable(doc), [], Set(x, cls));
    assert [] + [Set(x, cls)] == [Set(x, cls)];
  }

  lemma OneIsHeld(x: string, cls: int)
    ensures Held([Override(x, cls)]) == map[x := cls] && Lists([Override(x, cls)], map[x := cls])
  {
    var order := [Override(x, cls)];
    assert order[..0] == [];
    assert Held(order) == Held(order[..0])[x := cls];
  }

  /** A class saved and then cleared: gone from the panel and from memory, it is still in the file, and a restart
      brings it back, even after another save. */
  lemma ClearedTagReturns(help: string, doc: Document, x: string, cls: int)
    requires x !in Load(doc) && 0 <= cls < CLASS_COUNT
    ensures var events := [Set(x, cls), SaveAll(help, [Override(x, cls)], false), Clear(x, x)];
            var w := Run(Readable(doc), events);
            var w' := Step(Step(w, SaveAll(help, [], false)), Restart);
            && RunOk(Readable(doc), events) && Lists([], w.overrides)
            && Lookup(w.overrides, w.tags, Some(x), None) == None
            && Lookup(w'.overrides, w'.tags, Some(x), None) == Some(cls)
            && !FileTagResurfaces(w.overrides, w.base + w.saved, Some(x), None)
  {
    var setting, save, clear := Set(x, cls), SaveAll(help, [Override(x, cls)], false), Clear(x, x);
    SetSaveClear(help, doc, x, cls);
    RunThree(Readable(doc), setting, save, clear);
    hide Step, EventOk, Run, RunOk, Load, Cleared;
    ClearedIsInFile(help, doc, x, cls);
    ClearedComesBack(help, doc, x, cls);
  }

  lemma ClearedIsInFile(help: string, doc: Document, x: string, cls: int)
    requires x !in Load(doc) && 0 <= cls < CLASS_COUNT
    ensures Inv(Cleared(help, doc, x, cls)) && Lists([], Cleared(help, doc, x, cls).overrides)
  {
    OneIsHeld(x, cls);
    PanelTableIsSaved([Override(x, cls)]);
    SaveThenLoad(doc, help, [Override(x, cls)]);
    hide Load, Save, Table;
  }

  lemma ClearedComesBack(help: string, doc: Document, x: string, cls: int)
    requires x !in Load(doc) && Inv(Cleared(help, doc, x, cls)) && Lists([], Cleared(help, doc, x, cls).overrides)
    ensures var w := Cleared(help, doc, x, cls);
            var w' := Step(Step(w, SaveAll(help, [], false)), Restart);
            && Lookup(w.overrides, w.tags, Some(x), None) == None
            && Lookup(w'.overrides, w'.tags, Some(x), None) == Some(cls)
            && !FileTagResurfaces(w.overrides, w.base + w.saved, Some(x), None)
  {
    var w := Cleared(help, doc, x, cls);
    AfterRestart(w, help, []);
    assert w.overrides == map[] && w.tags == w.base == Load(doc) && w.saved == map[x := cls] && !w.file.Malformed?;
    hide *;
    AddNothing(w.base, w.saved);
    SavedAgain(w, Step(Step(w, SaveAll(help, [], false)), Restart), x, cls);
  }

  lemma SavedAgain(w: World, w': World, x: string, cls: int)
    requires x !in w.base && w.overrides == map[] && w.tags == w.base && w.saved == map[x := cls]
    requires w'.overrides == map[] && w'.tags == w.base + w.saved
    ensures Lookup(w.overrides, w.tags, Some(x), None) == None
    ensures Lookup(w'.overrides, w'.tags, Some(x), None) == Some(cls)
    ensures !FileTagResurfaces(w.overrides, w.base + w.saved, Some(x), None)
  {
  }

  lemma AddNothing(a: map<string, int>, b: map<string, int>)
    ensures a + (b + map[]) == a + b
  {
  }

  /** After a save and a restart the panel is empty and the tags are all that was saved. */
  lemma AfterRestart(w: World, help: string, order: seq<Override>)
    requires Inv(w) && Lists(order, w.overrides) && !w.file.Malformed?
    ensures var w' := Step(Step(w, SaveAll(help, order, false)), Restart);
            w'.overrides == map[] && w'.tags == w.base + (w.saved + w.overrides)
  {
    SaveKeeps(w, help, order, false);
    hide Load, Save, Held, Lists;
  }

  function Cleared(help: string, doc: Document, x: string, cls: int): World {
    World(map[], Load(doc), Readable(Save(doc, help, [Override(x, cls)])), Load(doc), map[x := cls])
  }

  lemma SetSaveClear(help: string, doc: Document, x: string, cls: int)
    requires 0 <= cls < CLASS_COUNT
    ensures var setting, save := Set(x, cls), SaveAll(help, [Override(x, cls)], false);
            var w0 := Started(Readable(doc));
            var w1 := Step(w0, setting);
            var w2 := Step(w1, save);
            && Step(w2, Clear(x, x)) == Cleared(help, doc, x, cls)
            && EventOk(w0, setting) && EventOk(w1, save) && EventOk(w2, Clear(x, x))
  {
    OneIsHeld(x, cls);
    hide Load, Save, Held;
    assert map[][x := cls] == map[x := cls] && map[] + map[x := cls] == map[x := cls];
    assert map[x := cls] - {x, x} == map[];
  }

  lemma RunThree(file: File, a: Event, b: Event, c: Event)
    ensures var w1 := Step(Started(file), a);
            var w2 := Step(w1, b);
            && Run(file, [a, b, c]) == Step(w2, c)
            && (EventOk(Started(file), a) && EventOk(w1, b) && EventOk(w2, c) ==> RunOk(file, [a, b, c]))
  {
    hide Step, EventOk, Started;
    RunMore(file, [], a);
    RunMore(file, [a], b);
    RunMore(file, [a, b], c);
    assert [] + [a] == [a] && [a] + [b] == [a, b] && [a, b] + [c] == [a, b, c];
  }

  lemma RunMore(file: File, events: seq<Event>, e: Event)
    ensures Run(file, events + [e]) == Step(Run(file, events), e)
    ensures RunOk(file, events + [e]) <==> RunOk(file, events) && EventOk(Run(file, events), e)
  {
    assert (events + [e])[..|events|] == events;
  }
}
