// The inspector as the source runs it: tables filled, looked up and saved, lists edited in loops.

module HudInspector {
  import opened Common
  import opened HudTags
  import opened HudSessions

  class Inspector {
    var overrides: map<string, int>
    var tags: map<string, int>
    /** Whether a lookup can find anything at all. */
    var anyTags: bool
    /** hud.json on disk. */
    var file: File
    ghost var base: map<string, int>
    ghost var saved: map<string, int>

    ghost function Now(): World
      reads this
    {
      World(overrides, tags, file, base, saved)
    }

    ghost predicate Valid()
      reads this
    {
      Inv(Now()) && Flagged()
    }

    ghost predicate Flagged()
      reads this
    {
      anyTags <==> overrides != map[] || tags != map[]
    }

    /** The game starts. */
    constructor (onDisk: File)
      ensures Valid() && Now() == Started(onDisk)
    {
      overrides, tags, anyTags, file := map[], map[], false, onDisk;
      base, saved := TagsOf(onDisk), map[];
      new;
      LoadTags();
      StartKeeps(onDisk);
    }

    method RefreshAnyTags()
      modifies this`anyTags
      ensures Flagged()
    {
      anyTags := overrides != map[] || tags != map[];
    }

    /** The panel's choice of a class takes effect at once. */
    method SetOverride(identity: string, cls: int)
      requires Valid() && 0 <= cls < CLASS_COUNT
      modifies this`overrides, this`anyTags
      ensures Valid() && Now() == Step(old(Now()), Set(identity, cls))
    {
      StepKeeps(Now(), Set(identity, cls));
      overrides := overrides[identity := cls];
      RefreshAnyTags();
    }

    /** "As classified" takes the override of either identity away. */
    method ClearOverride(identity: string, second: string)
      requires Valid()
      modifies this`overrides, this`anyTags
      ensures Valid() && Now() == Step(old(Now()), Clear(identity, second))
    {
      StepKeeps(Now(), Clear(identity, second));
      overrides := overrides - {identity};
      overrides := overrides - {second};
      assert overrides == old(overrides) - {identity, second};
      RefreshAnyTags();
    }

    method ClearOverrides()
      requires Valid()
      modifies this`overrides, this`anyTags
      ensures Valid() && Now() == Step(old(Now()), ClearAll)
    {
      StepKeeps(Now(), ClearAll);
      overrides := map[];
      RefreshAnyTags();
    }

    /** The overrides merged into the file, unless it is malformed or cannot be replaced; either way as it reports. */
    method SaveToFile(help: string, fails: bool) returns (ok: bool, order: seq<Override>)
      requires Valid()
      modifies this`file, this`saved
      ensures Valid() && Lists(order, overrides) && Now() == Step(old(Now()), SaveAll(help, order, fails))
      ensures ok <==> !fails && !old(file).Malformed?
    {
      order := Listing(overrides);
      SaveKeeps(Now(), help, order, fails);
      if file.Malformed? {
        return false, order;
      }
      var doc := SaveOverrides(DocOf(file), help, order);
      if fails {
        return false, order;
      }
      file := Readable(doc);
      saved := saved + overrides;
      ok := true;
    }

    method Find(table: map<string, int>, key: Option<string>) returns (found: bool, cls: int)
      ensures FindIn(table, key) == if found then Some(cls) else None
    {
      if key.None? || key.value !in table {
        return false, 0;
      }
      return true, table[key.value];
    }

    /** What the renderer asks for every element. */
    method TagLookup(identity: Option<string>, second: Option<string>) returns (cls: Option<int>)
      requires Valid()
      ensures cls == Lookup(overrides, tags, identity, second)
    {
      if !anyTags {
        return None;
      }
      var found, c := Find(overrides, identity);
      if !found {
        found, c := Find(overrides, second);
      }
      if found {
        return Some(c);
      }
      found, c := Find(tags, identity);
      if !found {
        found, c := Find(tags, second);
      }
      return if found then Some(c) else None;
    }

    /** Reads every class list in class order; a later list wins. A missing or malformed file, or one that is no
        object, adds nothing. */
    method LoadTags()
      requires Flagged() && tags == map[]
      modifies this`tags, this`anyTags
      ensures Flagged() && tags == TagsOf(file)
    {
      if !file.Readable? {
        return;
      }
      var doc := file.doc;
      if doc.NotObject? {
        EmptyDocument(CLASS_COUNT);
        return;
      }
      for cls := 0 to CLASS_COUNT
        invariant tags == LoadUpTo(doc, cls)
      {
        if CLASS_NAMES[cls] !in doc.fields || doc.fields[CLASS_NAMES[cls]].Scalar? {
          continue;
        }
        var items := doc.fields[CLASS_NAMES[cls]].items;
        ghost var loaded := LoadUpTo(doc, cls);
        for i := 0 to |items|
          invariant tags == Tag(loaded, items[..i], cls)
        {
          assert items[..i + 1][..i] == items[..i];
          if items[i].Text? {
            tags := tags[items[i].s := cls];
          }
        }
        assert items[..|items|] == items;
      }
      RefreshAnyTags();
    }
  }

  /** The table's entries, in whatever order it yields them. */
  method Listing(overrides: map<string, int>) returns (order: seq<Override>)
    ensures Lists(order, overrides)
  {
    order := [];
    var left := overrides.Keys;
    while left != {}
      invariant left <= overrides.Keys && DistinctIdentities(order)
      invariant forall i | 0 <= i < |order| :: order[i].identity !in left
      invariant Held(order) == map x | x in overrides && x !in left :: overrides[x]
    {
      var x :| x in left;
      left := left - {x};
      var longer := order + [Override(x, overrides[x])];
      assert longer[..|order|] == order;
      order := longer;
    }
  }

  /** Erases every occurrence of an identity from a list, in place. */
  method EraseIdentity(items: seq<Element>, identity: string) returns (list: seq<Element>)
    ensures list == Without(items, identity)
  {
    list := items;
    var it := 0;
    ghost var seen := 0;
    while it < |list|
      invariant 0 <= seen <= |items| && it <= |list|
      invariant list[..it] == Without(items[..seen], identity)
      invariant list[it..] == items[seen..]
      decreases |items| - seen
    {
      assert list[it] == list[it..][0] == items[seen];
      assert items[..seen + 1][..seen] == items[..seen];
      assert list[it + 1..] == list[it..][1..];
      if list[it] == Text(identity) {
        ghost var kept := list[..it];
        list := list[..it] + list[it + 1..];
        assert list[..it] == kept && kept + [] == kept;
      } else {
        assert list[..it + 1] == list[..it] + [list[it]];
        it := it + 1;
      }
      seen := seen + 1;
    }
    assert list[..it] == list && items[..seen] == items;
  }

  /** Merges the overrides into the document, visiting them in whatever order they are listed. */
  method SaveOverrides(doc: Document, help: string, overrides: seq<Override>) returns (saved: Document)
    ensures saved == Save(doc, help, overrides)
  {
    var fields := if doc.Object? then doc.fields else map[];
    fields := fields[HELP_KEY := Scalar(help)];
    ghost var start := Object(fields);
    for n := 0 to CLASS_COUNT
      invariant Object(fields) == WithLists(start, n)
    {
      if CLASS_NAMES[n] !in fields || fields[CLASS_NAMES[n]].Scalar? {
        fields := fields[CLASS_NAMES[n] := List([])];
      }
    }
    saved := Object(fields);
    assert overrides[..0] == [];
    for i := 0 to |overrides|
      invariant saved.Object? && saved == MergeAll(Prepare(doc, help), overrides[..i])
    {
      assert overrides[..i + 1][..i] == overrides[..i];
      saved := SaveOne(saved, overrides[i]);
    }
    assert overrides[..|overrides|] == overrides;
  }

  method SaveOne(doc: Document, o: Override) returns (saved: Document)
    requires doc.Object?
    ensures saved == Merge(doc, o)
  {
    saved := doc;
    for n := 0 to CLASS_COUNT
      invariant saved.Object? && saved == DropUpTo(doc, o.identity, n)
    {
      var list := EraseIdentity(Items(saved, n), o.identity);
      saved := WithList(saved, n, list);
    }
    saved := WithList(saved, ClassIndex(o.cls), Items(saved, ClassIndex(o.cls)) + [Text(o.identity)]);
  }
}
