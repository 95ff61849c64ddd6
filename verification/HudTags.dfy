// hud.json as a value: reading tags out of it and merging the inspector's overrides into it.

module HudTags {
  import opened Common

  datatype Element = Text(s: string) | Other(n: int)

  datatype Json = List(items: seq<Element>) | Scalar(s: string)

  datatype Document = Object(fields: map<string, Json>) | NotObject

  const CLASS_NAMES: seq<string> := ["center", "left", "right", "stretch", "spill", "cover", "sides"]
  const CLASS_COUNT: nat := 7
  const HELP_KEY := "help"

  datatype Override = Override(identity: string, cls: int)

  /** The list a class is saved under; an unknown class goes under "center". */
  function ClassIndex(cls: int): (c: nat)
    ensures c < CLASS_COUNT
  {
    if 1 <= cls < CLASS_COUNT then cls else 0
  }

  function Items(doc: Document, cls: nat): seq<Element>
    requires cls < CLASS_COUNT
  {
    if doc.Object? && CLASS_NAMES[cls] in doc.fields && doc.fields[CLASS_NAMES[cls]].List?
    then doc.fields[CLASS_NAMES[cls]].items else []
  }

  predicate Listed(doc: Document, cls: nat, identity: string)
    requires cls < CLASS_COUNT
  {
    Text(identity) in Items(doc, cls)
  }

  // ----- loading -----

  function Tag(tags: map<string, int>, items: seq<Element>, cls: nat): map<string, int> {
    if items == [] then tags else
    var t := Tag(tags, items[..|items| - 1], cls);
    match items[|items| - 1]
    case Text(s) => t[s := cls]
    case Other(_) => t
  }

  /** The tags after the lists of the first `n` classes. */
  function LoadUpTo(doc: Document, n: nat): map<string, int>
    requires n <= CLASS_COUNT
  {
    if n == 0 then map[] else Tag(LoadUpTo(doc, n - 1), Items(doc, n - 1), n - 1)
  }

  function Load(doc: Document): map<string, int> { LoadUpTo(doc, CLASS_COUNT) }

  // ----- saving -----

  function Without(items: seq<Element>, identity: string): seq<Element> {
    if items == [] then [] else
    Without(items[..|items| - 1], identity) +
    if items[|items| - 1] == Text(identity) then [] else [items[|items| - 1]]
  }

  function WithList(doc: Document, cls: nat, items: seq<Element>): Document
    requires doc.Object? && cls < CLASS_COUNT
  {
    Object(doc.fields[CLASS_NAMES[cls] := List(items)])
  }

  /** Every class list present, up to class `n`. */
  function WithLists(doc: Document, n: nat): (d: Document)
    requires doc.Object? && n <= CLASS_COUNT
    ensures d.Object?
  {
    if n == 0 then doc else
    var d := WithLists(doc, n - 1);
    if CLASS_NAMES[n - 1] in d.fields && d.fields[CLASS_NAMES[n - 1]].List? then d else WithList(d, n - 1, [])
  }

  function Prepare(doc: Document, help: string): (d: Document)
    ensures d.Object?
  {
    var fields := if doc.Object? then doc.fields else map[];
    WithLists(Object(fields[HELP_KEY := Scalar(help)]), CLASS_COUNT)
  }

  /** The identity dropped from the lists of the first `n` classes. */
  function DropUpTo(doc: Document, identity: string, n: nat): (d: Document)
    requires doc.Object? && n <= CLASS_COUNT
    ensures d.Object?
  {
    if n == 0 then doc else
    var d := DropUpTo(doc, identity, n - 1);
    WithList(d, n - 1, Without(Items(d, n - 1), identity))
  }

  function Merge(doc: Document, o: Override): (d: Document)
    requires doc.Object?
    ensures d.Object?
  {
    var d := DropUpTo(doc, o.identity, CLASS_COUNT);
    WithList(d, ClassIndex(o.cls), Items(d, ClassIndex(o.cls)) + [Text(o.identity)])
  }

  function MergeAll(doc: Document, overrides: seq<Override>): (d: Document)
    requires doc.Object?
    ensures d.Object?
  {
    if overrides == [] then doc else Merge(MergeAll(doc, overrides[..|overrides| - 1]), overrides[|overrides| - 1])
  }

  function Save(doc: Document, help: string,
                overrides: seq<Override>): Document { MergeAll(Prepare(doc, help), overrides) }

  // ----- what is listed where -----

  lemma ClassNamesDiffer(a: nat, b: nat)
    requires a < CLASS_COUNT && b < CLASS_COUNT
    ensures CLASS_NAMES[a] == CLASS_NAMES[b] <==> a == b
    ensures CLASS_NAMES[a] != HELP_KEY
  {
    assert |CLASS_NAMES| == CLASS_COUNT;
    var names := CLASS_NAMES;
    assert names[0][0] == 'c' && names[1][0] == 'l' && names[2][0] == 'r' && names[3][0] == 's';
    assert names[4][0] == 's' && names[5][0] == 'c' && names[6][0] == 's';
    assert names[0][1] == 'e' && names[5][1] == 'o' && names[3][1] == 't' && names[4][1] == 'p' && names[6][1] == 'i';
    assert HELP_KEY[0] == 'h';
  }

  lemma WithListItems(doc: Document, cls: nat, items: seq<Element>, c: nat)
    requires doc.Object? && cls < CLASS_COUNT && c < CLASS_COUNT
    ensures Items(WithList(doc, cls, items), c) == if c == cls then items else Items(doc, c)
  {
    ClassNamesDiffer(cls, c);
  }

  lemma {:induction false} WithoutKeepsOthers(items: seq<Element>, identity: string, e: Element)
    ensures e in Without(items, identity) <==> e in items && e != Text(identity)
  {
    if items != [] {
      var n := |items| - 1;
      WithoutKeepsOthers(items[..n], identity, e);
      assert items == items[..n] + [items[n]];
    }
  }

  lemma DropOne(doc: Document, identity: string, n: nat, c: nat)
    requires doc.Object? && n < CLASS_COUNT && c < CLASS_COUNT
    ensures var d := DropUpTo(doc, identity, n);
            Items(DropUpTo(doc, identity, n + 1), c) == if c == n then Without(Items(d, n), identity) else Items(d, c)
  {
    var d := DropUpTo(doc, identity, n);
    hide Items, Without;
    WithListItems(d, n, Without(Items(d, n), identity), c);
  }

  lemma {:induction false} DropItems(doc: Document, identity: string, n: nat, c: nat)
    requires doc.Object? && n <= CLASS_COUNT && c < CLASS_COUNT
    ensures Items(DropUpTo(doc, identity, n), c) == if c < n then Without(Items(doc, c), identity) else Items(doc, c)
  {
    hide *;
    if n == 0 {
      DropNone(doc, identity);
    } else {
      DropOne(doc, identity, n - 1, c);
      DropItems(doc, identity, n - 1, c);
      DropItems(doc, identity, n - 1, n - 1);
    }
  }

  lemma DropNone(doc: Document, identity: string)
    requires doc.Object?
    ensures DropUpTo(doc, identity, 0) == doc
  {
  }

  /** One override leaves its identity in its own list alone, once, and every other identity where it was. */
  lemma MergeLists(doc: Document, o: Override, c: nat, identity: string)
    requires doc.Object? && c < CLASS_COUNT
    ensures Listed(Merge(doc, o), c, identity) <==>
            if identity == o.identity then c == ClassIndex(o.cls) else Listed(doc, c, identity)
    ensures Items(Merge(doc, o), c) ==
            Without(Items(doc, c), o.identity) + if c == ClassIndex(o.cls) then [Text(o.identity)] else []
  {
    var d := DropUpTo(doc, o.identity, CLASS_COUNT);
    DropItems(doc, o.identity, CLASS_COUNT, c);
    DropItems(doc, o.identity, CLASS_COUNT, ClassIndex(o.cls));
    WithListItems(d, ClassIndex(o.cls), Items(d, ClassIndex(o.cls)) + [Text(o.identity)], c);
    WithoutKeepsOthers(Items(doc, c), o.identity, Text(identity));
  }

  lemma {:induction false} PreparedItems(doc: Document, n: nat, c: nat)
    requires doc.Object? && n <= CLASS_COUNT && c < CLASS_COUNT
    ensures Items(WithLists(doc, n), c) == Items(doc, c)
  {
    if n > 0 {
      PreparedItems(doc, n - 1, c);
      PreparedItems(doc, n - 1, n - 1);
      WithListItems(WithLists(doc, n - 1), n - 1, [], c);
    }
  }

  lemma PrepareKeepsLists(doc: Document, help: string, c: nat)
    requires c < CLASS_COUNT
    ensures Items(Prepare(doc, help), c) == Items(doc, c)
  {
    var fields := if doc.Object? then doc.fields else map[];
    var d := Object(fields[HELP_KEY := Scalar(help)]);
    PreparedItems(d, CLASS_COUNT, c);
    ClassNamesDiffer(c, c);
  }

  lemma WithListField(doc: Document, cls: nat, items: seq<Element>, name: string)
    requires doc.Object? && cls < CLASS_COUNT && forall c: nat | c < CLASS_COUNT :: CLASS_NAMES[c] != name
    ensures SameField(WithList(doc, cls, items), doc, name)
  {
  }

  ghost predicate SameField(a: Document, b: Document, name: string)
    requires a.Object? && b.Object?
  {
    (name in a.fields <==> name in b.fields) && (name in a.fields ==> a.fields[name] == b.fields[name])
  }

  lemma {:induction false} WithListsField(doc: Document, n: nat, name: string)
    requires doc.Object? && n <= CLASS_COUNT && forall c: nat | c < CLASS_COUNT :: CLASS_NAMES[c] != name
    ensures SameField(WithLists(doc, n), doc, name)
  {
    if n > 0 {
      WithListsField(doc, n - 1, name);
      WithListField(WithLists(doc, n - 1), n - 1, [], name);
    }
  }

  lemma {:induction false} DropField(doc: Document, identity: string, n: nat, name: string)
    requires doc.Object? && n <= CLASS_COUNT && forall c: nat | c < CLASS_COUNT :: CLASS_NAMES[c] != name
    ensures SameField(DropUpTo(doc, identity, n), doc, name)
  {
    if n > 0 {
      DropField(doc, identity, n - 1, name);
      var d := DropUpTo(doc, identity, n - 1);
      WithListField(d, n - 1, Without(Items(d, n - 1), identity), name);
    }
  }

  lemma {:induction false} MergeAllField(doc: Document, overrides: seq<Override>, name: string)
    requires doc.Object? && forall c: nat | c < CLASS_COUNT :: CLASS_NAMES[c] != name
    ensures SameField(MergeAll(doc, overrides), doc, name)
  {
    if overrides != [] {
      var n := |overrides| - 1;
      MergeAllField(doc, overrides[..n], name);
      var d, o := MergeAll(doc, overrides[..n]), overrides[n];
      DropField(d, o.identity, CLASS_COUNT, name);
      var dropped := DropUpTo(d, o.identity, CLASS_COUNT);
      WithListField(dropped, ClassIndex(o.cls), Items(dropped, ClassIndex(o.cls)) + [Text(o.identity)], name);
    }
  }

  /** A save keeps every field that is no class list, but for the help text, which it writes. */
  lemma SaveKeepsOtherFields(doc: Document, help: string, overrides: seq<Override>, name: string)
    requires forall c: nat | c < CLASS_COUNT :: CLASS_NAMES[c] != name
    ensures var saved := Save(doc, help, overrides);
            && saved.Object?
            && if name == "help" then name in saved.fields && saved.fields[name] == Scalar(help)
               else if doc.Object? then SameField(saved, doc, name) else name !in saved.fields
  {
    var fields := if doc.Object? then doc.fields else map[];
    WithListsField(Object(fields[HELP_KEY := Scalar(help)]), CLASS_COUNT, name);
    MergeAllField(Prepare(doc, help), overrides, name);
    hide WithLists, MergeAll;
  }

  ghost predicate IsList(doc: Document, c: nat)
    requires doc.Object? && c < CLASS_COUNT
  {
    CLASS_NAMES[c] in doc.fields && doc.fields[CLASS_NAMES[c]].List?
  }

  lemma WithListKeeps(doc: Document, cls: nat, items: seq<Element>, c: nat)
    requires doc.Object? && cls < CLASS_COUNT && c < CLASS_COUNT && (c == cls || IsList(doc, c))
    ensures IsList(WithList(doc, cls, items), c)
  {
    ClassNamesDiffer(cls, c);
  }

  lemma {:induction false} WithListsMakes(doc: Document, n: nat, c: nat)
    requires doc.Object? && c < n <= CLASS_COUNT
    ensures IsList(WithLists(doc, n), c)
  {
    var d := WithLists(doc, n - 1);
    if c < n - 1 {
      WithListsMakes(doc, n - 1, c);
    }
    if !IsList(d, n - 1) {
      WithListKeeps(d, n - 1, [], c);
    }
  }

  lemma {:induction false} DropKeepsList(doc: Document, identity: string, n: nat, c: nat)
    requires doc.Object? && n <= CLASS_COUNT && c < CLASS_COUNT && IsList(doc, c)
    ensures IsList(DropUpTo(doc, identity, n), c)
  {
    if n > 0 {
      DropKeepsList(doc, identity, n - 1, c);
      var d := DropUpTo(doc, identity, n - 1);
      WithListKeeps(d, n - 1, Without(Items(d, n - 1), identity), c);
    }
  }

  lemma {:induction false} MergeAllKeepsList(doc: Document, overrides: seq<Override>, c: nat)
    requires doc.Object? && c < CLASS_COUNT && IsList(doc, c)
    ensures IsList(MergeAll(doc, overrides), c)
  {
    if overrides != [] {
      var n := |overrides| - 1;
      MergeAllKeepsList(doc, overrides[..n], c);
      var d, o := MergeAll(doc, overrides[..n]), overrides[n];
      DropKeepsList(d, o.identity, CLASS_COUNT, c);
      var dropped := DropUpTo(d, o.identity, CLASS_COUNT);
      WithListKeeps(dropped, ClassIndex(o.cls), Items(dropped, ClassIndex(o.cls)) + [Text(o.identity)], c);
    }
  }

  /** A saved document has every class as a list, whatever the field held before. */
  lemma SaveMakesLists(doc: Document, help: string, overrides: seq<Override>, c: nat)
    requires c < CLASS_COUNT
    ensures var saved := Save(doc, help, overrides); saved.Object? && IsList(saved, c)
  {
    var fields := if doc.Object? then doc.fields else map[];
    WithListsMakes(Object(fields[HELP_KEY := Scalar(help)]), CLASS_COUNT, c);
    MergeAllKeepsList(Prepare(doc, help), overrides, c);
    hide WithLists, MergeAll;
  }

  // ----- what loading finds -----

  /** The last of the first `n` classes that lists the identity, or -1. */
  function LastClass(doc: Document, identity: string, n: nat): int
    requires n <= CLASS_COUNT
  {
    if n == 0 then -1 else if Listed(doc, n - 1, identity) then n - 1 else LastClass(doc, identity, n - 1)
  }

  lemma {:induction false} TagSets(tags: map<string, int>, items: seq<Element>, cls: nat, identity: string)
    ensures var t := Tag(tags, items, cls);
            if Text(identity) in items then identity in t && t[identity] == cls
            else (identity in t <==> identity in tags) && (identity in tags ==> t[identity] == tags[identity])
  {
    if items != [] {
      var n := |items| - 1;
      var front, last, t := items[..n], items[n], Tag(tags, items, cls);
      TagSets(tags, front, cls, identity);
      assert items == front + [last];
      assert t == if last.Text? then Tag(tags, front, cls)[last.s := cls] else Tag(tags, front, cls);
      hide Tag;
    }
  }

  /** Loading gives each listed identity the last class that lists it, and tags nothing else. */
  lemma {:induction false} LoadFindsLastClass(doc: Document, identity: string, n: nat)
    requires n <= CLASS_COUNT
    ensures var t, last := LoadUpTo(doc, n), LastClass(doc, identity, n);
            (identity in t <==> last >= 0) && (last >= 0 ==> t[identity] == last)
  {
    if n > 0 {
      LoadFindsLastClass(doc, identity, n - 1);
      TagSets(LoadUpTo(doc, n - 1), Items(doc, n - 1), n - 1, identity);
    }
  }

  lemma {:induction false} LastClassDependsOnLists(a: Document, b: Document, identity: string, n: nat)
    requires n <= CLASS_COUNT && forall c: nat | c < CLASS_COUNT :: Listed(a, c, identity) <==> Listed(b, c, identity)
    ensures LastClass(a, identity, n) == LastClass(b, identity, n)
  {
    if n > 0 {
      LastClassDependsOnLists(a, b, identity, n - 1);
    }
  }

  lemma {:induction false} OnlyClassIsLast(doc: Document, identity: string, only: nat, n: nat)
    requires n <= CLASS_COUNT && only < CLASS_COUNT
    requires forall c: nat | c < CLASS_COUNT :: Listed(doc, c, identity) <==> c == only
    ensures LastClass(doc, identity, n) == if only < n then only else -1
  {
    if n > 0 {
      OnlyClassIsLast(doc, identity, only, n - 1);
    }
  }

  lemma SameTags(a: map<string, int>, b: map<string, int>)
    requires forall x :: x in a <==> x in b
    requires forall x | x in a && x in b :: a[x] == b[x]
    ensures a == b
  {
  }

  /** Loading after one override is loading before it, with that identity retagged. */
  lemma LoadAfterMerge(doc: Document, o: Override)
    requires doc.Object?
    ensures Load(Merge(doc, o)) == Load(doc)[o.identity := ClassIndex(o.cls)]
  {
    var d := Merge(doc, o);
    forall x
      ensures x in Load(d) <==> x in Load(doc) || x == o.identity
      ensures x in Load(d) ==> Load(d)[x] == if x == o.identity then ClassIndex(o.cls) else Load(doc)[x]
    {
      LoadFindsLastClass(doc, x, CLASS_COUNT);
      LoadFindsLastClass(d, x, CLASS_COUNT);
      forall c: nat | c < CLASS_COUNT
        ensures Listed(d, c, x) <==> if x == o.identity then c == ClassIndex(o.cls) else Listed(doc, c, x)
      {
        MergeLists(doc, o, c, x);
      }
      if x == o.identity {
        OnlyClassIsLast(d, x, ClassIndex(o.cls), CLASS_COUNT);
      } else {
        LastClassDependsOnLists(doc, d, x, CLASS_COUNT);
      }
    }
    SameTags(Load(d), Load(doc)[o.identity := ClassIndex(o.cls)]);
  }

  /** The override table as a map from identity to the class it is saved under. */
  function Table(overrides: seq<Override>): map<string, int> {
    if overrides == [] then map[] else
    var o := overrides[|overrides| - 1];
    Table(overrides[..|overrides| - 1])[o.identity := ClassIndex(o.cls)]
  }

  lemma {:induction false} LoadAfterMergeAll(doc: Document, overrides: seq<Override>)
    requires doc.Object?
    ensures Load(MergeAll(doc, overrides)) == Load(doc) + Table(overrides)
  {
    if overrides == [] {
      hide LoadUpTo;
      assert Load(doc) + map[] == Load(doc);
    } else {
      var n := |overrides| - 1;
      var front, o := overrides[..n], overrides[n];
      assert MergeAll(doc, overrides) == Merge(MergeAll(doc, front), o);
      assert Table(overrides) == Table(front)[o.identity := ClassIndex(o.cls)];
      hide *;
      LoadAfterMergeAll(doc, front);
      LoadAfterMerge(MergeAll(doc, front), o);
      UpdateLast(Load(doc), Table(front), o.identity, ClassIndex(o.cls));
    }
  }

  lemma UpdateLast(a: map<string, int>, b: map<string, int>, x: string, v: int)
    ensures (a + b)[x := v] == a + b[x := v]
  {
  }

  lemma {:induction false} LoadDependsOnItems(a: Document, b: Document, n: nat)
    requires n <= CLASS_COUNT && forall c: nat | c < CLASS_COUNT :: Items(a, c) == Items(b, c)
    ensures LoadUpTo(a, n) == LoadUpTo(b, n)
  {
    if n > 0 {
      LoadDependsOnItems(a, b, n - 1);
    }
  }

  /** What is loaded back after a save: the tags loaded before, updated by the overrides. For any document. */
  lemma SaveThenLoad(doc: Document, help: string, overrides: seq<Override>)
    ensures Load(Save(doc, help, overrides)) == Load(doc) + Table(overrides)
  {
    forall c: nat | c < CLASS_COUNT
      ensures Items(Prepare(doc, help), c) == Items(doc, c)
    {
      PrepareKeepsLists(doc, help, c);
    }
    LoadDependsOnItems(Prepare(doc, help), doc, CLASS_COUNT);
    LoadAfterMergeAll(Prepare(doc, help), overrides);
  }

  ghost predicate DistinctIdentities(overrides: seq<Override>) {
    forall i, j | 0 <= i < j < |overrides| :: overrides[i].identity != overrides[j].identity
  }

  lemma {:induction false} TableHolds(overrides: seq<Override>, i: nat)
    requires DistinctIdentities(overrides) && i < |overrides|
    ensures overrides[i].identity in Table(overrides)
    ensures Table(overrides)[overrides[i].identity] == ClassIndex(overrides[i].cls)
  {
    var n := |overrides| - 1;
    if i < n {
      TableHolds(overrides[..n], i);
    }
  }

  lemma {:induction false} TableOnly(overrides: seq<Override>, x: string)
    requires x in Table(overrides)
    ensures exists i :: 0 <= i < |overrides| && overrides[i].identity == x
  {
    var n := |overrides| - 1;
    if overrides[n].identity != x {
      TableOnly(overrides[..n], x);
      var i :| 0 <= i < n && overrides[..n][i].identity == x;
      assert overrides[i].identity == x;
    }
  }

  /** The order in which the table is visited does not matter to what is loaded back. */
  lemma SaveOrderIsIrrelevant(doc: Document, help: string, a: seq<Override>, b: seq<Override>)
    requires DistinctIdentities(a) && DistinctIdentities(b) && forall o :: o in a <==> o in b
    ensures Load(Save(doc, help, a)) == Load(Save(doc, help, b))
  {
    SaveThenLoad(doc, help, a);
    SaveThenLoad(doc, help, b);
    forall x
      ensures x in Table(a) <==> x in Table(b)
      ensures x in Table(a) ==> Table(a)[x] == Table(b)[x]
    {
      if x in Table(a) {
        SharedEntry(a, b, x);
      }
      if x in Table(b) {
        SharedEntry(b, a, x);
      }
    }
    SameTags(Table(a), Table(b));
  }

  lemma SharedEntry(a: seq<Override>, b: seq<Override>, x: string)
    requires DistinctIdentities(a) && DistinctIdentities(b) && (forall o :: o in a ==> o in b) && x in Table(a)
    ensures x in Table(b) && Table(b)[x] == Table(a)[x]
  {
    TableOnly(a, x);
    var i :| 0 <= i < |a| && a[i].identity == x;
    assert a[i] in b;
    var j :| 0 <= j < |b| && b[j] == a[i];
    TableHolds(a, i);
    TableHolds(b, j);
  }

  /** How often an identity stands in a list. */
  function Occurrences(items: seq<Element>, identity: string): nat {
    if items == [] then 0 else
    Occurrences(items[..|items| - 1], identity) + if items[|items| - 1] == Text(identity) then 1 else 0
  }

  lemma {:induction false} WithoutOccurrences(items: seq<Element>, dropped: string, identity: string)
    ensures Occurrences(Without(items, dropped), identity) ==
            if identity == dropped then 0 else Occurrences(items, identity)
  {
    if items != [] {
      var n := |items| - 1;
      WithoutOccurrences(items[..n], dropped, identity);
      if items[n] != Text(dropped) {
        OccurrencesAppend(Without(items[..n], dropped), items[n], identity);
      } else {
        assert Without(items[..n], dropped) + [] == Without(items[..n], dropped);
      }
    }
  }

  lemma OccurrencesAppend(items: seq<Element>, e: Element, identity: string)
    ensures Occurrences(items + [e], identity) == Occurrences(items, identity) + if e == Text(identity) then 1 else 0
  {
    assert (items + [e])[..|items|] == items;
  }

  /** Each overridden identity ends up in exactly one list, exactly once. */
  lemma {:induction false} OverriddenOnce(doc: Document, overrides: seq<Override>, i: nat, c: nat)
    requires doc.Object? && DistinctIdentities(overrides) && i < |overrides| && c < CLASS_COUNT
    ensures Occurrences(Items(MergeAll(doc, overrides), c), overrides[i].identity) ==
            if c == ClassIndex(overrides[i].cls) then 1 else 0
  {
    hide Items, Without, Merge, Occurrences;
    var n := |overrides| - 1;
    var d, x := MergeAll(doc, overrides[..n]), overrides[i].identity;
    MergeLists(d, overrides[n], c, x);
    var kept := Without(Items(d, c), overrides[n].identity);
    WithoutOccurrences(Items(d, c), overrides[n].identity, x);
    if c == ClassIndex(overrides[n].cls) {
      OccurrencesAppend(kept, Text(overrides[n].identity), x);
    } else {
      assert kept + [] == kept;
    }
    if i == n {
    } else {
      assert overrides[i] == overrides[..n][i];
      OverriddenOnce(doc, overrides[..n], i, c);
    }
  }

  /** A class from the inspector's table is what is loaded back; any other class comes back as "center". */
  lemma OverrideIsLoadedBackIffValid(doc: Document, help: string, overrides: seq<Override>, i: nat)
    requires DistinctIdentities(overrides) && i < |overrides|
    ensures var x, t := overrides[i].identity, Load(Save(doc, help, overrides));
            x in t && (t[x] == overrides[i].cls <==> 0 <= overrides[i].cls < CLASS_COUNT)
  {
    SaveThenLoad(doc, help, overrides);
    TableHolds(overrides, i);
  }

  // ----- what an element is drawn with, before and after a restart -----

  function FindIn(table: map<string, int>, key: Option<string>): Option<int> {
    if key.Some? && key.value in table then Some(table[key.value]) else None
  }

  function OrElse(a: Option<int>, b: Option<int>): Option<int> { if a.Some? then a else b }

  /** The first identity's class, or else the second's. */
  function Pair(table: map<string, int>, id: Option<string>, id2: Option<string>): Option<int> {
    OrElse(FindIn(table, id), FindIn(table, id2))
  }

  /** The panel's overrides win over the file's tags; either identity may carry one, and either may be missing. */
  function Lookup(overrides: map<string, int>, tags: map<string, int>, id: Option<string>, id2: Option<string>)
    : Option<int>
  {
    OrElse(Pair(overrides, id, id2), Pair(tags, id, id2))
  }

  /** The override table as the panel holds it. */
  function Held(overrides: seq<Override>): map<string, int> {
    if overrides == [] then map[] else
    var o := overrides[|overrides| - 1];
    Held(overrides[..|overrides| - 1])[o.identity := o.cls]
  }

  /** The panel offers no other classes. */
  ghost predicate FromPanel(overrides: seq<Override>) { forall o | o in overrides :: 0 <= o.cls < CLASS_COUNT }

  lemma {:induction false} PanelTableIsSaved(overrides: seq<Override>)
    requires FromPanel(overrides)
    ensures Held(overrides) == Table(overrides)
  {
    if overrides != [] {
      var n := |overrides| - 1;
      assert overrides[n] in overrides && forall o | o in overrides[..n] :: o in overrides;
      PanelTableIsSaved(overrides[..n]);
    }
  }

  /** Only the second identity is overridden, while the file tags the first with another class. */
  predicate FileTagResurfaces(overrides: map<string, int>, filed: map<string, int>, id: Option<string>,
                              id2: Option<string>)
  {
    && id.Some? && id2.Some? && id.value !in overrides && id.value in filed
    && id2.value in overrides && overrides[id2.value] != filed[id.value]
  }

  /** What decides whether a pair is drawn the same after a save and a restart: for an overridden pair, that case; for
      another, whether the tags in memory still answer as those in the file. */
  predicate SurvivesRestart(overrides: map<string, int>, tags: map<string, int>, filed: map<string, int>,
                            id: Option<string>, id2: Option<string>)
  {
    if Pair(overrides, id, id2).Some? then !FileTagResurfaces(overrides, filed, id, id2)
    else Pair(tags, id, id2) == Pair(filed, id, id2)
  }

  /** For any tags in memory, file and overrides: what the renderer sees survives exactly then. */
  lemma RestartPreservesLookupIff(tags: map<string, int>, doc: Document, help: string, overrides: seq<Override>,
                                  id: Option<string>, id2: Option<string>)
    requires FromPanel(overrides)
    ensures Lookup(Held(overrides), tags, id, id2) == Lookup(map[], Load(Save(doc, help, overrides)), id, id2) <==>
            SurvivesRestart(Held(overrides), tags, Load(doc), id, id2)
  {
    PanelTableIsSaved(overrides);
    SaveThenLoad(doc, help, overrides);
    hide Load, Save, Table, Held;
  }
}
