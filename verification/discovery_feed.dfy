/**
 * The discovery feed the engine serves to the embedded discovery widget: a
 * registry of IdP entities, each with a table from display name to language,
 * and the hand-built JSON text listing them. The Java `Hashtable`s are maps;
 * the order in which a `Hashtable` enumerates its keys is unspecified, so the
 * serialiser takes that order as a parameter (any listing of the keys).
 */
module DiscoveryFeed {
  import Text

  /** `DiscoveryEntity`: the display-name table maps a name to its language. */
  datatype Entity = Entity(entityId: string, displayNames: map<string, string>)

  /** The `DiscoveryEntity` constructor: no display names yet. */
  function NewEntity(id: string): (r: Entity)
    ensures r.entityId == id && |r.displayNames| == 0
  {
    Entity(id, map[])
  }

  /** `DiscoveryEntity.addDisplayName`: the name becomes a key, the language its value. */
  function AddName(e: Entity, name: string, lang: string): (r: Entity)
    ensures r.entityId == e.entityId
    ensures name in r.displayNames && r.displayNames[name] == lang
    ensures r.displayNames.Keys == e.displayNames.Keys + {name}
    ensures forall n :: n in e.displayNames && n != name ==> r.displayNames[n] == e.displayNames[n]
  {
    e.(displayNames := e.displayNames[name := lang])
  }

  /** Re-adding a display name overwrites its language. */
  lemma ReAddOverwrites(e: Entity, name: string, lang1: string, lang2: string)
    ensures AddName(AddName(e, name, lang1), name, lang2) == AddName(e, name, lang2)
  {
  }

  /** Distinct names in the same language are all kept. */
  lemma SameLanguageKeepsBoth(e: Entity, n1: string, n2: string, lang: string)
    requires n1 != n2
    ensures var r := AddName(AddName(e, n1, lang), n2, lang);
      n1 in r.displayNames && n2 in r.displayNames && r.displayNames[n1] == lang && r.displayNames[n2] == lang
  {
  }

  /** `DiscoveryFeedManager`: entities by entityID. */
  datatype Feed = Feed(entities: map<string, Entity>)

  /** `init`: no entities. */
  function Init(): (r: Feed)
    ensures |r.entities| == 0
  {
    Feed(map[])
  }

  /** `addEntity`: registers a fresh entity only when the id is not registered yet. */
  function AddEntity(f: Feed, id: string): (r: Feed)
    ensures r.entities.Keys == f.entities.Keys + {id}
    ensures id in f.entities ==> r == f
    ensures id !in f.entities ==> r.entities[id] == NewEntity(id)
    ensures forall k :: k in f.entities ==> r.entities[k] == f.entities[k]
  {
    if id !in f.entities then Feed(f.entities[id := NewEntity(id)]) else f
  }

  /** `deleteEntity`: removes the id if present. */
  function DeleteEntity(f: Feed, id: string): (r: Feed)
    ensures r.entities.Keys == f.entities.Keys - {id}
    ensures forall k :: k in r.entities ==> r.entities[k] == f.entities[k]
    ensures id !in f.entities ==> r == f
  {
    if id in f.entities then Feed(f.entities - {id}) else f
  }

  /** `addDisplayName`: delegates to the registered entity; an unknown id is ignored. */
  function AddDisplayName(f: Feed, id: string, name: string, lang: string): (r: Feed)
    ensures r.entities.Keys == f.entities.Keys
    ensures id !in f.entities ==> r == f
    ensures id in f.entities ==> r.entities[id] == AddName(f.entities[id], name, lang)
    ensures forall k :: k in f.entities && k != id ==> r.entities[k] == f.entities[k]
  {
    if id in f.entities then Feed(f.entities[id := AddName(f.entities[id], name, lang)]) else f
  }

  /** Adding an entity twice is adding it once: the second call keeps the names gathered since. */
  lemma AddEntityKeepsNames(f: Feed, id: string, name: string, lang: string)
    ensures var g := AddDisplayName(AddEntity(f, id), id, name, lang);
      AddEntity(g, id) == g && name in g.entities[id].displayNames
  {
  }

  /** Deleting a freshly added id restores the feed. */
  lemma DeleteUndoesAdd(f: Feed, id: string)
    requires id !in f.entities
    ensures DeleteEntity(AddEntity(f, id), id) == f
  {
    assert DeleteEntity(AddEntity(f, id), id).entities == f.entities;
  }

  /** `order` lists every key of `keys` exactly once. */
  predicate Listing(order: seq<string>, keys: set<string>) {
    (forall x :: x in keys ==> x in order)
    && (forall k :: 0 <= k < |order| ==> order[k] in keys)
    && (forall i, j :: 0 <= i < j < |order| ==> order[i] != order[j])
  }

  /** The enumeration orders of a feed: of its entities, and of each entity's display names. */
  predicate Orders(f: Feed, order: seq<string>, nameOrders: map<string, seq<string>>) {
    Listing(order, f.entities.Keys)
    && forall id :: id in f.entities ==> id in nameOrders && Listing(nameOrders[id], f.entities[id].displayNames.Keys)
  }

  function NameJson(name: string, lang: string): string {
    "{" + "\"value\": \"" + name + "\"," + "\"lang\": \"" + lang + "\"" + "}"
  }

  function EntityHead(id: string): string {
    "{" + "\"entityID\": \"" + id + "\","
  }

  function EntityJson(id: string, names: string): string {
    EntityHead(id) + "\"DisplayNames\": [" + names + "]" + "}"
  }

  /** The display-name objects of `e` in the order `names`. */
  function NameObjects(e: Entity, names: seq<string>): (r: seq<string>)
    requires forall k :: 0 <= k < |names| ==> names[k] in e.displayNames
    ensures |r| == |names|
    ensures forall k :: 0 <= k < |r| ==> r[k] == NameJson(names[k], e.displayNames[names[k]])
  {
    seq(|names|, k requires 0 <= k < |names| => NameJson(names[k], e.displayNames[names[k]]))
  }

  /** The entity objects of the feed in the enumeration order. */
  function EntityObjects(f: Feed, order: seq<string>, nameOrders: map<string, seq<string>>): (r: seq<string>)
    requires Orders(f, order, nameOrders)
    ensures |r| == |order|
    ensures forall k :: 0 <= k < |r| ==>
      r[k] == EntityJson(order[k], Text.Join(NameObjects(f.entities[order[k]], nameOrders[order[k]]), ","))
  {
    seq(|order|, k requires 0 <= k < |order| =>
      EntityJson(order[k], Text.Join(NameObjects(f.entities[order[k]], nameOrders[order[k]]), ",")))
  }

  /** The feed document: a JSON array with one object per registered entity, comma-separated. */
  function FeedJson(f: Feed, order: seq<string>, nameOrders: map<string, seq<string>>): string
    requires Orders(f, order, nameOrders)
  {
    "[" + Text.Join(EntityObjects(f, order, nameOrders), ",") + "]"
  }

  lemma JoinSnoc(xs: seq<string>, x: string, d: string)
    requires |xs| > 0
    ensures Text.Join(xs + [x], d) == Text.Join(xs, d) + d + x
    decreases |xs|
  {
    if |xs| == 1 {
      assert (xs + [x])[1..] == [x];
    } else {
      assert (xs + [x])[1..] == xs[1..] + [x];
      JoinSnoc(xs[1..], x, d);
    }
  }

  /** The Java idiom: append each part, then a comma when more parts follow. */
  method Commas(parts: seq<string>) returns (s: string)
    ensures s == Text.Join(parts, ",")
  {
    s := "";
    var i := 0;
    while i < |parts|
      invariant 0 <= i <= |parts|
      invariant s == Text.Join(parts[..i], ",") + (if 0 < i < |parts| then "," else "")
    {
      if i > 0 {
        JoinSnoc(parts[..i], parts[i], ",");
      }
      assert parts[..i + 1] == parts[..i] + [parts[i]];
      s := s + parts[i];
      if i + 1 < |parts| {
        s := s + ",";
      }
      i := i + 1;
    }
    assert parts[..i] == parts;
  }

  /** `toJSON`: walks the entities, and within each its display names, in enumeration order. */
  method ToJson(f: Feed, order: seq<string>, nameOrders: map<string, seq<string>>) returns (json: string)
    requires Orders(f, order, nameOrders)
    ensures json == FeedJson(f, order, nameOrders)
  {
    var objects: seq<string> := [];
    var i := 0;
    while i < |order|
      invariant 0 <= i <= |order|
      invariant objects == EntityObjects(f, order, nameOrders)[..i]
    {
      var id := order[i];
      var e := f.entities[id];
      var names := Commas(NameObjects(e, nameOrders[id]));
      objects := objects + [EntityJson(id, names)];
      i := i + 1;
    }
    assert objects == EntityObjects(f, order, nameOrders);
    var body := Commas(objects);
    json := "[" + body + "]";
  }

  /** After `init` the feed document is the empty array. */
  lemma InitJson()
    ensures Orders(Init(), [], map[]) && FeedJson(Init(), [], map[]) == "[]"
  {
  }

  lemma {:induction false} JoinContains(parts: seq<string>, d: string, k: int)
    requires 0 <= k < |parts|
    ensures Text.Contains(Text.Join(parts, d), parts[k])
    decreases |parts|
  {
    var j := Text.Join(parts, d);
    if |parts| == 1 {
      assert Text.OccursAt(j, parts[k], 0);
    } else if k == 0 {
      assert j[..|parts[0]|] == parts[0];
      assert Text.OccursAt(j, parts[0], 0);
    } else {
      var rest := Text.Join(parts[1..], d);
      JoinContains(parts[1..], d, k - 1);
      var i :| 0 <= i <= |rest| - |parts[k]| && Text.OccursAt(rest, parts[k], i);
      var off := |parts[0]| + |d|;
      assert j == parts[0] + d + rest;
      assert j[off + i..off + i + |parts[k]|] == rest[i..i + |parts[k]|];
      assert Text.OccursAt(j, parts[k], off + i);
    }
  }

  lemma ContainsWithin(s: string, p: string, q: string)
    requires Text.StartsWith(p, q) && Text.Contains(s, p)
    ensures Text.Contains(s, q)
  {
    var i :| 0 <= i <= |s| - |p| && Text.OccursAt(s, p, i);
    assert s[i..i + |q|] == p[..|q|];
    assert Text.OccursAt(s, q, i);
  }

  lemma ContainsInside(s: string, a: string, p: string)
    requires Text.Contains(s, p)
    ensures Text.Contains(a + s, p)
  {
    var i :| 0 <= i <= |s| - |p| && Text.OccursAt(s, p, i);
    assert (a + s)[|a| + i..|a| + i + |p|] == s[i..i + |p|];
    assert Text.OccursAt(a + s, p, |a| + i);
  }

  lemma ContainsBefore(s: string, b: string, p: string)
    requires Text.Contains(s, p)
    ensures Text.Contains(s + b, p)
  {
    var i :| 0 <= i <= |s| - |p| && Text.OccursAt(s, p, i);
    assert (s + b)[i..i + |p|] == s[i..i + |p|];
    assert Text.OccursAt(s + b, p, i);
  }

  /** A prefix of any part occurs in the bracketed join. */
  lemma BracketedContains(parts: seq<string>, k: int, q: string)
    requires 0 <= k < |parts| && Text.StartsWith(parts[k], q)
    ensures Text.Contains("[" + Text.Join(parts, ",") + "]", q)
  {
    var s := Text.Join(parts, ",");
    JoinContains(parts, ",", k);
    ContainsWithin(s, parts[k], q);
    ContainsInside(s, "[", q);
    ContainsBefore("[" + s, "]", q);
  }

  lemma HeadOfEntity(id: string, names: string)
    ensures Text.StartsWith(EntityJson(id, names), EntityHead(id))
  {
    var t := "\"DisplayNames\": [" + names + "]" + "}";
    assert EntityJson(id, names) == EntityHead(id) + t;
  }

  /**
   * Every registered entityID appears in the document verbatim, between the
   * quotes of its `"entityID"` member: nothing is escaped.
   */
  lemma EveryEntityListed(f: Feed, order: seq<string>, nameOrders: map<string, seq<string>>, id: string)
    requires Orders(f, order, nameOrders) && id in f.entities
    ensures Text.Contains(FeedJson(f, order, nameOrders), EntityHead(id))
  {
    var objects := EntityObjects(f, order, nameOrders);
    var k :| 0 <= k < |order| && order[k] == id;
    HeadOfEntity(id, Text.Join(NameObjects(f.entities[id], nameOrders[id]), ","));
    BracketedContains(objects, k, EntityHead(id));
  }
}
