/**
 * The asset cache of asset.c: reference-counted entries `{type, handle,
 * refcount}` kept under string keys in one table.
 *
 * The table (a json-c `lh_table`) is an abstract map from key to entry, and an
 * `ASSET *` is identified by its key.  Handles are opaque pointers, taken as
 * addresses.  The work `asset_free_entry` does when an entry leaves the table
 * is returned as a list of events, in call order.
 */
module AssetCache {
  import opened Common
  import Numerals

  /** The asset types of the `ASSET_*` enumeration (moonbase.h). */
  const Font: int := 0
  const Image: int := 1
  const Sound: int := 2

  const IntMin: int := -0x8000_0000

  /** `asset_entry`. */
  datatype Entry = Entry(kind: int, handle: nat, refcount: int)

  type Cache = map<string, Entry>

  /** A call made while an entry is torn down. */
  datatype Event =
    | FreeKey(key: string)
    | CloseFont(font: nat)
    | DestroyTexture(texture: nat)
    | FreeChunk(chunk: nat)
    | FreeRecord

  predicate IsDestructor(ev: Event)
  {
    ev.CloseFont? || ev.DestroyTexture? || ev.FreeChunk?
  }

  /** The destructor calls among `events`, in order. */
  function Destructors(events: seq<Event>): (ds: seq<Event>)
    ensures |ds| <= |events|
  {
    if |events| == 0 then []
    else (if IsDestructor(events[0]) then [events[0]] else []) + Destructors(events[1..])
  }

  /** `Destructors` keeps exactly the destructor calls. */
  lemma {:induction false} DestructorsAreDestructors(events: seq<Event>)
    ensures forall ev :: ev in Destructors(events) <==> ev in events && IsDestructor(ev)
    decreases |events|
  {
    if |events| > 0 {
      DestructorsAreDestructors(events[1..]);
      assert events == [events[0]] + events[1..];
    }
  }

  /** The destructor `asset_free_entry` runs for an entry of `kind`, if it knows the kind. */
  function DestructorFor(kind: int, handle: nat): (ev: Option<Event>)
    ensures ev.Some? <==> kind in {Font, Image, Sound}
    ensures ev.Some? ==> IsDestructor(ev.value)
  {
    if kind == Font then Some(CloseFont(handle))
    else if kind == Image then Some(DestroyTexture(handle))
    else if kind == Sound then Some(FreeChunk(handle))
    else None
  }

  /**
   * `asset_free_entry`: the key is freed, then the destructor the type
   * selects runs on the handle (none for an unknown type), then the record.
   */
  function FreeEntry(key: string, e: Entry): (events: seq<Event>)
    ensures |events| >= 2 && events[0] == FreeKey(key) && events[|events| - 1] == FreeRecord
    ensures |events| == 2 + |Destructors(events)|
    ensures Destructors(events) == match DestructorFor(e.kind, e.handle) case Some(d) => [d] case None => []
  {
    var d := DestructorFor(e.kind, e.handle);
    var middle := if d.Some? then [d.value] else [];
    DestructorsAppend([FreeKey(key)] + middle, [FreeRecord]);
    DestructorsAppend([FreeKey(key)], middle);
    DestructorsAppend([], [FreeKey(key)]);
    if d.Some? then
      DestructorsAppend([], middle);
      [FreeKey(key)] + middle + [FreeRecord]
    else
      [FreeKey(key)] + middle + [FreeRecord]
  }

  lemma {:induction false} DestructorsAppend(a: seq<Event>, b: seq<Event>)
    ensures Destructors(a + b) == Destructors(a) + Destructors(b)
    decreases |a|
  {
    if |a| == 0 {
      assert a + b == b;
    } else {
      var h := if IsDestructor(a[0]) then [a[0]] else [];
      assert (a + b)[0] == a[0];
      assert (a + b)[1..] == a[1..] + b;
      DestructorsAppend(a[1..], b);
      assert Destructors(a + b) == h + (Destructors(a[1..]) + Destructors(b));
      assert Destructors(a) == h + Destructors(a[1..]);
    }
  }

  /** Tearing down an entry of a known type runs exactly one destructor, on its own handle; an unknown type runs none. */
  lemma FreeEntryDestroysOnce(key: string, e: Entry)
    ensures e.kind in {Font, Image, Sound} ==> |Destructors(FreeEntry(key, e))| == 1
    ensures e.kind == Font ==> Destructors(FreeEntry(key, e)) == [CloseFont(e.handle)]
    ensures e.kind == Image ==> Destructors(FreeEntry(key, e)) == [DestroyTexture(e.handle)]
    ensures e.kind == Sound ==> Destructors(FreeEntry(key, e)) == [FreeChunk(e.handle)]
    ensures e.kind !in {Font, Image, Sound} ==> Destructors(FreeEntry(key, e)) == []
  {
  }

  /** The key `asset_create` invents for an anonymous asset: `snprintf(buf, 32, "@%p", handle)`. */
  function AnonymousKey(handle: nat): (key: string)
    ensures 0 < |key| < 32 && key[0] == '@'
  {
    var text := "@" + Numerals.PointerText(handle);
    assert text[0] == '@';
    Truncate(text, 32)
  }

  /** The key an asset is stored under: a copy of `key`, or the handle's address text when `key` is NULL. */
  function KeyFor(handle: nat, key: Option<string>): (k: string)
    ensures key.Some? ==> k == key.value
    ensures key.None? ==> k == AnonymousKey(handle)
  {
    match key
    case Some(s) => s
    case None => AnonymousKey(handle)
  }

  /** Where a 64-bit address fits, the address text is never cut, so distinct handles get distinct keys. */
  lemma AnonymousKeyInjective(a: nat, b: nat)
    requires a < 0x1_0000_0000_0000_0000 && b < 0x1_0000_0000_0000_0000
    requires AnonymousKey(a) == AnonymousKey(b)
    ensures a == b
  {
    AnonymousKeyFits(a);
    AnonymousKeyFits(b);
    assert Numerals.PointerText(a) == AnonymousKey(a)[1..] == AnonymousKey(b)[1..] == Numerals.PointerText(b);
    Numerals.PointerTextInjective(a, b);
  }

  lemma AnonymousKeyFits(a: nat)
    requires a < 0x1_0000_0000_0000_0000
    ensures AnonymousKey(a) == "@" + Numerals.PointerText(a)
  {
    if a != 0 {
      Numerals.PowSixteen();
      Numerals.NatTextLength(a, 16, 16);
    }
  }

  datatype CreateError = KeyInUse

  /** What `asset_create` returns: the table afterwards and the entry's key. */
  datatype Created = Created(cache: Cache, key: string)

  /**
   * `asset_create`: a new entry with the given type and handle and a
   * reference count of 1, stored under `KeyFor(handle, key)`, and the entry
   * found under that key.  What `lh_table_insert` does with a key already in
   * the table is not part of this model, so that case is reported as
   * `KeyInUse` and nothing more is said about it.
   */
  function Create(cache: Cache, handle: nat, kind: int, key: Option<string>): (r: Result<Created, CreateError>)
    ensures r.Err? <==> KeyFor(handle, key) in cache
    ensures r.Ok? ==> r.value.key == KeyFor(handle, key)
    ensures r.Ok? ==> r.value.cache == cache[r.value.key := Entry(kind, handle, 1)]
  {
    var k := KeyFor(handle, key);
    if k in cache then Err(KeyInUse) else Ok(Created(cache[k := Entry(kind, handle, 1)], k))
  }

  /** `asset_find`: a lookup; the cache is not an output, so it cannot change. */
  function Find(cache: Cache, key: string): (r: Option<Entry>)
    ensures r.Some? <==> key in cache
    ensures r.Some? ==> r.value == cache[key]
  {
    if key in cache then Some(cache[key]) else None
  }

  /**
   * `asset_acquire`: one more reference to the entry under `key`.  The C
   * `int` increment must not overflow.
   */
  function Acquire(cache: Cache, key: string): (r: Cache)
    requires key in cache && cache[key].refcount < IntMax
    ensures key in r && r[key] == cache[key].(refcount := cache[key].refcount + 1)
    ensures r.Keys == cache.Keys
    ensures forall k :: k in cache && k != key ==> r[k] == cache[k]
  {
    cache[key := cache[key].(refcount := cache[key].refcount + 1)]
  }

  /** What `asset_release` returns: the table afterwards, the entry or NULL, and the teardown calls. */
  datatype Released = Released(cache: Cache, asset: Option<string>, events: seq<Event>)

  /**
   * `asset_release`: one reference fewer; when none is left the entry is
   * deleted from the table (which runs `asset_free_entry` on it) and NULL is
   * returned, otherwise the same entry is.
   */
  function Release(cache: Cache, key: string): (r: Released)
    requires key in cache && cache[key].refcount > IntMin
    ensures r.asset.None? <==> cache[key].refcount <= 1
    ensures r.asset.None? ==> r.cache == cache - {key} && r.events == FreeEntry(key, cache[key])
    ensures r.asset.Some? ==> r.asset.value == key && r.events == []
    ensures r.asset.Some? ==> r.cache == cache[key := cache[key].(refcount := cache[key].refcount - 1)]
  {
    var e := cache[key];
    if e.refcount - 1 <= 0 then Released(cache - {key}, None, FreeEntry(key, e))
    else Released(cache[key := e.(refcount := e.refcount - 1)], Some(key), [])
  }

  /** Every live entry holds at least one reference. */
  predicate Live(cache: Cache)
  {
    forall k :: k in cache ==> cache[k].refcount >= 1
  }

  lemma CreateKeepsLive(cache: Cache, handle: nat, kind: int, key: Option<string>)
    requires Live(cache)
    ensures Create(cache, handle, kind, key).Ok? ==> Live(Create(cache, handle, kind, key).value.cache)
  {
  }

  lemma AcquireKeepsLive(cache: Cache, key: string)
    requires Live(cache) && key in cache && cache[key].refcount < IntMax
    ensures Live(Acquire(cache, key))
  {
  }

  lemma ReleaseKeepsLive(cache: Cache, key: string)
    requires Live(cache) && key in cache
    ensures Live(Release(cache, key).cache)
  {
  }

  /** Acquiring and then releasing an entry leaves the cache as it was, with no teardown. */
  lemma AcquireThenRelease(cache: Cache, key: string)
    requires Live(cache) && key in cache && cache[key].refcount < IntMax
    ensures Release(Acquire(cache, key), key) == Released(cache, Some(key), [])
  {
    var e := cache[key];
    assert Acquire(cache, key)[key := e] == cache;
  }

  /**
   * In a live cache an entry leaves exactly when its last reference is
   * released, and then exactly one destructor runs if its type is known.
   */
  lemma LastReleaseDestroys(cache: Cache, key: string)
    requires Live(cache) && key in cache
    ensures var r := Release(cache, key);
      (r.asset.None? <==> cache[key].refcount == 1)
      && (key in r.cache <==> cache[key].refcount > 1)
      && |Destructors(r.events)| == if r.asset.None? && cache[key].kind in {Font, Image, Sound} then 1 else 0
  {
    FreeEntryDestroysOnce(key, cache[key]);
  }

  /**
   * An image created under "sprite.png", acquired once and released twice:
   * the first release keeps it with one reference, the second removes it and
   * destroys its texture exactly once.
   */
  lemma CreateAcquireReleaseTwice(cache: Cache, handle: nat)
    requires "sprite.png" !in cache
    ensures var c1 := Create(cache, handle, Image, Some("sprite.png")).value.cache;
      && c1["sprite.png"].refcount == 1
      && var c2 := Acquire(c1, "sprite.png");
      && c2["sprite.png"].refcount == 2
      && var r1 := Release(c2, "sprite.png");
      && r1.asset == Some("sprite.png") && r1.events == [] && r1.cache == c1
      && var r2 := Release(r1.cache, "sprite.png");
      && r2.asset.None? && r2.cache == cache
      && Destructors(r2.events) == [DestroyTexture(handle)]
  {
    var c1 := Create(cache, handle, Image, Some("sprite.png")).value.cache;
    var c2 := Acquire(c1, "sprite.png");
    assert c2["sprite.png" := c1["sprite.png"]] == c1;
    assert c1 - {"sprite.png"} == cache;
    FreeEntryDestroysOnce("sprite.png", c1["sprite.png"]);
  }
}
