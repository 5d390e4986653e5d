/**
 * The asset loaders of archive.c: `archive_load_font`, `archive_load_image`
 * and `archive_load_sound`.
 *
 * Each loader first looks in the asset cache; on a hit it takes one more
 * reference to the cached entry and decodes nothing.  On a miss it reads the
 * archive entry, hands the bytes to a decoder and stores the decoded handle in
 * the cache.  Decoders (SDL_ttf, SDL_image plus texture creation, SDL_mixer)
 * are oracles that return a handle or fail; a missing entry or a failed
 * decode, both `fatal` in the source, are error results here.  Decoders see
 * the whole entry, as the read loop delivers it when every read succeeds.
 */
module Loader {
  import opened Common
  import opened AssetCache
  import opened Archive
  import Numerals

  /** `MAX_PATHNAME`-sized text: `SDL_snprintf(buf, 256, ...)` keeps at most 255 characters. */
  const KeyCapacity: nat := 256

  datatype LoadError = NotInArchive | DecodeFailed | KeyClash

  /** A successful load: the cache afterwards, the key of the entry returned, and whether a decoder ran. */
  datatype Load = Load(cache: Cache, asset: string, decoded: bool)

  /** No entry is at the `int` limit, so a cache hit can always take one more reference. */
  predicate Acquirable(cache: Cache)
  {
    forall k :: k in cache ==> cache[k].refcount < IntMax
  }

  /** The key a font is stored under: `"%s:%d"` of file name and point size, cut to 255 characters. */
  function FontKey(filename: string, size: int): (key: string)
    ensures |key| < KeyCapacity
    ensures |filename| + 1 + |Numerals.Decimal(size)| < KeyCapacity ==> key == filename + ":" + Numerals.Decimal(size)
  {
    Truncate(filename + ":" + Numerals.Decimal(size), KeyCapacity)
  }

  /**
   * The find, then acquire or decode-and-create, shared by the loaders:
   * `lookup` is the key searched for, `store` the key the new asset gets.
   */
  function LoadVia(cache: Cache, archive: Archive, filename: string, lookup: string, store: string,
                   kind: int, decode: seq<Byte> -> Option<nat>): (r: Result<Load, LoadError>)
    requires Live(cache) && Acquirable(cache)
    ensures r.Ok? && lookup in cache ==> r.value == Load(Acquire(cache, lookup), lookup, false)
    ensures lookup !in cache ==> (r.Ok? <==> filename in archive && decode(archive[filename]).Some? && store !in cache)
    ensures r.Ok? && lookup !in cache ==>
      r.value == Load(cache[store := Entry(kind, decode(archive[filename]).value, 1)], store, true)
    ensures lookup in cache ==> r.Ok?
    ensures lookup !in cache && filename !in archive ==> r == Err(NotInArchive)
    ensures lookup !in cache && filename in archive && decode(archive[filename]).None? ==> r == Err(DecodeFailed)
    ensures lookup !in cache && filename in archive && decode(archive[filename]).Some? && store in cache
      ==> r == Err(KeyClash)
    ensures r.Ok? ==> Live(r.value.cache)
  {
    match Find(cache, lookup)
    case Some(_) => Ok(Load(Acquire(cache, lookup), lookup, false))
    case None =>
      match Locate(archive, filename)
      case Err(_) => Err(NotInArchive)
      case Ok(bytes) =>
        match decode(bytes)
        case None => Err(DecodeFailed)
        case Some(handle) =>
          match Create(cache, handle, kind, Some(store))
          case Err(_) => Err(KeyClash)
          case Ok(c) => Ok(Load(c.cache, c.key, true))
  }

  /** `archive_load_image`: images are looked up and stored under the bare file name. */
  function LoadImage(cache: Cache, archive: Archive, filename: string, decode: seq<Byte> -> Option<nat>): (r: Result<Load, LoadError>)
    requires Live(cache) && Acquirable(cache)
    ensures r.Ok? ==> r.value.asset == filename && filename in r.value.cache && Live(r.value.cache)
    ensures r.Ok? ==> r.value.decoded <==> filename !in cache
    ensures r.Ok? ==> r.value.cache[filename].refcount == (if filename in cache then cache[filename].refcount + 1 else 1)
    ensures r.Ok? && filename !in cache ==>
      filename in archive && decode(archive[filename]).Some? && r.value.cache[filename] == Entry(Image, decode(archive[filename]).value, 1)
    ensures r.Err? <==> filename !in cache && (filename !in archive || decode(archive[filename]).None?)
  {
    LoadVia(cache, archive, filename, filename, filename, Image, decode)
  }

  /** `archive_load_sound`: sounds are looked up and stored under the bare file name. */
  function LoadSound(cache: Cache, archive: Archive, filename: string, decode: seq<Byte> -> Option<nat>): (r: Result<Load, LoadError>)
    requires Live(cache) && Acquirable(cache)
    ensures r.Ok? ==> r.value.asset == filename && filename in r.value.cache && Live(r.value.cache)
    ensures r.Ok? ==> r.value.decoded <==> filename !in cache
    ensures r.Ok? ==> r.value.cache[filename].refcount == (if filename in cache then cache[filename].refcount + 1 else 1)
    ensures r.Ok? && filename !in cache ==>
      filename in archive && decode(archive[filename]).Some? && r.value.cache[filename] == Entry(Sound, decode(archive[filename]).value, 1)
    ensures r.Err? <==> filename !in cache && (filename !in archive || decode(archive[filename]).None?)
  {
    LoadVia(cache, archive, filename, filename, filename, Sound, decode)
  }

  /**
   * `archive_load_font` as written: it searches the cache for the bare file
   * name but stores the font under `FontKey(filename, size)`.  A hit on the
   * bare name returns whatever entry is cached there, whatever its type.
   */
  function LoadFontAsWritten(cache: Cache, archive: Archive, filename: string, size: int,
                             decode: (seq<Byte>, int) -> Option<nat>): (r: Result<Load, LoadError>)
    requires Live(cache) && Acquirable(cache)
    ensures filename in cache ==> r == Ok(Load(Acquire(cache, filename), filename, false))
    ensures filename !in cache ==>
      (r.Ok? <==> filename in archive && decode(archive[filename], size).Some? && FontKey(filename, size) !in cache)
    ensures r.Ok? && filename !in cache ==>
      r.value == Load(cache[FontKey(filename, size) := Entry(Font, decode(archive[filename], size).value, 1)],
                      FontKey(filename, size), true)
    ensures filename !in cache && filename !in archive ==> r == Err(NotInArchive)
    ensures filename !in cache && filename in archive && decode(archive[filename], size).None? ==> r == Err(DecodeFailed)
    ensures filename !in cache && filename in archive && decode(archive[filename], size).Some? && FontKey(filename, size) in cache
      ==> r == Err(KeyClash)
  {
    LoadVia(cache, archive, filename, filename, FontKey(filename, size), Font, bytes => decode(bytes, size))
  }

  /**
   * `archive_load_font` as evidently intended: looked up under the same key
   * it is stored under, so a second load of the same font at the same size
   * is a cache hit.
   */
  function LoadFont(cache: Cache, archive: Archive, filename: string, size: int,
                    decode: (seq<Byte>, int) -> Option<nat>): (r: Result<Load, LoadError>)
    requires Live(cache) && Acquirable(cache)
    ensures r.Ok? ==> r.value.asset == FontKey(filename, size) && FontKey(filename, size) in r.value.cache && Live(r.value.cache)
    ensures r.Ok? ==> r.value.decoded <==> FontKey(filename, size) !in cache
    ensures r.Ok? ==>
      r.value.cache[FontKey(filename, size)].refcount ==
      (if FontKey(filename, size) in cache then cache[FontKey(filename, size)].refcount + 1 else 1)
    ensures r.Err? <==> FontKey(filename, size) !in cache && (filename !in archive || decode(archive[filename], size).None?)
  {
    LoadVia(cache, archive, filename, FontKey(filename, size), FontKey(filename, size), Font, bytes => decode(bytes, size))
  }

  /**
   * As written, loading a font a second time (file name not itself a cache
   * key, name not 255 characters long) misses the cache, runs the decoder
   * again and then finds its key taken.
   */
  lemma FontReloadMissesAsWritten(cache: Cache, archive: Archive, filename: string, size: int,
                                  decode: (seq<Byte>, int) -> Option<nat>)
    requires Live(cache) && Acquirable(cache) && filename !in cache && |filename| != 255
    requires LoadFontAsWritten(cache, archive, filename, size, decode).Ok?
    ensures var first := LoadFontAsWritten(cache, archive, filename, size, decode).value;
      && first.decoded
      && filename !in first.cache
      && LoadFontAsWritten(first.cache, archive, filename, size, decode) == Err(KeyClash)
  {
    var key := FontKey(filename, size);
    assert key != filename by {
      FontKeyDiffersFromName(filename, size);
    }
  }

  /** The key of a font is never its bare file name, unless the name has exactly 255 characters. */
  lemma FontKeyDiffersFromName(filename: string, size: int)
    requires |filename| != 255
    ensures FontKey(filename, size) != filename
  {
    var full := filename + ":" + Numerals.Decimal(size);
    if |full| >= KeyCapacity {
      assert |FontKey(filename, size)| == 255;
    } else {
      assert |FontKey(filename, size)| == |full| > |filename|;
    }
  }

  /**
   * With the intended lookup, two loads of "title.ttf" at size 24 decode once;
   * both return the same entry, which then holds two references.
   */
  lemma FontLoadedTwiceDecodesOnce(cache: Cache, archive: Archive, decode: (seq<Byte>, int) -> Option<nat>)
    requires Live(cache) && Acquirable(cache) && FontKey("title.ttf", 24) !in cache
    requires LoadFont(cache, archive, "title.ttf", 24, decode).Ok?
    ensures var first := LoadFont(cache, archive, "title.ttf", 24, decode).value;
      && first.decoded
      && Acquirable(first.cache)
      && var second := LoadFont(first.cache, archive, "title.ttf", 24, decode);
      && second.Ok? && !second.value.decoded
      && second.value.asset == first.asset
      && second.value.cache[first.asset].refcount == 2
  {
  }

  /** Distinct (file name, size) pairs get distinct font keys, as long as neither key is cut. */
  lemma FontKeyInjective(name1: string, size1: int, name2: string, size2: int)
    requires |name1| + 1 + |Numerals.Decimal(size1)| < KeyCapacity
    requires |name2| + 1 + |Numerals.Decimal(size2)| < KeyCapacity
    requires FontKey(name1, size1) == FontKey(name2, size2)
    ensures name1 == name2 && size1 == size2
  {
    var d1, d2 := Numerals.Decimal(size1), Numerals.Decimal(size2);
    var s := name1 + ":" + d1;
    assert s == name2 + ":" + d2;
    LastColon(name1, d1);
    LastColon(name2, d2);
    assert |name1| == |name2|;
    assert name1 == s[..|name1|] == name2;
    assert d1 == s[|name1| + 1..] == d2;
    Numerals.DecimalInjective(size1, size2);
  }

  /** In `name + ":" + d`, with no colon in `d`, the colon after the name is the last one. */
  lemma LastColon(name: string, d: string)
    requires forall i :: 0 <= i < |d| ==> d[i] != ':'
    ensures (name + ":" + d)[|name|] == ':'
    ensures forall i :: |name| < i < |name + ":" + d| ==> (name + ":" + d)[i] != ':'
  {
    var s := name + ":" + d;
    forall i | |name| < i < |s|
      ensures s[i] != ':'
    {
      assert s[i] == d[i - |name| - 1];
    }
  }
}
