# moonbase core in Dafny

This is a model of the engine-independent core of moonbase, a C host for Lua games. The model covers:

- **`mht`**: the separate-chaining hash table (mht.c) and its string keys.
- **The reference-counted asset cache** (asset.c).
- **Reading and caching assets** from the game archive (archive.c).
- **Two pieces of base.c:**
  - `joinpath`, which builds `base/p` in alternating static buffers and collapses runs of dots;
  - the argv loop of `base_initialize`, with its defaults.

Each part is a module over immutable values:

- **`HashTable`** (hashtable.dfy):
  - A table is a sequence of chains, and its meaning is the map `Contents`.
  - The invariant `Valid` says four things:
    - every pair sits in bucket `hash(k) % capacity`;
    - no key appears twice;
    - `size` counts the pairs;
    - the load stays within the 0.66 threshold.
  - The hash function is a parameter.
  - `free_fn` is a flag, and every operation returns the pairs it hands to `free_fn`, in order.
- **`StringKeys`** (stringkeys.dfy): `mht_strk_hash` with signed `char` and 64-bit `unsigned long` wrap-around, and `strcmp`.
- **`AssetCache`** (asset.dfy): the cache is a map from key to `{type, handle, refcount}`. The teardown calls of `asset_free_entry` are a list of events.
- **`Archive`** (archive.dfy): the archive is a map from entry name to bytes.
  - `unzReadCurrentFile` is a script of read results.
  - `archive_load_data` is a method with its read loop.
- **`Loader`** (loader.dfy): the font, image and sound loaders. Each decoder is an oracle that may fail.
- **`Paths`** (paths.dfy): `joinpath`, with its two static buffers and call counter as explicit state.
- **`Options`** (options.dfy): the argv loop, `SDL_atoi`, and the defaults.
- **`Numerals`** (numerals.dfy): the `%d` and `%p` texts that cache keys are built from, and parsing them back.

Some conditions where C would crash, or where the source calls `fatal`, are error values here:

- a missing archive entry;
- a failed decode;
- a missing option value.

In `HashTable`, allocation failures are inputs, so each table operation states what it does when `malloc` fails. The other modules assume every allocation succeeds (see "Left out").

## Model

| member | source | states |
|---|---|---|
| HashTable.New | mht.c:3-21 | A table exists exactly when both allocations succeed. It has `initial_capacity` buckets, size 0, every bucket empty, and the given free function. |
| HashTable.NewIsEmpty | mht.c:3-21 | A fresh table with non-zero capacity satisfies the table invariant under any hash function and denotes the empty map. |
| HashTable.Index | mht.c:87 | The bucket index `hash % capacity` is below the capacity whenever the capacity is non-zero. |
| HashTable.Search | mht.c:72-80 | Returns the first chain position whose key matches. None means no entry of the chain has the key. |
| HashTable.Locate | mht.c:87-88 | Searching the key's own bucket finds a node exactly when the key is in the table, and that node holds the key's pair. |
| HashTable.Get | mht.c:82-92 | Some(v) (return 0) exactly when the key is present, with its stored value; otherwise None (-1). The table is an input only. |
| HashTable.Link | mht.c:111-122 | Linking an absent key at the head of its bucket keeps the invariant, adds exactly that pair and increments `size`. |
| HashTable.Replace | mht.c:104-109 | Overwriting a present key's node keeps the invariant and the size, and changes only that key's value. |
| HashTable.Unlink | mht.c:133-137 | Unlinking a present key's node keeps the invariant, removes exactly that key, decrements `size` and leaves other buckets alone. |
| HashTable.Store | mht.c:102-122 | Covers `mht_set` after the growth check. Fails only when a new node cannot be allocated. A present key changes only under overwrite, with its old pair handed to `free_fn`. An absent key goes to the head of its bucket and `size` grows by one. |
| HashTable.Set | mht.c:94-123 | `mht_set` over the corrected rehash (see Findings mht.c:168 and mht.c:162-165). When `size >= 0.66*capacity`, growth to double capacity comes first, and a failed growth makes the call fail with the contents unchanged. The resulting contents, size, freed pairs and capacity are given for every combination of present/absent key, overwrite and allocation outcome. |
| HashTable.Delete | mht.c:125-138 | Removes exactly the key. `size` drops by one and the pair goes to `free_fn` once if present. An absent key changes nothing. Other buckets are untouched. |
| HashTable.Regrow | mht.c:153-167 | Re-inserting every pair into `newCapacity` empty buckets gives a valid table with the same contents and size. |
| HashTable.Rehash | mht.c:140-170 | Corrected rehash: succeeds exactly when all allocations succeed. Then the same contents sit in `newCapacity` buckets; otherwise the table is unchanged. Nothing is freed. |
| HashTable.RehashAsWritten | mht.c:140-170 | The source's rehash seen from the caller: the caller's table never changes. The success/failure verdict still follows the allocations. |
| HashTable.RehashAsWrittenNeverGrows | mht.c:168-169 | As written, a successful rehash to a new capacity leaves the caller's capacity as it was, unlike the corrected one. |
| HashTable.RehashAsWrittenFreesLivePairs | mht.c:161-165 | As written, an entry allocation failure after `n` copies hands `n` pairs to `free_fn` that the table still maps. The corrected rehash frees none. |
| HashTable.GrowthKeepsRoom | mht.c:99-101 | After the growth check there is room for one more pair within the load bound. Doubling the capacity always makes room. |
| HashTable.Free | mht.c:172-187 | With a free function, every live pair is freed exactly once: no key twice, as many as `size`, and exactly the table's pairs. Without one nothing is freed. |
| HashTable.FillAdds | mht.c:159-167 | Copying pairs with distinct new keys into a valid table, as the rehash loop does, adds exactly those pairs. |
| HashTable.ContentsByBucket | mht.c:87-88 | In a valid table a key's pair is present exactly when it is in the key's own bucket, and the map has `size` keys. |
| HashTable.GetAfterSet | mht.c:94-123 | After a successful set, `get` of the key returns the new value, or the old one when it was present and not overwritten. Other keys read as before. |
| HashTable.GetAfterDelete | mht.c:125-138 | After `delete` the key reads as absent and every other key reads as before. |
| HashTable.SetThenDelete | mht.c:94-138 | Setting an absent key and deleting it restores the contents and size. |
| StringKeys.StrHashIsPolyModulo | mht.c:34-43 | Wrapping modulo 2^64 at every step equals wrapping the unbounded `h*33+c` fold once at the end. |
| StringKeys.StrHashLoop | mht.c:34-43 | The `while (*rkey)` loop, seeded at 1, computes `StrHash` of the key up to its NUL and stays below 2^64. |
| StringKeys.StrHashValues | mht.c:37-40 | The empty key hashes to 1 and "a" to 130. Byte 255 counts as the signed char -1, giving 32. |
| StringKeys.SignedChar | mht.c:40 | A byte read as a signed char lies in [-128, 128) and is congruent to the byte modulo 256. |
| StringKeys.StrEqualsIsEquality | mht.c:52-55 | On NUL-free keys, `strcmp(k1, k2) == 0` holds exactly when the keys are equal. |
| StringKeys.StrcmpAntisymmetric | mht.c:54 | Swapping the arguments of `strcmp` negates its result. |
| StringKeys.StrcmpStopsAtNul | mht.c:54 | Bytes after a NUL do not affect the comparison. |
| AssetCache.FreeEntry | asset.c:5-23 | The key is freed first and the record last, each exactly once. In between, the destructor for the entry's type runs on its handle, or none for an unknown type. Every other event is a destructor call. |
| AssetCache.FreeEntryDestroysOnce | asset.c:11-21 | Fonts get `TTF_CloseFont`, images `SDL_DestroyTexture` and sounds `Mix_FreeChunk`, exactly once each, on the entry's own handle. |
| AssetCache.DestructorsAreDestructors | asset.c:11-21 | The destructor calls of a teardown trace are exactly its events that are destructor calls. |
| AssetCache.AnonymousKey | asset.c:47-48 | A NULL key becomes `"@%p"` of the handle, cut to 31 characters, always starting with '@'. |
| AssetCache.AnonymousKeyInjective | asset.c:47-48 | For 64-bit addresses the text is never cut, so distinct handles get distinct keys. |
| AssetCache.KeyFor | asset.c:44-49 | The given key is used as is. Without one, the handle's anonymous key is used. |
| AssetCache.Create | asset.c:38-56 | A new entry with the given type and handle and refcount 1, under the chosen key. That entry is what is returned. |
| AssetCache.Find | asset.c:58-61 | Returns the entry under the key exactly when the key is in the cache. |
| AssetCache.Acquire | asset.c:63-70 | The entry's refcount rises by one. Nothing else in the cache changes. |
| AssetCache.Release | asset.c:72-82 | The refcount drops by one. When it reaches 0 or below, the entry leaves the cache with its teardown calls and NULL is returned. Otherwise the same entry is returned. |
| AssetCache.AcquireThenRelease | asset.c:63-82 | Acquire followed by release restores the cache and runs no teardown. |
| AssetCache.LastReleaseDestroys | asset.c:72-82 | In a cache where every refcount is at least 1, an entry leaves exactly on the release of its last reference, and exactly one destructor runs for a known type. |
| AssetCache.CreateKeepsLive | asset.c:50-55 | A successful create keeps every entry at refcount 1 or more. |
| AssetCache.AcquireKeepsLive | asset.c:63-70 | Acquire keeps every entry at refcount 1 or more. |
| AssetCache.ReleaseKeepsLive | asset.c:72-82 | Release keeps every remaining entry at refcount 1 or more. |
| AssetCache.CreateAcquireReleaseTwice | asset.c:38-82 | Create, acquire, release, release on "sprite.png": refcounts go 1, 2, 1. The last release removes the entry and destroys its texture exactly once. |
| Archive.Locate | archive.c:30-32 | An entry is found exactly when the name is in the archive. A missing name gives `EntryMissing` instead of `fatal`. |
| Archive.ContainsIffLocates | archive.c:19-22 | `archive_contains` is true exactly for the names whose entry can be located. |
| Archive.Got | archive.c:41 | A read never delivers more than the room left, and a positive count is at most the request. |
| Archive.LoadData | archive.c:24-45 | Fails exactly when the entry is missing. Otherwise the buffer has `size + 1` bytes with a 0 at `data[size]`, the reported size is the entry's length, and the loop's copy matches the entry for as far as the reads got. |
| Archive.CompleteReadsFill | archive.c:41-43 | When every read delivers bytes and together they cover the entry, the loop fills the whole buffer. |
| Archive.FailedFirstReadFillsNothing | archive.c:41-43 | A first read that reports 0 or an error leaves the buffer unfilled. |
| Loader.FontKey | archive.c:99 | The font key is `"%s:%d"` of name and size, cut to 255 characters. It is uncut whenever it fits. |
| Loader.LoadVia | archive.c:91-100 | Covers the shared loader path: a cache hit takes one more reference and decodes nothing. A miss needs the archive entry, a successful decode and a free key, and creates an entry with refcount 1. Each failing step gives its own error: `NotInArchive`, `DecodeFailed` or `KeyClash`. |
| Loader.LoadImage | archive.c:103-124 | Images are looked up and stored under the bare name. A hit adds a reference. A miss decodes once and creates refcount 1. Failure happens only on a miss with a missing entry or a failed decode. |
| Loader.LoadSound | archive.c:126-140 | The same for sounds, with the sound type. |
| Loader.LoadFontAsWritten | archive.c:85-101 | The source's font loader. A hit on the bare name takes one more reference to whatever entry is cached there. A miss decodes and stores `Entry(Font, handle, 1)` under `FontKey`, changing nothing else. It fails exactly on a miss whose entry is missing (`NotInArchive`), whose decode fails (`DecodeFailed`), or whose `FontKey` is already cached (`KeyClash`). |
| Loader.FontReloadMissesAsWritten | archive.c:91-100 | As written, a second load of the same font misses the cache, decodes again and finds its key taken: the result is `Err(KeyClash)`. |
| Loader.LoadFont | archive.c:85-101 | Corrected font loader: looks up and stores under `FontKey`, so a hit adds a reference and a miss decodes once. |
| Loader.FontLoadedTwiceDecodesOnce | archive.c:85-101 | With the corrected lookup, loading "title.ttf" at 24 twice decodes once and returns the same entry, which then holds two references. |
| Loader.FontKeyInjective | archive.c:99 | Uncut font keys of distinct (name, size) pairs differ. |
| Loader.FontKeyDiffersFromName | archive.c:91-99 | A font's key is never its bare name unless the name is exactly 255 characters long. |
| Paths.JoinPath | base.c:240-273 | The buffer `index & 1` receives `base`, '/', the copy of `p` with each '.' after a '.' dropped, then a NUL. The counter advances, the other buffer and the bytes past the NUL are untouched. |
| Paths.JoinTwice | base.c:245-250 | Two consecutive calls use different buffers, so both results are intact after the second call. |
| Paths.CollapseNoDoubleDot | base.c:259-263 | The appended part never contains "..". |
| Paths.CollapseKeepsOthers | base.c:259-269 | Every character other than '.' is copied, in order. |
| Paths.CollapseKeepsSomeDot | base.c:259-269 | Dots are never all removed: the copy has a '.' exactly when `p` has one. |
| Paths.CollapseAroundNonDot | base.c:259-269 | A character other than '.' is copied and splits the path: the parts before and after it collapse independently, so each run of dots is handled where it stands. |
| Paths.CollapseDotRun | base.c:259-269 | A run of one or more dots becomes a single dot. |
| Paths.CollapseFixedPoint | base.c:259-269 | The copy equals `p` exactly when `p` has no "..". |
| Paths.CollapseIdempotent | base.c:259-269 | Collapsing an already collapsed path changes nothing. |
| Paths.CollapseExamples | base.c:259-269 | "../../etc" becomes "././etc" and "a...b" becomes "a.b". |
| Options.ScanArgs | base.c:60-87 | Any path option the loop sets is one of the scanned words; otherwise it keeps its earlier value. |
| Options.ParseArgs | base.c:52-97 | fps is 30. The game path is one of `argv[1..]` or "game.zip", and the scripts are among `argv[1..]` or "config.lua"/"main.lua". The data path is one of `argv[1..]` or the preference path. The program name `argv[0]` is never used. |
| Options.ParseDefaults | base.c:52-97 | With no arguments: "game.zip", "config.lua", "main.lua", the preference path, pool size 0, 30 fps. |
| Options.LastPositionalWins | base.c:61-66 | A word not starting with '-' replaces the game path, so the last one wins. |
| Options.OptionTakesNextWord | base.c:68-80 | `-c`, `-m`, `-p` and `-d` take the next word as their value, even one starting with '-'. |
| Options.UnknownOptionSkipped | base.c:68-86 | A word starting with '-' whose second character is not an option letter is skipped. |
| Options.DoubleDashIsNotAnOption | base.c:68-86 | `--config x.lua` leaves the config script at its default and makes "x.lua" the game path. |
| Options.TrailingOptionMissesValue | base.c:69-80 | An option letter as the last word has no value to read. |
| Options.HelpWins | base.c:81-83 | `-h` after a complete parse shows the usage instead of running. |
| Options.ScanAppend | base.c:60-87 | Scanning more words continues from where a complete scan stopped. Help is final. |
| Options.AtoiDecimal | base.c:75-77 | `SDL_atoi` reads back the decimal text of any number, whatever non-digit text follows it. |
| Options.AtoiNatText | base.c:75-77 | `SDL_atoi` reads back the digits of any natural number, with or without a leading '-', when no digit follows them. |
| Options.AtoiWithoutDigits | base.c:75-77 | Text without a single decimal digit reads as 0. |
| Options.AtoiSkipsSpace | base.c:75-77 | Leading white space does not change the value `SDL_atoi` reads. |
| Options.AtoiOfNonNumber | base.c:75-77 | Text that does not start with a sign, a digit or white space reads as 0. |
| Options.PoolSizeFromOption | base.c:75-77 | `-p n` sets the pool size to `n`. |
| Numerals.NatTextRoundTrip | archive.c:99 | Parsing the digits printed for `n` gives back `n`. |
| Numerals.DecimalInjective | archive.c:99 | Distinct ints print distinct `%d` texts. |
| Numerals.PointerTextInjective | asset.c:47 | Distinct addresses print distinct `%p` texts. |
| Numerals.NatTextLength | asset.c:47 | A number below `base^k` has at most `k` digits. |

## Left out

- **Thin wrappers:** video.c, audio.c, image.c, font.c, game.c, log.c, storage.c, luacom.c and main.c. They are calls into SDL, Lua and stdio with no logic of their own.
- **The rest of base.c:** `vstr`, the talloc allocator, Lua state setup, the archive searcher and SDL initialisation. `SDL_GetPrefPath` is the `prefPath` parameter of `Options.ParseArgs`, because its value comes from the platform.
- **`archive_load_script`, the Lua bindings and the RWops close callback** (archive.c:47-83, 142-182): Lua execution and stream plumbing.
- **Library internals:** minizip and json-c. The archive is a name→bytes map, the read loop is driven by a script of read results, and `lh_table` is a map.
- **`lh_table_insert` on a key already present:** its behaviour is not visible here. `AssetCache.Create` reports `KeyInUse` for that case and promises nothing more.
- **`asset_initialize` and `asset_shutdown`:** table creation and teardown through json-c.
- **`mht_ptrk_hash` and `mht_ptrk_equals`:** pointer arithmetic with implementation-defined overflow. The table takes any hash function and compares keys with `==`.
- **The load factor:** the double `0.66` is the rational 66/100. `capacity * 0.66` in floating point can differ from it at exact boundaries.
- **Memory of nodes and buffers:** `mht_delete` never frees the unlinked node. The model has no heap, so it does not show this leak.
- **Pointer-level memory safety in general:** only table-level behaviour is modelled.
- **HashTable.Valid:** includes a load bound the source does not state. The bound holds for every table built through `mht_new` and `mht_set`. It rules out nested growth inside the rehash loop, where the source would free headers in use.
- **HashTable.Set:** grows through the corrected `HashTable.Rehash`. In the source, a successful growth leaves the caller with a freed header and the old buckets (mht.c:168). A growth whose entry allocation fails after `n` copies hands those `n` live pairs to `free_fn` (mht.c:162-165). `HashTable.RehashAsWritten` models both, and the Findings table lists them.
- **HashTable.RehashAsWritten:** after `free(t)` the source's caller goes on using a freed header, which is undefined behaviour. The model shows the one consistent outcome, the old buckets still in place.
- **The Windows branch of `joinpath`:** the `\` separator and the `/`→`\` translation.
- **Paths.JoinPath:** requires that `base`, '/' and the collapsed `p` fit in 255 characters. `sprintf` and the copy loop do not check this bound; past it they overflow the buffer.
- **Overlapping buffers:** a `joinpath` result passed back in as `base` is not modelled.
- **The `int` call counter of `joinpath`:** it overflows after 2^31 calls, and the model's counter is unbounded.
- **Options.Atoi:** does not model overflow. `atoi` of a number outside the `int` range is undefined, and the model returns the exact value.
- **The `int` refcount:** overflow is excluded by the preconditions of `AssetCache.Acquire` and `AssetCache.Release`.
- **AssetCache.Release:** requires the entry to be in the cache. Releasing an entry that has already been removed reads freed memory in the source, so there is no "key not found" outcome to model.
- **Options.ParseArgs:** an option letter as the last argument makes the source pass `argv[argc]`, a NULL pointer, to `SDL_strdup` or `SDL_atoi`. The model reports `ValueMissing` instead of crashing.
- **Allocation failures outside the hash table:** the model assumes these allocations always succeed:
  - `SDL_strdup` and `SDL_malloc` in `asset_create` (asset.c:45-50), in `AssetCache.Create`;
  - `SDL_malloc` of the buffer in `archive_load_data` (archive.c:35), in `Archive.LoadData`;
  - `SDL_strdup` of option values in `base_initialize` (base.c:65-79), in `Options.ParseArgs`. A failed copy there leaves NULL, and the default would then apply.
- **`-h`:** `base_help` prints the usage and `exit(0)` ends the process. The model returns `ShowHelp`.
- **Decoders and asset types:**
  - `TTF_OpenFontRW`, `IMG_Load_RW` with `SDL_CreateTextureFromSurface`, and `Mix_LoadWAV_RW` are oracles on the whole entry's bytes. `fatal` on their failure is an error result.
  - The blend mode and surface freeing of the image loader are not modelled.
  - Asset types are `int`s, and an unknown type gets no destructor, as in the source's `switch`.
- **Archive.LoadData:** leaves unread bytes unspecified. Only the prefix the reads delivered is stated to match the entry.

## Findings

| source | as written | input that shows it | evidently intended | confidence | as-written member | corrected member |
|---|---|---|---|---|---|---|
| mht.c:168 | After copying every pair into the new table `nt`, `mht_rehash` frees the old header `t` and returns 0. The new buckets are never installed, and `mht_set` goes on using the freed `t`. | A table of capacity 2 with 2 pairs: the next `mht_set` calls `mht_rehash(t, 4)`. It reports success, but the caller's table still has 2 buckets and its header has been freed. | Swap the new bucket array and capacity into `t`, then free the old array and `nt`, so the table grows in place. | not executed | HashTable.RehashAsWrittenNeverGrows | HashTable.Rehash |
| mht.c:162-165 | When allocating an entry of the new table fails, `mht_free(nt)` runs `free_fn` on every pair copied so far. The old table still owns those pairs, so they are freed twice once the table itself is freed. | A table with `free_fn`, whose 3 pairs need growth, where the second node allocation fails. `free_fn` runs on the first pair while the old table still maps it. | Release only the new nodes and bucket array without calling `free_fn`, and leave the old table intact. | not executed | HashTable.RehashAsWrittenFreesLivePairs | HashTable.Rehash |
| archive.c:91, 99-100 | `archive_load_font` looks the font up under the bare file name but stores it under `"name:size"`. A repeated load never hits the cache: it decodes again and inserts a second entry under a key already in use. | Loading "title.ttf" at size 24 twice. The second call searches "title.ttf", misses, and creates "title.ttf:24" again. | Look the font up under the same `"name:size"` key it is stored under. | not executed | Loader.FontReloadMissesAsWritten | Loader.LoadFont |
