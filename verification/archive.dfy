/**
 * Reading entries of the game archive (archive.c).
 *
 * The zip archive is a map from entry name to the entry's uncompressed
 * bytes; locating an entry is a case-sensitive exact match.  Decompression is
 * abstracted into a read script: `script[j]` is what the j-th call of
 * `unzReadCurrentFile` reports, a count of bytes (0 at the end of the entry,
 * negative on an error).  A call never delivers more than the room it is
 * given, and a call with no room, or past the end of the script, reports 0.
 */
module Archive {
  import opened Common

  type Archive = map<string, seq<Byte>>

  datatype ArchiveError = EntryMissing

  /** `archive_contains`: whether `unzLocateFile` finds the name. */
  predicate Contains(archive: Archive, name: string)
  {
    name in archive
  }

  /** Locating an entry: its bytes, or `EntryMissing` where the source calls `fatal`. */
  function Locate(archive: Archive, name: string): (r: Result<seq<Byte>, ArchiveError>)
    ensures r.Ok? <==> name in archive
    ensures r.Ok? ==> r.value == archive[name]
    ensures r.Err? ==> r.error == EntryMissing
  {
    if name in archive then Ok(archive[name]) else Err(EntryMissing)
  }

  /** `archive_contains` answers yes exactly for the names whose entry can be located and loaded. */
  lemma ContainsIffLocates(archive: Archive, name: string)
    ensures Contains(archive, name) <==> Locate(archive, name).Ok?
  {
  }

  /** How many bytes one read delivers when `room` bytes of the buffer are left. */
  function Got(request: int, room: nat): (got: int)
    ensures got <= room
    ensures got > 0 ==> got == Min(request, room)
  {
    if room == 0 then 0 else if request <= 0 then request else Min(request, room)
  }

  /** How many bytes the read loop copies into `room` bytes, reading from the start of the script. */
  function Filled(script: seq<int>, room: nat): (n: nat)
    ensures n <= room
  {
    if |script| == 0 || Got(script[0], room) <= 0 then 0
    else Got(script[0], room) + Filled(script[1..], room - Got(script[0], room))
  }

  function Sum(script: seq<int>): int
  {
    if |script| == 0 then 0 else script[0] + Sum(script[1..])
  }

  /** When every read delivers something and together they cover the entry, the whole entry is read. */
  lemma {:induction false} CompleteReadsFill(script: seq<int>, room: nat)
    requires forall j :: 0 <= j < |script| ==> script[j] > 0
    requires Sum(script) >= room
    ensures Filled(script, room) == room
  {
    if room > 0 && |script| > 0 {
      var g := Got(script[0], room);
      if g < room {
        assert g == script[0];
        CompleteReadsFill(script[1..], room - g);
      }
    }
  }

  /** A script whose first read fails or reports the end leaves the buffer unfilled. */
  lemma FailedFirstReadFillsNothing(script: seq<int>, room: nat)
    requires |script| > 0 && script[0] <= 0
    ensures Filled(script, room) == 0
  {
  }

  /** The buffer `archive_load_data` hands back, with the size it reports. */
  datatype Loaded = Loaded(data: seq<Byte>, size: nat, filled: nat)

  /**
   * `archive_load_data`: locate the entry (fatal when missing), allocate
   * `size + 1` bytes with a 0 at `data[size]`, and copy chunks in at a cursor
   * that advances by each read's count until a read reports 0 or less.
   * Bytes no read reaches are left as allocated; the model fills them
   * with 0, which the contract does not promise.
   */
  method LoadData(archive: Archive, name: string, script: seq<int>) returns (r: Result<Loaded, ArchiveError>)
    ensures r.Err? <==> name !in archive
    ensures r.Ok? ==> r.value.size == |archive[name]|
    ensures r.Ok? ==> |r.value.data| == r.value.size + 1 && r.value.data[r.value.size] == 0
    ensures r.Ok? ==> r.value.filled == Filled(script, r.value.size)
    ensures r.Ok? ==> r.value.data[..r.value.filled] == archive[name][..r.value.filled]
  {
    if name !in archive {
      return Err(EntryMissing);
    }
    var entry := archive[name];
    var size := |entry|;
    var data := seq(size + 1, _ => 0);
    data := data[size := 0];
    var cur := 0;
    var j := 0;
    while j < |script| && Got(script[j], size - cur) > 0
      invariant 0 <= j <= |script|
      invariant 0 <= cur <= size
      invariant |data| == size + 1 && data[size] == 0
      invariant data[..cur] == entry[..cur]
      invariant cur + Filled(script[j..], size - cur) == Filled(script, size)
      decreases |script| - j
    {
      var got := Got(script[j], size - cur);
      assert script[j..][1..] == script[j + 1..];
      data := data[..cur] + entry[cur..cur + got] + data[cur + got..];
      assert data[..cur + got] == entry[..cur + got];
      cur := cur + got;
      j := j + 1;
    }
    if j < |script| {
      assert Filled(script[j..], size - cur) == 0;
    } else {
      assert script[j..] == [];
    }
    return Ok(Loaded(data, size, cur));
  }
}
